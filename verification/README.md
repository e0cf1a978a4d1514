# Paper-TTS in Dafny

`paper-to-mp3.py` reads a paper as plain text and turns it into one MP3. Along the way it:

1. rewrites a few Unicode code points into words with `str.translate`;
2. cuts the text into chunks of at most 4999 characters, using heading lines and then four separators in turn;
3. labels each chunk with the heading text it ends in, if any;
4. has each chunk spoken, with the title voice for labelled chunks;
5. folds the chunks' durations into chapters;
6. writes the chapters into the file's ID3 tag as millisecond intervals with ids `ch0`, `ch1`, ...

This project models that pipeline. Speech synthesis, audio files and the tag library are left out.

## Modules

| Module | File | Form | What it holds |
|---|---|---|---|
| `PyStr` | `pystr.dfy` | pure | The pieces of Python's `str` the program relies on: `isspace`, `strip`, `split(sep)`, `sep.join`, `''.join` and `str(n)`. |
| `Normalize` | `normalize.dfy` | pure | The translation table and `translate`. |
| `Headings` | `headings.dfy` | pure | The first segmentation pass: a leading newline, `re.split` around heading lines (hand-coded), then the strip-and-drop comprehension. |
| `Separators` | `separators.dfy` | mixed | See below. |
| `Titles` | `titles.dfy` | pure | The title search, hand-coded, and the label. |
| `Synthesis` | `synthesis.dfy` | pure | The voice and rate choice, the request each chunk is spoken with, and the temporary-file names. |
| `Chapters` | `chapters.dfy` | mixed | See below. |
| `Pipeline` | `pipeline.dfy` | imperative | `generate_audio_for_file` end to end, with the speech service as a parameter. |

`Separators` holds the separator passes:
- `Pass` states, as a function, one pass over the list. The list is rewritten in place while `enumerate` walks it, and `Pass` states the result of that walk.
- `SeparatorPass` is the loop itself, as a method proved against `Pass`.
- `InPlace` describes a pass chunk by chunk, without the worklist, and `PassInPlace` proves it equal to `Pass`.
- `Content` erases whitespace and periods. The passes keep it unchanged, so the chunks carry the document's text in order.
- `Segment` runs all five entries of the split order.

`Chapters` holds:
- the chapter merge, as a loop proved against the predicate `IsChapterMerge`;
- the `add_chapters` interval loop, proved against the function `Frame`.

## Model

| member | source | states |
|---|---|---|
| Normalize.Substitute | paper-to-mp3.py:8-14 | Each of the seven table keys becomes text of two or more characters that holds no key. Any other character stays as it is. |
| Normalize.Translate | paper-to-mp3.py:46 | The translated text holds none of the table's keys and is never shorter than the input. Text without keys comes back unchanged. |
| Normalize.TranslateConcat | paper-to-mp3.py:46 | Translation works character by character: translating a concatenation is concatenating the translations. |
| Normalize.TranslateAround | paper-to-mp3.py:8-14 | Every character, wherever it stands, is replaced by exactly its table entry, or by itself. |
| PyStr.SpaceRunFrom | paper-to-mp3.py:50 | The scan `lstrip` does: from a start position it passes only whitespace and stops at the end or at a non-space character. |
| PyStr.SpaceRunBefore | paper-to-mp3.py:50 | The scan `rstrip` does, backwards: it passes only whitespace and stops at the start or after a non-space character. |
| PyStr.TrimStart | paper-to-mp3.py:50 | `lstrip` gives a suffix of the input that starts with a non-space and keeps every non-space character. |
| PyStr.TrimEnd | paper-to-mp3.py:50 | `rstrip` gives a prefix of the input that ends with a non-space and keeps every non-space character. |
| PyStr.Strip | paper-to-mp3.py:50 | `strip` leaves no whitespace at either end, drops no non-space character and never lengthens. `StripAround` and `StripUnique` pin it down exactly. |
| PyStr.StripAround | paper-to-mp3.py:50 | The stripped string is a contiguous stretch of the input with only whitespace before it and only whitespace after it. Inner whitespace is kept. |
| PyStr.StripUnique | paper-to-mp3.py:50 | Conversely, a stretch of the input with no whitespace at its ends and only whitespace around it is `strip` of the input. With `StripAround`, this determines `s.strip()` completely. |
| PyStr.StripBlank | paper-to-mp3.py:50 | The stripped string is empty exactly when the input is blank. It is blank exactly when the input is. |
| PyStr.StripMembers | paper-to-mp3.py:70 | Every character of the stripped string comes from the input. |
| PyStr.StripStripped | paper-to-mp3.py:70 | Stripping leaves a stripped string alone. |
| PyStr.FindFrom | paper-to-mp3.py:62 | Finds the first occurrence of the separator at or after a position, or reports that there is none. |
| PyStr.FindFirst | paper-to-mp3.py:62 | An occurrence with no occurrence before it is the one found. |
| PyStr.Split | paper-to-mp3.py:62 | `s.split(sep)` always gives at least one part, even for the empty string. `SplitPartsFree`, `JoinSplit` and `SplitLeftmost` together pin the parts down. |
| PyStr.SplitPartsFree | paper-to-mp3.py:62 | No part of `s.split(sep)` contains `sep`. |
| PyStr.JoinSplit | paper-to-mp3.py:62 | `sep.join(s.split(sep)) == s`: the split loses nothing. |
| PyStr.SplitCuts | paper-to-mp3.py:62 | Part `k` of `s.split(sep)` starts after the earlier parts and one `sep` behind each. No occurrence of `sep` starts inside it. An occurrence follows it, except for the last part, which runs to the end of `s`. |
| PyStr.SplitLeftmost | paper-to-mp3.py:62 | `str.split` cuts at the leftmost occurrences. Searching for `sep` from where part `k` starts finds it right after that part. From where the last part starts, it finds none. So for `"a\n\n\nb"` split by `"\n\n"` the parts are `"a"` and `"\nb"`, never `"a\n"` and `"b"`. |
| PyStr.Decimal | paper-to-mp3.py:64 | `str(n)` is a non-empty run of decimal digits with no leading zero. |
| PyStr.DecimalRoundTrip | paper-to-mp3.py:64 | Reading back `str(n)` gives `n`. |
| PyStr.DecimalInjective | paper-to-mp3.py:64 | Different numbers print differently. |
| Headings.HeadingAt | paper-to-mp3.py:49 | A match of the heading pattern at `p` follows a line break and is a heading line: blanks, a `#`, line characters and a final line break. |
| Headings.HeadingAtComplete | paper-to-mp3.py:49 | Every heading line that follows a line break is found, and the match is that whole line. |
| Headings.HeadingsAtOddIndex | paper-to-mp3.py:49 | Every piece at an odd position of the split is a heading line. |
| Headings.SplitFrom | paper-to-mp3.py:49 | The split pieces, concatenated, give back the text from the scan start. There is an odd number of them, with the heading lines at the odd positions. |
| Headings.SplitHeadings | paper-to-mp3.py:49 | `re.split` with the capturing heading pattern: the pieces spell out the text, and every odd piece is a heading line. |
| Headings.SplitFromExact | paper-to-mp3.py:49 | From a scan start with no match before the scan position, the split is the left-to-right one: text in which no match starts, the leftmost match, then the split of what follows it. |
| Headings.SplitHeadingsExact | paper-to-mp3.py:49 | `re.split` cuts at every leftmost match: no match starts inside an even piece, each odd piece is the match found where it starts, and the search goes on from the match's end. |
| Headings.SplitsAtUnique | paper-to-mp3.py:49 | For any matcher whose matches end after they start, there is only one such left-to-right split. |
| Headings.HeadingMatchesBehave | paper-to-mp3.py:49 | A heading match ends after it starts, within the text, and no match starts strictly inside another. |
| Headings.SplitsAtMatch | paper-to-mp3.py:49 | Every position where the pattern matches starts an odd piece of the split, and that piece is the whole match. |
| Headings.KeepStripped | paper-to-mp3.py:50 | One element of the comprehension: `[]` for a blank piece, otherwise exactly `[b.strip()]`. A kept chunk is non-empty and stripped, with the same non-space text as the piece. |
| Headings.StripPiecesChunks | paper-to-mp3.py:50 | There are no more chunks than pieces. Every chunk kept is non-empty, non-blank and stripped. Erasing whitespace, the chunks spell out the pieces in the same order. |
| Headings.StripPiecesAppend | paper-to-mp3.py:50 | The comprehension works piece by piece: the chunks of two lists of pieces are the chunks of the first followed by those of the second. |
| Headings.StripPiecesAt | paper-to-mp3.py:50 | A non-blank piece becomes exactly one chunk, itself stripped, standing between the chunks of the pieces before it and those of the pieces after it. |
| Headings.FirstPass | paper-to-mp3.py:47-50 | After the first pass every chunk is non-empty, non-blank and stripped. The chunks hold exactly the document's non-space text, in order. |
| Headings.FirstPassKeepsHeading | paper-to-mp3.py:47-50 | Every heading line of the document, after the newline put in front, comes out of the first pass as a chunk of its own: the line stripped. |
| Separators.NonBlankParts | paper-to-mp3.py:62 | The filter `if not s.isspace() and s`: no more parts than given, each of them non-blank and one of the given parts. |
| Separators.KeepPieces | paper-to-mp3.py:62 | Each kept piece is non-blank text followed by the separator. |
| Separators.KeepPiecesParts | paper-to-mp3.py:62 | The comprehension keeps exactly the non-blank parts, in order: the `k`-th piece is the `k`-th non-blank part followed by the separator. |
| Separators.Pieces | paper-to-mp3.py:62 | What replaces an oversize chunk: pieces that each end with the separator and are neither empty nor blank. |
| Separators.PiecesLength | paper-to-mp3.py:62 | The pieces together are at most one separator longer than the chunk. |
| Separators.PiecesTailShorter | paper-to-mp3.py:55-62 | The pieces after the first are together shorter than the chunk, which is why a pass ends. |
| Separators.PiecesContent | paper-to-mp3.py:62 | The pieces of a chunk carry exactly the chunk's text, in order, apart from whitespace and periods. |
| Separators.PiecesAreCuts | paper-to-mp3.py:62 | Every piece is a non-blank part in which the separator does not occur, followed by the separator. |
| Separators.CutAgain | paper-to-mp3.py:55-62 | Splitting a piece again with its separator gives one piece: the piece itself, or, for the blank-line separator when the part ends in a newline, the piece one newline shorter. |
| Separators.PassOverCuts | paper-to-mp3.py:55-62 | Pieces spliced in ahead of the rest of the list are each visited once more and replaced by what `CutAgain` makes of them; the rest of the list is passed over as before. |
| Separators.PassInPlace | paper-to-mp3.py:55-62 | A pass works chunk by chunk, in place and in order: a fitting chunk stays; an oversize chunk is replaced by its first piece and its other pieces cut again; an oversize chunk with no pieces vanishes and the next chunk is kept as it is. |
| Separators.RecutKeeps | paper-to-mp3.py:55-62 | With `".\n"`, `". "` or `" "`, cutting pieces again leaves them as they are. |
| Separators.PassReplacesInPlace | paper-to-mp3.py:55-62 | With `".\n"`, `". "` or `" "`, `Pass` replaces each chunk where it stands by exactly one of: the chunk, its pieces, or nothing (all its parts blank, the next chunk then kept unvisited). |
| Separators.PassKeepsContent | paper-to-mp3.py:55-62 | A pass loses no text and invents none: the chunks after it carry the same text, in order, apart from whitespace and periods. |
| Separators.ApplyPassesKeepContent | paper-to-mp3.py:53-62 | The same holds for all four separator passes together. |
| Separators.SegmentedKeepsContent | paper-to-mp3.py:47-62 | A successful segmentation carries the document's text, in order, apart from whitespace and periods. |
| Separators.PassWithoutSeparator | paper-to-mp3.py:62 | An oversize chunk that does not contain the separator comes out whole with the separator appended, and is still oversize. |
| Separators.PassMembers | paper-to-mp3.py:55-62 | Every chunk a pass produces was in the list already or is a piece made with the pass's separator. |
| Separators.PassFitting | paper-to-mp3.py:55-62 | A list whose chunks all fit goes through a pass unchanged. |
| Separators.PassKeepsFitting | paper-to-mp3.py:55-62 | A pass keeps every chunk of at most 4999 characters, unchanged and in its relative order. |
| Separators.SeparatorPass | paper-to-mp3.py:56-62 | With a separator, the in-place loop computes `Pass`. With `None`, it keeps the list and fails with the error message exactly when some chunk is too long. |
| Separators.Segment | paper-to-mp3.py:47-62 | The segmentation loop yields exactly `Segmented`: the first pass, the four separator passes, then the size check. |
| Separators.SegmentedShape | paper-to-mp3.py:53-60 | On success every chunk is non-blank and between 1 and 4999 characters long. Segmentation raises exactly when a chunk is still too long after the four passes, and it always raises the one message. |
| Separators.ApplyPassesNonBlank | paper-to-mp3.py:53-62 | The separator passes never produce a blank chunk from non-blank chunks. |
| Separators.LongWordFails | paper-to-mp3.py:47-60 | A document that is one word longer than 4999 characters cannot be segmented. The word has no whitespace, no `#`, and no final period. It is one chunk after the first pass, and each pass only appends its separator. |
| Separators.LongWordFirstPass | paper-to-mp3.py:47-50 | A word with no `#` and no whitespace is a single chunk after the first pass. |
| Separators.SplitWithoutHash | paper-to-mp3.py:49 | Without a `#` the heading split returns the whole text as one piece. |
| Separators.SpaceOnlyAtEnd | paper-to-mp3.py:62 | A non-blank `x + ". "` with no space in `x` comes out of the space pass unchanged. |
| Separators.CutUnchanged | paper-to-mp3.py:62 | A piece cut with `".\n"`, `". "` or `" "` goes through another pass with the same separator unchanged. |
| Separators.LongWordTwoPasses | paper-to-mp3.py:53-62 | The blank-line and period-newline passes over a long word each only append their separator. |
| Titles.TitleMatchSound | paper-to-mp3.py:69 | What the search returns is a match of the title pattern: a run of characters other than `#` and newline. The run follows a `#` and ends at the end of the chunk or before one final newline. |
| Titles.TitleMatchComplete | paper-to-mp3.py:69 | Any match of the pattern is the one the search returns, so the pattern matches at most one stretch of a chunk. |
| Titles.MatchIsTitleText | paper-to-mp3.py:69 | The matched text is at most as long as the chunk and holds no `#` or newline. |
| Titles.LabelShape | paper-to-mp3.py:69-70 | The label holds no `#` and no newline, is stripped, and is never longer than the chunk. |
| Titles.LabelledIff | paper-to-mp3.py:69-70 | A chunk gets a non-empty label exactly when it has a `#` followed by non-blank text, without `#` or newline, that runs to the end of the chunk or to one final newline. |
| Titles.NoLabelAfterBlankLine | paper-to-mp3.py:69-70 | A chunk ending in a blank line (`\n\n`) never gets a label. |
| Titles.NoLabelAfterClosingHash | paper-to-mp3.py:69-70 | A chunk ending in `#`, or in `#` and a newline, gets no label, as with `## Title ##`. |
| Titles.HeadingLabelExample | paper-to-mp3.py:69-70 | `#Intro` is labelled `Intro`. |
| Titles.BodyLabelExample | paper-to-mp3.py:69-70 | A body line `see issue #5` is labelled `5`. |
| Synthesis.SelectVoice | paper-to-mp3.py:112-119 | A title gets `en-US-Wavenet-B` at rate 1.2; anything else gets `en-US-Wavenet-J` at rate 1.5. Both are `en-US`. |
| Synthesis.RequestChoice | paper-to-mp3.py:72-73 | When the title pattern matches, the label is spoken instead of the chunk. The title voice is used exactly when the label is non-empty, and the body voice exactly when it is empty. Every request asks for MP3 with the headphone profile. |
| Synthesis.RequestTextShort | paper-to-mp3.py:72 | The spoken text is never longer than the chunk. When it is not the chunk itself, it holds no `#`. |
| Synthesis.TempPath | paper-to-mp3.py:64 | The `n`-th temporary path is the output path, a dot, and a suffix that reads back as `n`. |
| Synthesis.TempPaths | paper-to-mp3.py:64 | One temporary path per chunk, the `n`-th being `TempPath(outPath, n)`. |
| Synthesis.TempPathsDistinct | paper-to-mp3.py:64 | No two chunks share a temporary file. |
| Chapters.Starts | paper-to-mp3.py:91-94 | The positions that open chapters carry a non-empty label. |
| Chapters.StartsIncreasing | paper-to-mp3.py:91-94 | Chapters open in chunk order. |
| Chapters.StartsComplete | paper-to-mp3.py:91-94 | Every labelled chunk opens a chapter. |
| Chapters.MergeChapters | paper-to-mp3.py:89-97 | Over `zip(block_times, block_titles)`: the titles are the non-empty labels in order, with one time each. Each time is its chunk's duration plus those of the unlabelled chunks up to the next label. The times add up to the durations from the first labelled chunk on. |
| Chapters.NoChunksNoChapters | paper-to-mp3.py:89-90 | Before any chunk there are no chapters. |
| Chapters.LabelledStep | paper-to-mp3.py:92-94 | A labelled chunk appends a chapter with its label and duration, and the merge invariant holds one chunk further. |
| Chapters.UnlabelledStep | paper-to-mp3.py:95-97 | An unlabelled chunk after a chapter adds its duration to the last chapter, and the merge invariant holds one chunk further. |
| Chapters.LeadingStep | paper-to-mp3.py:95-97 | An unlabelled chunk before any chapter is dropped, and the merge invariant holds one chunk further. |
| Chapters.MergeKeepsTotal | paper-to-mp3.py:89-97 | When the first chunk is labelled, the chapter times add up to the total duration. |
| Chapters.ElementIdsDistinct | paper-to-mp3.py:32 | `ch{i}` ids of different chapters differ. |
| Chapters.ChapterFrames | paper-to-mp3.py:24-36 | One frame per chapter, over `zip(chaps, times)`. Frame `k` is `Frame(chaps, times, k)`: id `ch{k}`, from 1000 times the earlier chapters' total to 1000 times the total through `k`, titled `chaps[k]`. The table of contents lists the frame ids in order. |
| Chapters.FramesEndToEnd | paper-to-mp3.py:26-31 | The first frame starts at 0, and each frame starts where the previous one ends. Each lasts 1000 times its chapter's duration. The last ends at 1000 times the sum of the times. |
| Chapters.FramesOrdered | paper-to-mp3.py:26-31 | With no negative duration, starts never decrease and no frame ends after a later one begins. |
| Chapters.FrameIdsDistinct | paper-to-mp3.py:32-35 | No two frames share an element id. |
| Pipeline.GenerateAudioForFile | paper-to-mp3.py:42-101 | Fails, with the segmenter's message, exactly when the normalised text cannot be segmented. Otherwise each chunk of the segmentation gets its own temporary path, label and request. Its duration is that of its audio. The chapters are the merge of labels and durations, framed end to end. |
| Pipeline.LabelChunks | paper-to-mp3.py:68-73 | The labels and requests are those of each chunk, in chunk order. |
| Pipeline.MeasureChunks | paper-to-mp3.py:78-80 | The durations are those of each chunk's audio, in chunk order. |

## Behaviour worth knowing

- **First-pass chunks are stripped.** The first pass strips every chunk, so no chunk leaves it starting or ending with whitespace. The later passes append their separator to each piece, so their pieces end in `\n\n`, `.\n`, `. ` or ` `.
- **Leading untitled chunks count for nothing.** Chunks before the first labelled one are dropped from the chapter times. The chapter total is the duration from the first labelled chunk on. So it equals the whole duration exactly when the dropped chunks add up to no time. That holds, for one, when the first chunk is labelled (`MergeKeepsTotal`).
- **Blank title matches.** A title match that strips to nothing sends the empty string to the synthesizer, with the body voice.
- **Splicing while enumerating.** A separator pass rewrites the list while `enumerate` walks it. Pieces after the first are visited again in the same pass; the first piece is not.
- **All-blank pieces.** When every piece of an oversize chunk is blank, the chunk vanishes, and the chunk that moves into its place is skipped by that pass.

## Left out

- **Speech service.** The Text-to-Speech client, `synthesize_speech` and writing its audio (lines 105-138) are not modelled. The model builds the request; the service and the duration measured on its output are one function parameter, `speak`, of `Pipeline.GenerateAudioForFile`.
- **ID3 tag library.** Loading, `time_secs`, `Tag.parse`, `chapters.set`, `setTextFrame`, `table_of_contents.set`, `save` and the TLEN frame (lines 18-22, 33-39, 80) are not modelled. The frames and child ids are returned as values instead of being written to a tag.
- **TLEN truncation.** The `int()` truncation of the TLEN value is not modelled.
- **File I/O.** Reading the input, truncating and appending the output, and removing the temporary files (lines 43-44, 75-87) are not modelled.
- **Command line and printing.** `__main__`, the argument check and the `print` calls are not modelled.
- **Floating point.** Durations are exact reals in seconds, and speaking rates are constants. Rounding in `t * 1000` and in the running sums is not modelled.
- **Regular-expression engine.** Both patterns are written out as character-level functions with soundness and completeness lemmas. No general regex engine is modelled.
- Separators.SegmentedKeepsContent: compares texts with whitespace and periods erased, because the passes append `.\n` and `. ` to pieces. A period lost or gained is not visible to this lemma; `PassInPlace` states each chunk's replacement exactly.
- **Speaking-rate payload.** The speaking rate is carried in the request's voice rather than in a separate audio-config field.
