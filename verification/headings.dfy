/**
 * The first segmentation pass: a newline is put in front of the document,
 * the document is cut around heading lines with `re.split` (a capturing
 * group, so every heading line is kept as a piece of its own), and the
 * pieces are stripped, blank ones dropped.
 *
 * The heading pattern `(?<=[\r\n])[\t ]*#+[ \t\f\v\S]*[\r\n]` is written
 * out by hand: after a carriage return or newline, any spaces and tabs, a
 * `#`, then the longest run of characters that are not whitespace or are
 * space, tab, form feed or vertical tab, which must stop at a carriage
 * return or newline; that line break belongs to the match.
 */
module Headings {
  import opened Wrappers
  import opened PyStr

  predicate IsLineBreak(c: char) {
    c == '\r' || c == '\n'
  }

  /** `[\t ]` */
  predicate IsBlank(c: char) {
    c == ' ' || c == '\t'
  }

  /** `[ \t\f\v\S]`: a character that may appear inside a heading line. */
  predicate IsLineChar(c: char) {
    c == ' ' || c == '\t' || c == '\U{C}' || c == '\U{B}' || !IsSpace(c)
  }

  /** A complete heading-line match: blanks, a `#`, line characters, one
      line break at the end. */
  ghost predicate IsHeadingLine(h: string) {
    && |h| >= 2
    && IsLineBreak(h[|h| - 1])
    && (forall k :: 0 <= k < |h| - 1 ==> IsLineChar(h[k]))
    && exists q :: 0 <= q < |h| - 1 && h[q] == '#' && forall k :: 0 <= k < q ==> IsBlank(h[k])
  }

  /** The end of the longest run of blanks starting at `i`. */
  function BlankRunEnd(s: string, i: nat): (j: nat)
    requires i <= |s|
    decreases |s| - i
    ensures i <= j <= |s|
    ensures forall k :: i <= k < j ==> IsBlank(s[k])
    ensures j < |s| ==> !IsBlank(s[j])
  {
    if i < |s| && IsBlank(s[i]) then BlankRunEnd(s, i + 1) else i
  }

  /** The end of the longest run of line characters starting at `i`. */
  function LineRunEnd(s: string, i: nat): (j: nat)
    requires i <= |s|
    decreases |s| - i
    ensures i <= j <= |s|
    ensures forall k :: i <= k < j ==> IsLineChar(s[k])
    ensures j < |s| ==> !IsLineChar(s[j])
  {
    if i < |s| && IsLineChar(s[i]) then LineRunEnd(s, i + 1) else i
  }

  /** Where a heading-line match starting at `p` ends, if the pattern matches
      there. A match is exactly a heading line that follows a line break. */
  function HeadingAt(s: string, p: nat): (r: Option<nat>)
    ensures r.Some? ==> 0 < p < r.value <= |s| && IsLineBreak(s[p - 1]) && IsHeadingLine(s[p..r.value])
  {
    if 0 < p <= |s| && IsLineBreak(s[p - 1]) then
      var q := BlankRunEnd(s, p);
      if q < |s| && s[q] == '#' then
        var e := LineRunEnd(s, q);
        if e < |s| && IsLineBreak(s[e]) then
          assert IsHeadingLine(s[p..e + 1]) by {
            var h := s[p..e + 1];
            assert h[q - p] == '#';
            assert forall k :: 0 <= k < q - p ==> IsBlank(h[k]);
            assert forall k :: 0 <= k < |h| - 1 ==> h[k] == s[p + k];
          }
          Some(e + 1)
        else None
      else None
    else None
  }

  /** The pattern matches at `p` exactly when a heading line starts at `p`
      right after a line break; the match is that whole line. */
  lemma HeadingAtComplete(s: string, p: nat, e: nat)
    requires 0 < p < e <= |s| && IsLineBreak(s[p - 1]) && IsHeadingLine(s[p..e])
    ensures HeadingAt(s, p) == Some(e)
  {
    var h := s[p..e];
    var q :| 0 <= q < |h| - 1 && h[q] == '#' && forall k :: 0 <= k < q ==> IsBlank(h[k]);
    forall k | p <= k < p + q
      ensures IsBlank(s[k])
    {
      assert s[k] == h[k - p];
    }
    forall k | p + q <= k < e - 1
      ensures IsLineChar(s[k])
    {
      assert s[k] == h[k - p];
    }
    assert s[p + q] == h[q];
    assert s[e - 1] == h[|h| - 1];
    BlankRunEndAt(s, p, p + q);
    LineRunEndAt(s, p + q, e - 1);
    HeadingAtRuns(s, p, p + q, e);
  }

  /** The matcher's own steps: blanks up to a `#`, line characters up to a
      line break. */
  lemma HeadingAtRuns(s: string, p: nat, q: nat, e: nat)
    requires 0 < p <= q < e <= |s| && IsLineBreak(s[p - 1])
    requires BlankRunEnd(s, p) == q && s[q] == '#'
    requires LineRunEnd(s, q) == e - 1 && IsLineBreak(s[e - 1])
    ensures HeadingAt(s, p) == Some(e)
  {
  }

  /** A run of blanks from `i` that stops at `j` is the longest one. */
  lemma BlankRunEndAt(s: string, i: nat, j: nat)
    requires i <= j < |s|
    requires forall k :: i <= k < j ==> IsBlank(s[k])
    requires !IsBlank(s[j])
    ensures BlankRunEnd(s, i) == j
  {
  }

  /** A run of line characters from `i` that stops at `j` is the longest one. */
  lemma LineRunEndAt(s: string, i: nat, j: nat)
    requires i <= j < |s|
    requires forall k :: i <= k < j ==> IsLineChar(s[k])
    requires !IsLineChar(s[j])
    ensures LineRunEnd(s, i) == j
  {
  }

  /** The pieces at odd positions are heading lines: with one capturing
      group, `re.split` puts each match between the text before and after it. */
  ghost predicate HeadingsAtOdd(r: seq<string>)
    decreases |r|
  {
    |r| >= 2 ==> IsHeadingLine(r[1]) && HeadingsAtOdd(r[2..])
  }

  lemma {:induction false} HeadingsAtOddIndex(r: seq<string>)
    requires HeadingsAtOdd(r)
    ensures forall k :: 0 <= k < |r| && k % 2 == 1 ==> IsHeadingLine(r[k])
    decreases |r|
  {
    if |r| >= 2 {
      HeadingsAtOddIndex(r[2..]);
      forall k | 0 <= k < |r| && k % 2 == 1
        ensures IsHeadingLine(r[k])
      {
        if k > 1 {
          assert r[k] == r[2..][k - 2];
        }
      }
    }
  }

  /** `re.split` with the heading pattern, scanning from `pos`; `last` is
      where the current unmatched stretch began. The pieces alternate between
      text and heading lines and together spell out `s[last..]`. */
  function SplitFrom(s: string, last: nat, pos: nat): (r: seq<string>)
    requires last <= pos <= |s|
    decreases |s| - pos
    ensures |r| % 2 == 1
    ensures Concat(r) == s[last..]
    ensures HeadingsAtOdd(r)
  {
    if pos == |s| then
      [s[last..]]
    else
      match HeadingAt(s, pos)
      case Some(e) =>
        var rest := SplitFrom(s, e, e);
        SplitAroundMatch(s, last, pos, e, rest);
        assert ([s[last..pos], s[pos..e]] + rest)[2..] == rest;
        [s[last..pos], s[pos..e]] + rest
      case None =>
        SplitFrom(s, last, pos + 1)
  }

  /** Putting the text before a match and the match in front of what
      follows it spells out everything from `last` on. */
  lemma SplitAroundMatch(s: string, last: nat, pos: nat, e: nat, rest: seq<string>)
    requires last <= pos < e <= |s|
    requires Concat(rest) == s[e..]
    ensures Concat([s[last..pos], s[pos..e]] + rest) == s[last..]
  {
    var front := [s[last..pos], s[pos..e]];
    ConcatAppend(front, rest);
    assert front[1..] == [s[pos..e]] && front[1..][1..] == [];
    assert Concat(front) == s[last..pos] + (s[pos..e] + []);
    assert s[last..] == s[last..pos] + s[pos..e] + s[e..];
  }

  /** `re.split(heading_pattern, s)` */
  function SplitHeadings(s: string): (r: seq<string>)
    ensures |r| % 2 == 1
    ensures Concat(r) == s
    ensures forall k :: 0 <= k < |r| && k % 2 == 1 ==> IsHeadingLine(r[k])
  {
    var r := SplitFrom(s, 0, 0);
    HeadingsAtOddIndex(r);
    r
  }

  /** A pattern searched for by `re.split`: where its match starting at
      index `p` of `s` ends, if it matches there. */
  type Matcher = (string, nat) -> Option<nat>

  /** No match starts in `[a, b)`. */
  ghost predicate NoMatchIn(f: Matcher, s: string, a: nat, b: nat) {
    forall p: nat :: a <= p < b ==> f(s, p).None?
  }

  /** Matches are non-empty and lie inside `s`. */
  ghost predicate MatchesInside(f: Matcher, s: string) {
    forall p: nat :: f(s, p).Some? ==> p < f(s, p).value <= |s|
  }

  /** No match starts strictly inside another. */
  ghost predicate NotNested(f: Matcher, s: string) {
    forall p: nat, q: nat :: f(s, p).Some? && p < q < f(s, p).value ==> f(s, q).None?
  }

  /** What `re.split` with one capturing group does from index `a`,
      scanning left to right: `r` is the text up to the leftmost match, that
      match, and the split of what follows it; with no match left, `r` is the
      rest of the text. */
  ghost predicate SplitsAt(f: Matcher, s: string, r: seq<string>, a: nat)
    decreases |r|
  {
    && a <= |s|
    && r != []
    && (|r| == 1 ==> r[0] == s[a..] && NoMatchIn(f, s, a, |s|))
    && (|r| > 1 ==>
          var m := a + |r[0]|;
          var e := m + |r[1]|;
          && e <= |s|
          && r[0] == s[a..m]
          && r[1] == s[m..e]
          && NoMatchIn(f, s, a, m)
          && f(s, m) == Some(e)
          && SplitsAt(f, s, r[2..], e))
  }

  /** The scan computes exactly that split, given that no match starts
      between `last` and `pos`. */
  lemma {:induction false} SplitFromExact(s: string, last: nat, pos: nat)
    requires last <= pos <= |s|
    requires NoMatchIn(HeadingAt, s, last, pos)
    ensures SplitsAt(HeadingAt, s, SplitFrom(s, last, pos), last)
    decreases |s| - pos, 1
  {
    if pos < |s| {
      if HeadingAt(s, pos).Some? {
        SplitFromMatch(s, last, pos);
      } else {
        SplitFromSkip(s, last, pos);
      }
    }
  }

  /** The step of `SplitFromExact` at a match. */
  lemma {:induction false} SplitFromMatch(s: string, last: nat, pos: nat)
    requires last <= pos < |s| && HeadingAt(s, pos).Some?
    requires NoMatchIn(HeadingAt, s, last, pos)
    ensures SplitsAt(HeadingAt, s, SplitFrom(s, last, pos), last)
    decreases |s| - pos, 0
  {
    var e := HeadingAt(s, pos).value;
    SplitFromExact(s, e, e);
    SplitsAtCons(HeadingAt, s, last, pos, e, SplitFrom(s, e, e));
  }

  /** The step of `SplitFromExact` where nothing matches. */
  lemma {:induction false} SplitFromSkip(s: string, last: nat, pos: nat)
    requires last <= pos < |s| && HeadingAt(s, pos).None?
    requires NoMatchIn(HeadingAt, s, last, pos)
    ensures SplitsAt(HeadingAt, s, SplitFrom(s, last, pos), last)
    decreases |s| - pos, 0
  {
    NoMatchExtend(HeadingAt, s, last, pos);
    SplitFromExact(s, last, pos + 1);
  }

  lemma NoMatchExtend(f: Matcher, s: string, a: nat, b: nat)
    requires NoMatchIn(f, s, a, b) && f(s, b).None?
    ensures NoMatchIn(f, s, a, b + 1)
  {
  }

  /** The text before a leftmost match, the match, and a split of what
      follows form a split. */
  lemma SplitsAtCons(f: Matcher, s: string, last: nat, pos: nat, e: nat, rest: seq<string>)
    requires last <= pos && NoMatchIn(f, s, last, pos) && f(s, pos) == Some(e)
    requires pos <= e && SplitsAt(f, s, rest, e)
    ensures SplitsAt(f, s, [s[last..pos], s[pos..e]] + rest, last)
  {
    var r := [s[last..pos], s[pos..e]] + rest;
    assert r[2..] == rest;
  }

  /** `re.split(heading_pattern, s)` is the left-to-right split of `s`. */
  lemma SplitHeadingsExact(s: string)
    ensures SplitsAt(HeadingAt, s, SplitHeadings(s), 0)
  {
    SplitFromExact(s, 0, 0);
  }

  /** There is only one such split, so `SplitsAt` defines it. */
  lemma {:induction false} SplitsAtUnique(f: Matcher, s: string, r: seq<string>, r': seq<string>, a: nat)
    requires MatchesInside(f, s)
    requires SplitsAt(f, s, r, a) && SplitsAt(f, s, r', a)
    ensures r == r'
    decreases |r|
  {
    if |r| > 1 && |r'| > 1 {
      assert |r[0]| == |r'[0]|;
      SplitsAtUnique(f, s, r[2..], r'[2..], a + |r[0]| + |r[1]|);
      assert r == [r[0], r[1]] + r[2..];
      assert r' == [r'[0], r'[1]] + r'[2..];
    }
  }

  /** Index `k` of `r[2..]` is index `k + 2` of `r`, after the first two. */
  lemma ShiftTwo(r: seq<string>, k: nat)
    requires 2 + k < |r|
    ensures SumLen(r[..k + 2]) == |r[0]| + |r[1]| + SumLen(r[2..][..k])
    ensures r[k + 2] == r[2..][k]
  {
    assert r[..k + 2] == [r[0], r[1]] + r[2..][..k];
    SumLenConcat([r[0], r[1]], r[2..][..k]);
    assert [r[0], r[1]][1..] == [r[1]] && [r[1]][1..] == [];
  }

  /** Heading-line matches end after they start and never start inside one
      another: the only line break of a match is its last character. */
  lemma HeadingMatchesBehave(s: string)
    ensures MatchesInside(HeadingAt, s) && NotNested(HeadingAt, s)
  {
    forall p: nat, q: nat | HeadingAt(s, p).Some? && p < q < HeadingAt(s, p).value
      ensures HeadingAt(s, q).None?
    {
      var e := HeadingAt(s, p).value;
      assert s[q - 1] == s[p..e][q - 1 - p];
    }
  }

  /** Every match is split out as a piece of its own, at an odd position,
      starting where the pieces before it end. */
  lemma {:induction false} SplitsAtMatch(f: Matcher, s: string, r: seq<string>, a: nat, p: nat)
    requires MatchesInside(f, s) && NotNested(f, s)
    requires SplitsAt(f, s, r, a) && a <= p && f(s, p).Some?
    ensures exists k :: 0 < k < |r| && k % 2 == 1 && a + SumLen(r[..k]) == p && r[k] == s[p..f(s, p).value]
    decreases |r|
  {
    if |r| > 1 {
      var m := a + |r[0]|;
      var e := m + |r[1]|;
      if p == m {
        assert r[..1] == [r[0]] && r[..1][1..] == [];
        assert SumLen(r[..1]) == |r[0]|;
      } else if e <= p {
        SplitsAtMatch(f, s, r[2..], e, p);
        var k' :| 0 < k' < |r[2..]| && k' % 2 == 1 && e + SumLen(r[2..][..k']) == p && r[2..][k'] == s[p..f(s, p).value];
        ShiftTwo(r, k');
        assert (k' + 2) % 2 == 1;
      }
    }
  }

  /** The lists `f` gives for the elements of `s`, one after the other. */
  function FlatMap<T, U>(f: T -> seq<U>, s: seq<T>): seq<U> {
    if s == [] then [] else f(s[0]) + FlatMap(f, s[1..])
  }

  lemma {:induction false} FlatMapAppend<T, U>(f: T -> seq<U>, a: seq<T>, b: seq<T>)
    ensures FlatMap(f, a + b) == FlatMap(f, a) + FlatMap(f, b)
  {
    if a == [] {
      assert a + b == b;
    } else {
      assert (a + b)[0] == a[0] && (a + b)[1..] == a[1..] + b;
      FlatMapAppend(f, a[1..], b);
    }
  }

  lemma FlatMapOne<T, U>(f: T -> seq<U>, x: T)
    ensures FlatMap(f, [x]) == f(x)
  {
    assert [x][1..] == [];
  }

  /** `[b.strip() for b in pieces if not b.isspace() and b]`: each piece
      gives `KeepStripped` of itself, in place (`StripPiecesAppend`,
      `StripPiecesAt`). */
  function StripPieces(pieces: seq<string>): seq<string> {
    FlatMap(KeepStripped, pieces)
  }

  /** Every chunk is non-blank and stripped, there are no more chunks than
      pieces, and erasing whitespace, the chunks spell out what the pieces
      spelled out, in the same order. */
  lemma StripPiecesChunks(pieces: seq<string>)
    ensures |StripPieces(pieces)| <= |pieces|
    ensures forall k :: 0 <= k < |StripPieces(pieces)| ==>
      var c := StripPieces(pieces)[k]; c != [] && NonBlank(c) && IsStripped(c)
    ensures NonSpace(Concat(StripPieces(pieces))) == NonSpace(Concat(pieces))
  {
    StripPiecesCount(pieces);
    StripPiecesShape(pieces);
    StripPiecesNonSpace(pieces);
  }

  lemma {:induction false} StripPiecesCount(pieces: seq<string>)
    ensures |StripPieces(pieces)| <= |pieces|
  {
    if pieces != [] {
      StripPiecesCount(pieces[1..]);
      assert StripPieces(pieces) == KeepStripped(pieces[0]) + StripPieces(pieces[1..]);
    }
  }

  lemma StripPiecesShape(pieces: seq<string>)
    ensures forall k :: 0 <= k < |StripPieces(pieces)| ==>
      var c := StripPieces(pieces)[k]; c != [] && NonBlank(c) && IsStripped(c)
  {
    var chunk := c => c != [] && NonBlank(c) && IsStripped(c);
    forall b, k | 0 <= k < |KeepStripped(b)|
      ensures chunk(KeepStripped(b)[k])
    {
    }
    FlatMapAll(KeepStripped, pieces, chunk);
  }

  /** When everything `f` gives satisfies `P`, so does everything in the
      flat map. */
  lemma {:induction false} FlatMapAll<T, U>(f: T -> seq<U>, s: seq<T>, P: U -> bool)
    requires forall x, k :: 0 <= k < |f(x)| ==> P(f(x)[k])
    ensures forall k :: 0 <= k < |FlatMap(f, s)| ==> P(FlatMap(f, s)[k])
  {
    if s != [] {
      FlatMapAll(f, s[1..], P);
      var head, tail := f(s[0]), FlatMap(f, s[1..]);
      assert FlatMap(f, s) == head + tail;
      forall k | 0 <= k < |head + tail|
        ensures P((head + tail)[k])
      {
        if k >= |head| {
          assert (head + tail)[k] == tail[k - |head|];
        }
      }
    }
  }

  lemma {:induction false} StripPiecesNonSpace(pieces: seq<string>)
    ensures NonSpace(Concat(StripPieces(pieces))) == NonSpace(Concat(pieces))
  {
    if pieces != [] {
      var head := KeepStripped(pieces[0]);
      var tail := StripPieces(pieces[1..]);
      StripPiecesNonSpace(pieces[1..]);
      ConcatAppend(head, tail);
      NonSpaceConcat(Concat(head), Concat(tail));
      NonSpaceConcat(pieces[0], Concat(pieces[1..]));
      assert StripPieces(pieces) == head + tail;
    }
  }

  /** The comprehension works piece by piece: each piece gives its own
      chunks, in place. */
  lemma StripPiecesAppend(a: seq<string>, b: seq<string>)
    ensures StripPieces(a + b) == StripPieces(a) + StripPieces(b)
  {
    FlatMapAppend(KeepStripped, a, b);
  }

  /** A non-blank piece gives exactly one chunk, its stripped self, between
      the chunks of the pieces before it and those of the pieces after it. */
  lemma StripPiecesAt(r: seq<string>, k: nat)
    requires k < |r| && NonBlank(r[k])
    ensures StripPieces(r) == StripPieces(r[..k]) + [Strip(r[k])] + StripPieces(r[k + 1..])
  {
    assert r == r[..k] + [r[k]] + r[k + 1..];
    StripPiecesAppend(r[..k] + [r[k]], r[k + 1..]);
    StripPiecesAppend(r[..k], [r[k]]);
    FlatMapOne(KeepStripped, r[k]);
  }

  /** One piece of the comprehension: `[b.strip()]` when `b` is not blank,
      nothing otherwise. */
  function KeepStripped(b: string): (r: seq<string>)
    ensures NonBlank(b) ==> r == [Strip(b)]
    ensures !NonBlank(b) ==> r == []
    ensures forall k :: 0 <= k < |r| ==> r[k] != [] && NonBlank(r[k]) && IsStripped(r[k])
    ensures NonSpace(Concat(r)) == NonSpace(b)
  {
    if NonBlank(b) then
      StripBlank(b);
      ConcatOne(Strip(b));
      [Strip(b)]
    else
      NonSpaceEmpty(b);
      []
  }

  /** Lines 47-50: prepend a newline, split around heading lines, strip and
      drop blank pieces. */
  function FirstPass(text: string): (chunks: seq<string>)
    ensures forall k :: 0 <= k < |chunks| ==> chunks[k] != [] && NonBlank(chunks[k]) && IsStripped(chunks[k])
    ensures NonSpace(Concat(chunks)) == NonSpace(text)
  {
    var pieces := SplitHeadings("\n" + text);
    NonSpaceConcat("\n", text);
    StripPiecesChunks(pieces);
    StripPieces(pieces)
  }

  /** Every heading line of the document (after the newline put in front)
      comes out of the first pass, stripped, as a chunk of its own. */
  lemma FirstPassKeepsHeading(text: string, p: nat)
    requires HeadingAt("\n" + text, p).Some?
    ensures exists k :: 0 <= k < |FirstPass(text)| && FirstPass(text)[k] == Strip(("\n" + text)[p..HeadingAt("\n" + text, p).value])
  {
    var s := "\n" + text;
    var r := SplitHeadings(s);
    SplitHeadingsExact(s);
    HeadingMatchesBehave(s);
    SplitsAtMatch(HeadingAt, s, r, 0, p);
    var k :| 0 < k < |r| && k % 2 == 1 && SumLen(r[..k]) == p && r[k] == s[p..HeadingAt(s, p).value];
    var h := r[k];
    HeadingLineNonBlank(h);
    StripPiecesAt(r, k);
    assert FirstPass(text) == StripPieces(r);
    var before := StripPieces(r[..k]);
    assert FirstPass(text)[|before|] == Strip(h);
  }

  /** A heading line holds a `#`, so it is not blank. */
  lemma HeadingLineNonBlank(h: string)
    requires IsHeadingLine(h)
    ensures NonBlank(h)
  {
    var q :| 0 <= q < |h| - 1 && h[q] == '#' && forall j :: 0 <= j < q ==> IsBlank(h[j]);
    assert !IsSpace(h[q]);
  }
}
