/**
 * The title labeller. Each chunk is searched, without MULTILINE, for
 * `(?<=#)[^#\n]+(?=#*.*)$`. The lookahead can always match the empty
 * string, so a match is a non-empty run of characters other than `#` and
 * newline, right after a `#`, that ends where `$` can match: at the end of
 * the chunk or just before a single final newline. The label is the match,
 * stripped, or the empty string when there is no match.
 */
module Titles {
  import opened Wrappers
  import opened PyStr

  /** `[^#\n]` */
  predicate IsTitleChar(c: char) {
    c != '#' && c != '\n'
  }

  /** The pattern matches `s[p..q]`. */
  ghost predicate MatchesAt(s: string, p: int, q: int) {
    && 0 < p < q <= |s|
    && s[p - 1] == '#'
    && (forall k :: p <= k < q ==> IsTitleChar(s[k]))
    && (q == |s| || (q == |s| - 1 && s[q] == '\n'))
  }

  /** The one place a match can end: where `$` matches last. */
  function TailEnd(s: string): (e: nat)
    ensures e <= |s|
  {
    if |s| > 0 && s[|s| - 1] == '\n' then |s| - 1 else |s|
  }

  /** The start of the longest run of title characters ending at `e`. */
  function RunStart(s: string, e: nat): (p: nat)
    requires e <= |s|
    ensures p <= e
    ensures forall k :: p <= k < e ==> IsTitleChar(s[k])
    ensures p > 0 ==> !IsTitleChar(s[p - 1])
  {
    if e > 0 && IsTitleChar(s[e - 1]) then RunStart(s, e - 1) else e
  }

  /** `re.search(title_pattern, s)`, as the matched text. */
  function TitleMatch(s: string): Option<string> {
    var e := TailEnd(s);
    var p := RunStart(s, e);
    if 0 < p < e && s[p - 1] == '#' then Some(s[p..e]) else None
  }

  /** What the search returns is a match of the pattern. */
  lemma TitleMatchSound(s: string)
    ensures TitleMatch(s).Some? ==> exists p, q :: MatchesAt(s, p, q) && TitleMatch(s).value == s[p..q]
  {
    var e := TailEnd(s);
    var p := RunStart(s, e);
    if 0 < p < e && s[p - 1] == '#' {
      assert MatchesAt(s, p, e);
    }
  }

  /** The search finds every match there is: the pattern matches at most
      one stretch of a chunk, and that is the one returned. */
  lemma TitleMatchComplete(s: string, p: int, q: int)
    requires MatchesAt(s, p, q)
    ensures TitleMatch(s) == Some(s[p..q])
  {
    assert IsTitleChar(s[q - 1]);
    assert TailEnd(s) == q;
    assert !IsTitleChar(s[p - 1]);
    assert RunStart(s, q) == p;
  }

  /** Line 70: the stripped match, or `''` without one. */
  function Label(chunk: string): string {
    match TitleMatch(chunk)
    case None => ""
    case Some(g) => Strip(g)
  }

  /** The label never holds a `#` or a newline, has no whitespace at either
      end and is never longer than the chunk. */
  lemma LabelShape(chunk: string)
    ensures forall c :: c in Label(chunk) ==> c != '#' && c != '\n'
    ensures IsStripped(Label(chunk))
    ensures |Label(chunk)| <= |chunk|
  {
    MatchIsTitleText(chunk);
    match TitleMatch(chunk)
    case None =>
    case Some(g) => StripMembers(g);
  }

  /** The matched text is title characters only, taken from the chunk. */
  lemma MatchIsTitleText(s: string)
    ensures TitleMatch(s).Some? ==> |TitleMatch(s).value| <= |s|
    ensures TitleMatch(s).Some? ==> forall c :: c in TitleMatch(s).value ==> IsTitleChar(c)
  {
    if TitleMatch(s).Some? {
      TitleMatchSound(s);
      var p, q :| MatchesAt(s, p, q) && TitleMatch(s).value == s[p..q];
      forall c | c in s[p..q]
        ensures IsTitleChar(c)
      {
        var k :| 0 <= k < q - p && s[p..q][k] == c;
        assert s[p + k] == c;
      }
    }
  }

  /** A chunk is labelled exactly when it has a `#` followed by text that is
      not blank, holds no `#` or newline, and runs to the end of the chunk
      or to a single final newline. */
  lemma LabelledIff(chunk: string)
    ensures Label(chunk) != [] <==> exists p, q :: MatchesAt(chunk, p, q) && NonBlank(chunk[p..q])
  {
    if Label(chunk) != [] {
      TitleMatchSound(chunk);
      var g := TitleMatch(chunk).value;
      var p, q :| MatchesAt(chunk, p, q) && g == chunk[p..q];
      StripBlank(g);
      assert NonBlank(chunk[p..q]);
    }
    if exists p, q :: MatchesAt(chunk, p, q) && NonBlank(chunk[p..q]) {
      var p, q :| MatchesAt(chunk, p, q) && NonBlank(chunk[p..q]);
      TitleMatchComplete(chunk, p, q);
      StripBlank(chunk[p..q]);
    }
  }

  /** A chunk that ends in a blank line never gets a label: `$` can then
      only match before the final newline, and the character there is a
      newline too. This is the case for every piece cut at a double newline. */
  lemma NoLabelAfterBlankLine(chunk: string)
    requires |chunk| >= 2 && chunk[|chunk| - 2..] == "\n\n"
    ensures TitleMatch(chunk) == None && Label(chunk) == ""
  {
    assert chunk[|chunk| - 1] == '\n' && chunk[|chunk| - 2] == '\n';
    assert TailEnd(chunk) == |chunk| - 1;
    assert RunStart(chunk, |chunk| - 1) == |chunk| - 1;
  }

  /** Closing hashes defeat the pattern: when a chunk ends in `#` (or in `#`
      and one newline) it gets no label, as with `## Title ##`. */
  lemma NoLabelAfterClosingHash(chunk: string)
    requires |chunk| >= 1
    requires chunk[|chunk| - 1] == '#' || (|chunk| >= 2 && chunk[|chunk| - 2..] == "#\n")
    ensures TitleMatch(chunk) == None && Label(chunk) == ""
  {
    if chunk[|chunk| - 1] == '#' {
      assert TailEnd(chunk) == |chunk|;
      assert RunStart(chunk, |chunk|) == |chunk|;
    } else {
      assert chunk[|chunk| - 2] == '#' && chunk[|chunk| - 1] == '\n';
      assert TailEnd(chunk) == |chunk| - 1;
      assert RunStart(chunk, |chunk| - 1) == |chunk| - 1;
    }
  }

  /** A heading chunk is labelled with its text, without the marker. */
  lemma HeadingLabelExample()
    ensures Label("#Intro") == "Intro"
  {
    var h := "#Intro";
    assert h[1..6] == "Intro";
    assert MatchesAt(h, 1, 6);
    TitleMatchComplete(h, 1, 6);
    StripStripped("Intro");
  }

  /** A body line ending in `#5` is taken for a title. */
  lemma BodyLabelExample()
    ensures Label("see issue #5") == "5"
  {
    var b := "see issue #5";
    assert b[11..12] == "5";
    assert MatchesAt(b, 11, 12);
    TitleMatchComplete(b, 11, 12);
    StripStripped("5");
  }
}
