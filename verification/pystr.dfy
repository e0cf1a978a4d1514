/**
 * The parts of Python's `str` that the pipeline relies on: the whitespace
 * test behind `isspace`, `strip` and the regex class `\s`; `split` with an
 * explicit separator; `sep.join`; and `str(n)` for a non-negative integer.
 */
module PyStr {
  import opened Wrappers

  /** `c.isspace()`: the characters Python treats as whitespace (tab to
      carriage return, the four separators 0x1C-0x1F, space, NEL, no-break
      space and the Unicode space separators). The regex class `\s` on a
      `str` pattern is the same set. */
  predicate IsSpace(c: char) {
    || ('\U{9}' <= c <= '\U{D}')
    || ('\U{1C}' <= c <= ' ')
    || c == '\U{85}' || c == '\U{A0}' || c == '\U{1680}'
    || ('\U{2000}' <= c <= '\U{200A}')
    || c == '\U{2028}' || c == '\U{2029}' || c == '\U{202F}'
    || c == '\U{205F}' || c == '\U{3000}'
  }

  /** `s and not s.isspace()`: `s` has at least one non-whitespace character. */
  predicate NonBlank(s: string) {
    exists k :: 0 <= k < |s| && !IsSpace(s[k])
  }

  /** No whitespace at either end: what `strip` leaves. */
  predicate IsStripped(s: string) {
    s == [] || (!IsSpace(s[0]) && !IsSpace(s[|s| - 1]))
  }

  /** The characters of `s` with all whitespace erased, in order. */
  function NonSpace(s: string): string {
    if s == [] then []
    else (if IsSpace(s[0]) then [] else [s[0]]) + NonSpace(s[1..])
  }

  lemma {:induction false} NonSpaceConcat(a: string, b: string)
    ensures NonSpace(a + b) == NonSpace(a) + NonSpace(b)
  {
    if a == [] {
      assert a + b == b;
    } else {
      assert (a + b)[1..] == a[1..] + b;
      NonSpaceConcat(a[1..], b);
    }
  }

  lemma {:induction false} NonSpaceEmpty(s: string)
    ensures NonSpace(s) == [] <==> !NonBlank(s)
  {
    if s != [] {
      NonSpaceEmpty(s[1..]);
      if !IsSpace(s[0]) {
        assert NonBlank(s);
      } else if NonBlank(s[1..]) {
        var k :| 0 <= k < |s[1..]| && !IsSpace(s[1..][k]);
        assert !IsSpace(s[k + 1]);
      } else {
        forall k | 0 <= k < |s| ensures IsSpace(s[k]) {
          if k > 0 { assert s[k] == s[1..][k - 1]; }
        }
      }
    }
  }

  /** The end of the run of whitespace that starts at `i`. */
  function SpaceRunFrom(s: string, i: nat): (j: nat)
    requires i <= |s|
    decreases |s| - i
    ensures i <= j <= |s|
    ensures forall k :: i <= k < j ==> IsSpace(s[k])
    ensures j < |s| ==> !IsSpace(s[j])
  {
    if i < |s| && IsSpace(s[i]) then SpaceRunFrom(s, i + 1) else i
  }

  /** The start of the run of whitespace that ends at `j`. */
  function SpaceRunBefore(s: string, j: nat): (i: nat)
    requires j <= |s|
    ensures i <= j
    ensures forall k :: i <= k < j ==> IsSpace(s[k])
    ensures i > 0 ==> !IsSpace(s[i - 1])
  {
    if j > 0 && IsSpace(s[j - 1]) then SpaceRunBefore(s, j - 1) else j
  }

  /** Erasing whitespace from a whitespace-only prefix or suffix changes
      nothing. */
  lemma NonSpaceAround(s: string, i: nat)
    requires i <= |s|
    ensures (forall k :: 0 <= k < i ==> IsSpace(s[k])) ==> NonSpace(s[i..]) == NonSpace(s)
    ensures (forall k :: i <= k < |s| ==> IsSpace(s[k])) ==> NonSpace(s[..i]) == NonSpace(s)
  {
    assert s == s[..i] + s[i..];
    NonSpaceConcat(s[..i], s[i..]);
    NonSpaceEmpty(s[..i]);
    NonSpaceEmpty(s[i..]);
  }

  /** `s.lstrip()` */
  function TrimStart(s: string): (r: string)
    ensures |r| <= |s| && r == s[|s| - |r|..]
    ensures r != [] ==> !IsSpace(r[0])
    ensures NonSpace(r) == NonSpace(s)
  {
    var n := SpaceRunFrom(s, 0);
    NonSpaceAround(s, n);
    s[n..]
  }

  /** `s.rstrip()` */
  function TrimEnd(s: string): (r: string)
    ensures |r| <= |s| && r == s[..|r|]
    ensures r != [] ==> !IsSpace(r[|r| - 1])
    ensures NonSpace(r) == NonSpace(s)
  {
    var n := SpaceRunBefore(s, |s|);
    NonSpaceAround(s, n);
    s[..n]
  }

  /** `s.strip()`: the result has no whitespace at either end and erases to
      the same non-whitespace text; `StripAround` and `StripUnique` show it
      is the stretch of `s` between leading and trailing whitespace. */
  function Strip(s: string): (r: string)
    ensures IsStripped(r)
    ensures NonSpace(r) == NonSpace(s)
    ensures |r| <= |s|
  {
    TrimEnd(TrimStart(s))
  }

  /** `s` is whitespace, then `r` from index `i`, then whitespace. */
  ghost predicate Around(s: string, r: string, i: nat) {
    && i + |r| <= |s|
    && s[i..i + |r|] == r
    && (forall k :: 0 <= k < i ==> IsSpace(s[k]))
    && (forall k :: i + |r| <= k < |s| ==> IsSpace(s[k]))
  }

  /** The stripped string is a stretch of `s` with only whitespace around it. */
  lemma StripAround(s: string)
    ensures Around(s, Strip(s), |s| - |TrimStart(s)|)
  {
    var n := SpaceRunFrom(s, 0);
    var t := s[n..];
    var m := SpaceRunBefore(t, |t|);
    TrimAround(s, t, t[..m], n);
  }

  lemma TrimAround(s: string, t: string, r: string, i: nat)
    requires i <= |s| && t == s[i..] && (forall k :: 0 <= k < i ==> IsSpace(s[k]))
    requires |r| <= |t| && r == t[..|r|] && (forall k :: |r| <= k < |t| ==> IsSpace(t[k]))
    ensures Around(s, r, i)
  {
    assert s[i..i + |r|] == t[..|r|];
    forall k | i + |r| <= k < |s|
      ensures IsSpace(s[k])
    {
      assert s[k] == t[k - i];
    }
  }

  /** Conversely, a stripped stretch of `s` with only whitespace around it is
      `s.strip()`: together with `StripAround` this pins `strip` down. */
  lemma StripUnique(s: string, r: string, i: nat)
    requires IsStripped(r) && Around(s, r, i)
    ensures Strip(s) == r
  {
    var t := Strip(s);
    var j := |s| - |TrimStart(s)|;
    StripAround(s);
    StripBlank(s);
    if r == [] {
      assert !NonBlank(s) by {
        forall k | 0 <= k < |s|
          ensures IsSpace(s[k])
        {
        }
      }
    } else {
      assert s[i] == r[0] && s[i + |r| - 1] == r[|r| - 1];
      assert NonBlank(s);
      assert t != [];
      assert s[j] == t[0] && s[j + |t| - 1] == t[|t| - 1];
      assert i == j;
      assert |r| == |t|;
    }
  }

  /** The stripped string is empty exactly when `s` is blank. */
  lemma StripBlank(s: string)
    ensures Strip(s) != [] <==> NonBlank(s)
    ensures NonBlank(Strip(s)) <==> NonBlank(s)
  {
    var r := Strip(s);
    NonSpaceEmpty(s);
    NonSpaceEmpty(r);
    if r != [] {
      assert !IsSpace(r[0]);
    }
  }

  /** Every character of the stripped string comes from `s`. */
  lemma StripMembers(s: string)
    ensures forall c :: c in Strip(s) ==> c in s
  {
    var r := Strip(s);
    var i := |s| - |TrimStart(s)|;
    StripAround(s);
    forall c | c in r
      ensures c in s
    {
      var k :| 0 <= k < |r| && r[k] == c;
      assert s[i..i + |r|][k] == c;
    }
  }

  /** Stripping leaves a stripped string alone; so stripping twice is
      stripping once. */
  lemma StripStripped(s: string)
    requires IsStripped(s)
    ensures Strip(s) == s
  {
    assert Around(s, s, 0) by {
      assert s[0..|s|] == s;
    }
    StripUnique(s, s, 0);
  }

  /** `sep` occurs in `s` starting at index `k`. */
  predicate OccursAt(s: string, sep: string, k: int) {
    0 <= k && k + |sep| <= |s| && s[k..k + |sep|] == sep
  }

  predicate Contains(s: string, sep: string) {
    exists k :: 0 <= k <= |s| && OccursAt(s, sep, k)
  }

  /** The first occurrence of `sep` in `s` at or after `from`. */
  function FindFrom(s: string, sep: string, from: nat): (r: Option<nat>)
    decreases |s| - from
    ensures r.Some? ==> from <= r.value && OccursAt(s, sep, r.value)
    ensures forall k :: from <= k && (r.None? || k < r.value) ==> !OccursAt(s, sep, k)
  {
    if from + |sep| > |s| then None
    else if s[from..from + |sep|] == sep then Some(from)
    else FindFrom(s, sep, from + 1)
  }

  /** An occurrence with none before it is the one found. */
  lemma FindFirst(s: string, sep: string, j: nat)
    requires OccursAt(s, sep, j)
    requires forall k :: 0 <= k < j ==> !OccursAt(s, sep, k)
    ensures FindFrom(s, sep, 0) == Some(j)
  {
  }

  /** Before the first occurrence there is none. */
  lemma NoneBefore(s: string, sep: string, j: nat, k: nat)
    requires FindFrom(s, sep, 0) == Some(j) && k < j
    ensures !OccursAt(s, sep, k)
  {
  }

  /** `s.split(sep)` for a non-empty separator: the pieces between the
      non-overlapping occurrences of `sep`, scanned left to right. No piece
      contains the separator. */
  function Split(s: string, sep: string): (parts: seq<string>)
    requires sep != []
    decreases |s|
    ensures |parts| >= 1
  {
    match FindFrom(s, sep, 0)
    case None => [s]
    case Some(j) => [s[..j]] + Split(s[j + |sep|..], sep)
  }

  /** No part of a split holds the separator. */
  lemma {:induction false} SplitPartsFree(s: string, sep: string)
    requires sep != []
    decreases |s|
    ensures forall k :: 0 <= k < |Split(s, sep)| ==> !Contains(Split(s, sep)[k], sep)
  {
    match FindFrom(s, sep, 0)
    case None =>
    case Some(j) =>
      var head := s[..j];
      assert !Contains(head, sep) by {
        forall k | 0 <= k <= |head|
          ensures !OccursAt(head, sep, k)
        {
          if k + |sep| <= |head| {
            assert head[k..k + |sep|] == s[k..k + |sep|];
            NoneBefore(s, sep, j, k);
          }
        }
      }
      SplitPartsFree(s[j + |sep|..], sep);
      assert Split(s, sep) == [head] + Split(s[j + |sep|..], sep);
  }

  /** `sep.join(parts)` */
  function Join(parts: seq<string>, sep: string): string {
    if parts == [] then []
    else if |parts| == 1 then parts[0]
    else parts[0] + sep + Join(parts[1..], sep)
  }

  /** Splitting and joining with the same separator gives back the string. */
  lemma {:induction false} JoinSplit(s: string, sep: string)
    requires sep != []
    ensures Join(Split(s, sep), sep) == s
    decreases |s|
  {
    match FindFrom(s, sep, 0)
    case None =>
    case Some(j) =>
      var rest := s[j + |sep|..];
      var parts := Split(rest, sep);
      JoinSplit(rest, sep);
      assert Split(s, sep) == [s[..j]] + parts;
      JoinCons(s[..j], parts, sep);
      CutAround(s, sep, j);
  }

  /** Where the `k`-th part of a split starts in the string: after the
      earlier parts and a separator behind each of them. */
  function PartStart(parts: seq<string>, k: nat, n: nat): nat
    requires k <= |parts|
  {
    if k == 0 then 0 else PartStart(parts, k - 1, n) + |parts[k - 1]| + n
  }

  lemma {:induction false} PartStartCons(p: string, parts: seq<string>, k: nat, n: nat)
    requires k <= |parts|
    ensures PartStart([p] + parts, k + 1, n) == |p| + n + PartStart(parts, k, n)
  {
    if k > 0 {
      PartStartCons(p, parts, k - 1, n);
      assert ([p] + parts)[k] == parts[k - 1];
    }
  }

  /** An occurrence in `s[d..]` is one in `s`, `d` further on. */
  lemma {:induction false} OccursShift(s: string, sep: string, d: nat, i: nat)
    requires d <= |s|
    ensures OccursAt(s[d..], sep, i) <==> OccursAt(s, sep, d + i)
  {
    if i + |sep| <= |s| - d {
      assert s[d..][i..i + |sep|] == s[d + i..d + i + |sep|];
    }
  }

  /** Part `k` of `parts` lies in `s` where a split by `sep` puts it: it
      starts at `PartStart`, no occurrence of `sep` starts inside it, and
      one follows it, except after the last part, which runs to the end. */
  predicate PartLies(s: string, sep: string, parts: seq<string>, k: nat)
    requires k < |parts|
  {
    var o := PartStart(parts, k, |sep|); var e := o + |parts[k]|;
    && e <= |s|
    && (forall i :: o <= i < e ==> !OccursAt(s, sep, i))
    && (k < |parts| - 1 ==> OccursAt(s, sep, e))
    && (k == |parts| - 1 ==> e == |s|)
  }

  /** Every part of a split lies where `PartLies` says. */
  lemma {:induction false} SplitCuts(s: string, sep: string, k: nat)
    requires sep != [] && k < |Split(s, sep)|
    ensures PartLies(s, sep, Split(s, sep), k)
    decreases |s|
  {
    match FindFrom(s, sep, 0)
    case None =>
      assert s[..|s|] == s;
      assert Split(s, sep) == [s[..|s|]] + [];
      FirstPartLies(s, sep, |s|, []);
    case Some(j) =>
      var rest := s[j + |sep|..];
      assert Split(s, sep) == [s[..j]] + Split(rest, sep);
      if k == 0 {
        FirstPartLies(s, sep, j, Split(rest, sep));
      } else {
        SplitCuts(rest, sep, k - 1);
        LaterPartLies(s, sep, j, Split(rest, sep), k);
      }
  }

  /** The first part of a split runs up to the first occurrence, or to the
      end when there is none. */
  lemma {:induction false} FirstPartLies(s: string, sep: string, j: nat, tail: seq<string>)
    requires sep != [] && j <= |s|
    requires tail == [] ==> FindFrom(s, sep, 0).None? && j == |s|
    requires tail != [] ==> FindFrom(s, sep, 0) == Some(j)
    ensures PartLies(s, sep, [s[..j]] + tail, 0)
  {
    var parts := [s[..j]] + tail;
    assert PartStart(parts, 0, |sep|) == 0 && |parts[0]| == j;
  }

  /** Past a first part `s[..j]` and a separator, a part lies in `s` where
      it lies in the rest, shifted by both. */
  lemma {:induction false} LaterPartLies(s: string, sep: string, j: nat, tail: seq<string>, k: nat)
    requires j + |sep| <= |s| && 0 < k <= |tail|
    requires PartLies(s[j + |sep|..], sep, tail, k - 1)
    ensures PartLies(s, sep, [s[..j]] + tail, k)
  {
    var o := PartStart(tail, k - 1, |sep|);
    var e := o + |tail[k - 1]|;
    CutsAfter(s, sep, j, s[..j], tail, k);
    ClearShift(s, sep, j + |sep|, s[j + |sep|..], o, e);
  }

  /** The step of `LaterPartLies`: past a first part `p` and a separator,
      part `k` starts further on by both, and the occurrence after it in
      the rest is one in `s`. */
  lemma {:induction false} CutsAfter(s: string, sep: string, j: nat, p: string, tail: seq<string>, k: nat)
    requires |p| == j && j + |sep| <= |s| && 0 < k <= |tail|
    requires k < |tail| ==>
      OccursAt(s[j + |sep|..], sep, PartStart(tail, k - 1, |sep|) + |tail[k - 1]|)
    ensures var parts := [p] + tail; var o := PartStart(tail, k - 1, |sep|);
      && |parts| == |tail| + 1 && parts[k] == tail[k - 1]
      && PartStart(parts, k, |sep|) == j + |sep| + o
      && (k < |tail| ==> OccursAt(s, sep, j + |sep| + o + |tail[k - 1]|))
  {
    PartStartCons(p, tail, k - 1, |sep|);
    if k < |tail| {
      OccursShift(s, sep, j + |sep|, PartStart(tail, k - 1, |sep|) + |tail[k - 1]|);
    }
  }

  /** No occurrence in a stretch of `s[d..]` means none in the same
      stretch of `s`, `d` further on. */
  lemma {:induction false} ClearShift(s: string, sep: string, d: nat, rest: string, o: nat, e: nat)
    requires d <= |s| && rest == s[d..]
    requires forall i :: o <= i < e ==> !OccursAt(rest, sep, i)
    ensures forall i :: d + o <= i < d + e ==> !OccursAt(s, sep, i)
  {
    forall i | d + o <= i < d + e
      ensures !OccursAt(s, sep, i)
    {
      OccursShift(s, sep, d, i - d);
    }
  }

  /** `str.split` cuts at the leftmost occurrences: searching from where
      part `k` starts finds the separator right after that part, and
      searching from where the last part starts finds none. This pins the
      parts down also for a separator that overlaps itself, such as
      `"\n\n"`. */
  lemma {:induction false} SplitLeftmost(s: string, sep: string, k: nat)
    requires sep != [] && k < |Split(s, sep)|
    ensures var parts := Split(s, sep); var o := PartStart(parts, k, |sep|);
      FindFrom(s, sep, o) == if k < |parts| - 1 then Some(o + |parts[k]|) else None
  {
    SplitCuts(s, sep, k);
    LeftmostOf(s, sep, Split(s, sep), k);
  }

  /** A part that lies where `PartLies` says is cut at the leftmost
      occurrence after its start. */
  lemma {:induction false} LeftmostOf(s: string, sep: string, parts: seq<string>, k: nat)
    requires sep != [] && k < |parts| && PartLies(s, sep, parts, k)
    ensures var o := PartStart(parts, k, |sep|);
      FindFrom(s, sep, o) == if k < |parts| - 1 then Some(o + |parts[k]|) else None
  {
    var o := PartStart(parts, k, |sep|);
    var e := o + |parts[k]|;
    if k < |parts| - 1 {
      FindAt(s, sep, o, e);
    } else {
      FindNone(s, sep, o);
    }
  }

  /** An occurrence at `e` with none from `o` up to it is the one found from `o`. */
  lemma {:induction false} FindAt(s: string, sep: string, o: nat, e: nat)
    requires o <= e && OccursAt(s, sep, e)
    requires forall i :: o <= i < e ==> !OccursAt(s, sep, i)
    ensures FindFrom(s, sep, o) == Some(e)
  {
  }

  /** With no occurrence from `o` up to the end, the search from `o` fails. */
  lemma {:induction false} FindNone(s: string, sep: string, o: nat)
    requires sep != []
    requires forall i :: o <= i < |s| ==> !OccursAt(s, sep, i)
    ensures FindFrom(s, sep, o) == None
  {
  }

  /** A string is what comes before an occurrence, the occurrence, and what
      comes after it. */
  lemma CutAround(s: string, sep: string, j: nat)
    requires OccursAt(s, sep, j)
    ensures s == s[..j] + sep + s[j + |sep|..]
  {
    assert s == s[..j] + s[j..j + |sep|] + s[j + |sep|..];
  }

  lemma JoinCons(head: string, parts: seq<string>, sep: string)
    requires parts != []
    ensures Join([head] + parts, sep) == head + sep + Join(parts, sep)
  {
    assert ([head] + parts)[1..] == parts;
  }

  /** `''.join(l)` */
  function Concat(l: seq<string>): string {
    if l == [] then [] else l[0] + Concat(l[1..])
  }

  lemma ConcatOne(x: string)
    ensures Concat([x]) == x
  {
    assert [x][1..] == [];
  }

  lemma {:induction false} ConcatAppend(a: seq<string>, b: seq<string>)
    ensures Concat(a + b) == Concat(a) + Concat(b)
  {
    if a == [] {
      assert a + b == b;
    } else {
      assert (a + b)[1..] == a[1..] + b;
      ConcatAppend(a[1..], b);
    }
  }

  /** Total length of a list of strings. */
  function SumLen(l: seq<string>): nat {
    if l == [] then 0 else |l[0]| + SumLen(l[1..])
  }

  lemma {:induction false} SumLenConcat(a: seq<string>, b: seq<string>)
    ensures SumLen(a + b) == SumLen(a) + SumLen(b)
  {
    if a == [] {
      assert a + b == b;
    } else {
      assert (a + b)[1..] == a[1..] + b;
      SumLenConcat(a[1..], b);
    }
  }

  predicate IsDigit(c: char) {
    '0' <= c <= '9'
  }

  function DigitChar(d: nat): (c: char)
    requires d < 10
    ensures IsDigit(c)
  {
    (d + '0' as int) as char
  }

  /** `str(n)` for `n >= 0`: decimal digits, most significant first, without
      leading zeros. */
  function Decimal(n: nat): (r: string)
    ensures r != [] && forall k :: 0 <= k < |r| ==> IsDigit(r[k])
    ensures |r| > 1 ==> r[0] != '0'
    ensures n < 10 <==> |r| == 1
  {
    if n < 10 then [DigitChar(n)] else Decimal(n / 10) + [DigitChar(n % 10)]
  }

  /** `int(s)` for a string of decimal digits. */
  function ParseDecimal(s: string): nat {
    if s == [] then 0
    else
      var d := s[|s| - 1] as int - '0' as int;
      ParseDecimal(s[..|s| - 1]) * 10 + (if 0 <= d < 10 then d else 0)
  }

  lemma {:induction false} DecimalRoundTrip(n: nat)
    ensures ParseDecimal(Decimal(n)) == n
  {
    if n >= 10 {
      DecimalRoundTrip(n / 10);
      assert Decimal(n)[..|Decimal(n)| - 1] == Decimal(n / 10);
    }
  }

  /** Different numbers print differently. */
  lemma DecimalInjective(m: nat, n: nat)
    ensures Decimal(m) == Decimal(n) ==> m == n
  {
    DecimalRoundTrip(m);
    DecimalRoundTrip(n);
  }
}
