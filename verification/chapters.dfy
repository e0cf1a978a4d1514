/**
 * The chapter table. Per-chunk durations and labels are folded into
 * chapters (lines 89-97): a labelled chunk opens a chapter, an unlabelled
 * chunk lengthens the last chapter, and one that comes before any label is
 * dropped. `add_chapters` (lines 24-35) then lays the chapters end to end
 * in milliseconds and names them `ch0`, `ch1`, ...
 *
 * Durations are exact reals in seconds.
 */
module Chapters {
  import opened PyStr

  /** `sum(d[a:b])`, which is 0 when the slice is empty */
  function Span(d: seq<real>, a: nat, b: nat): real
    requires b <= |d|
    decreases b - a
  {
    if b <= a then 0.0 else Span(d, a, b - 1) + d[b - 1]
  }

  /** `sum(s)` */
  function Sum(s: seq<real>): real {
    Span(s, 0, |s|)
  }

  /** A sum over the front of a list ignores what comes after. */
  lemma {:induction false} SpanPrefix(s: seq<real>, t: seq<real>, a: nat, b: nat)
    requires a <= b <= |s|
    ensures Span(s + t, a, b) == Span(s, a, b)
    decreases b - a
  {
    if a < b {
      SpanPrefix(s, t, a, b - 1);
    }
  }

  lemma SumAppend(s: seq<real>, x: real)
    ensures Sum(s + [x]) == Sum(s) + x
  {
    SpanPrefix(s, [x], 0, |s|);
  }

  /** The positions among the first `n` chunks that carry a label, in
      increasing order. */
  function Starts(labels: seq<string>, n: nat): (r: seq<nat>)
    requires n <= |labels|
    ensures forall k :: 0 <= k < |r| ==> r[k] < n && labels[r[k]] != ""
  {
    if n == 0 then [] else Starts(labels, n - 1) + (if labels[n - 1] != "" then [n - 1] else [])
  }

  /** The starts come in increasing order. */
  lemma {:induction false} StartsIncreasing(labels: seq<string>, n: nat)
    requires n <= |labels|
    ensures forall k, m :: 0 <= k < m < |Starts(labels, n)| ==> Starts(labels, n)[k] < Starts(labels, n)[m]
  {
    if n > 0 {
      StartsIncreasing(labels, n - 1);
    }
  }

  /** Every labelled position is among the starts: no label is lost. */
  lemma {:induction false} StartsComplete(labels: seq<string>, n: nat, i: nat)
    requires i < n <= |labels| && labels[i] != ""
    ensures i in Starts(labels, n)
  {
    if i < n - 1 {
      StartsComplete(labels, n - 1, i);
    }
  }

  /** Where chapter `k` stops: at the next labelled chunk, or after the last
      of the `n` chunks. */
  function ChapterEnd(starts: seq<nat>, k: nat, n: nat): nat {
    if k + 1 < |starts| then starts[k + 1] else n
  }

  /** Chapter `k` of the first `n` chunks, which opens at `starts[k]`,
      lasts `times[k]`: from its own chunk up to the next labelled one. */
  ghost predicate ChapterTimes(d: seq<real>, n: nat, starts: seq<nat>, times: seq<real>)
    requires n <= |d| && |times| == |starts|
    requires forall k :: 0 <= k < |starts| ==> starts[k] < n
  {
    forall k :: 0 <= k < |starts| ==> times[k] == Span(d, starts[k], ChapterEnd(starts, k, n))
  }

  /** `titles` and `times` are the chapters of the first `n` chunks, with
      durations `d` and labels `l`: one chapter per labelled chunk, in order,
      titled with its label and lasting from that chunk up to the next
      labelled one; together they last as long as the chunks from the first
      label on. */
  ghost predicate IsChapterMerge(d: seq<real>, l: seq<string>, n: nat, titles: seq<string>, times: seq<real>)
    requires n <= |d| && n <= |l|
  {
    IsChapterTable(d, l, n, Starts(l, n), titles, times)
  }

  /** The chapter table for the chapters opening at `st`. */
  ghost predicate IsChapterTable(d: seq<real>, l: seq<string>, n: nat, st: seq<nat>, titles: seq<string>, times: seq<real>)
    requires n <= |d| && n <= |l|
    requires forall k :: 0 <= k < |st| ==> st[k] < n
  {
    && |titles| == |st| && |times| == |st|
    && (forall k :: 0 <= k < |st| ==> titles[k] == l[st[k]])
    && ChapterTimes(d, n, st, times)
    && Sum(times) == (if st == [] then 0.0 else Span(d, st[0], n))
  }

  /** Lines 89-97, over `zip(block_times, block_titles)`. */
  method MergeChapters(durations: seq<real>, labels: seq<string>) returns (titles: seq<string>, times: seq<real>)
    ensures var n := if |durations| < |labels| then |durations| else |labels|;
      IsChapterMerge(durations, labels, n, titles, times)
  {
    var n := if |durations| < |labels| then |durations| else |labels|;
    titles, times := [], [];
    NoChunksNoChapters(durations, labels);
    for i := 0 to n
      invariant IsChapterMerge(durations, labels, i, titles, times)
    {
      var time, name := durations[i], labels[i];
      if name != "" {
        LabelledStep(durations, labels, i, titles, times);
        titles := titles + [name];
        times := times + [time];
      } else if times != [] {
        UnlabelledStep(durations, labels, i, titles, times);
        times := times[..|times| - 1] + [times[|times| - 1] + time];
      } else {
        LeadingStep(durations, labels, i, titles, times);
      }
    }
  }

  /** No chunks, no chapters. */
  lemma NoChunksNoChapters(d: seq<real>, l: seq<string>)
    ensures IsChapterMerge(d, l, 0, [], [])
  {
    assert Starts(l, 0) == [];
  }

  /** A labelled chunk opens a new chapter. */
  lemma LabelledStep(d: seq<real>, l: seq<string>, i: nat, titles: seq<string>, times: seq<real>)
    requires i < |d| && i < |l| && l[i] != ""
    requires IsChapterMerge(d, l, i, titles, times)
    ensures IsChapterMerge(d, l, i + 1, titles + [l[i]], times + [d[i]])
  {
    var st := Starts(l, i);
    assert Starts(l, i + 1) == st + [i];
    AppendChapter(d, l, i, st, titles, times);
  }

  lemma AppendChapter(d: seq<real>, l: seq<string>, i: nat, st: seq<nat>, titles: seq<string>, times: seq<real>)
    requires i < |d| && i < |l|
    requires forall k :: 0 <= k < |st| ==> st[k] < i
    requires IsChapterTable(d, l, i, st, titles, times)
    ensures IsChapterTable(d, l, i + 1, st + [i], titles + [l[i]], times + [d[i]])
  {
    SumAppend(times, d[i]);
    assert Span(d, i, i + 1) == d[i];
    if st != [] {
      assert Span(d, st[0], i + 1) == Span(d, st[0], i) + d[i];
    }
    AppendTime(d, i, st, times);
  }

  /** The chapters before a new one keep their durations, and the new one,
      opening at chunk `n`, lasts as long as that chunk. */
  lemma AppendTime(d: seq<real>, n: nat, starts: seq<nat>, times: seq<real>)
    requires n < |d| && |times| == |starts|
    requires forall k :: 0 <= k < |starts| ==> starts[k] < n
    requires ChapterTimes(d, n, starts, times)
    ensures ChapterTimes(d, n + 1, starts + [n], times + [d[n]])
  {
    var st' := starts + [n];
    forall k | 0 <= k < |st'|
      ensures (times + [d[n]])[k] == Span(d, st'[k], ChapterEnd(st', k, n + 1))
    {
      if k < |starts| {
        assert ChapterEnd(st', k, n + 1) == ChapterEnd(starts, k, n);
      } else {
        assert Span(d, n, n + 1) == d[n];
      }
    }
  }

  /** An unlabelled chunk lengthens the last chapter. */
  lemma UnlabelledStep(d: seq<real>, l: seq<string>, i: nat, titles: seq<string>, times: seq<real>)
    requires i < |d| && i < |l| && l[i] == ""
    requires IsChapterMerge(d, l, i, titles, times)
    requires times != []
    ensures IsChapterMerge(d, l, i + 1, titles, times[..|times| - 1] + [times[|times| - 1] + d[i]])
  {
    var st := Starts(l, i);
    assert Starts(l, i + 1) == st;
    GrowLastChapter(d, l, i, st, titles, times);
  }

  lemma GrowLastChapter(d: seq<real>, l: seq<string>, i: nat, st: seq<nat>, titles: seq<string>, times: seq<real>)
    requires i < |d| && i < |l| && times != []
    requires forall k :: 0 <= k < |st| ==> st[k] < i
    requires IsChapterTable(d, l, i, st, titles, times)
    ensures IsChapterTable(d, l, i + 1, st, titles, times[..|times| - 1] + [times[|times| - 1] + d[i]])
  {
    SumGrowLast(times, d[i]);
    assert Span(d, st[0], i + 1) == Span(d, st[0], i) + d[i];
    GrowLastTime(d, i, st, times);
  }

  /** An unlabelled chunk before the first labelled one is dropped. */
  lemma LeadingStep(d: seq<real>, l: seq<string>, i: nat, titles: seq<string>, times: seq<real>)
    requires i < |d| && i < |l| && l[i] == ""
    requires IsChapterMerge(d, l, i, titles, times)
    requires times == []
    ensures IsChapterMerge(d, l, i + 1, titles, times)
  {
    assert Starts(l, i + 1) == Starts(l, i);
  }

  /** Adding `x` to the last entry adds `x` to the sum. */
  lemma SumGrowLast(s: seq<real>, x: real)
    requires s != []
    ensures Sum(s[..|s| - 1] + [s[|s| - 1] + x]) == Sum(s) + x
  {
    var m := |s| - 1;
    assert s == s[..m] + [s[m]];
    SumAppend(s[..m], s[m]);
    SumAppend(s[..m], s[m] + x);
  }

  /** After an unlabelled chunk `n` the chapters keep their durations,
      except the last, which grows by that chunk's. */
  lemma GrowLastTime(d: seq<real>, n: nat, starts: seq<nat>, times: seq<real>)
    requires n < |d| && |times| == |starts| && times != []
    requires forall k :: 0 <= k < |starts| ==> starts[k] < n
    requires ChapterTimes(d, n, starts, times)
    ensures ChapterTimes(d, n + 1, starts, times[..|times| - 1] + [times[|times| - 1] + d[n]])
  {
    var m := |times| - 1;
    var times' := times[..m] + [times[m] + d[n]];
    forall k | 0 <= k < |starts|
      ensures times'[k] == Span(d, starts[k], ChapterEnd(starts, k, n + 1))
    {
      if k < m {
        assert times'[k] == times[k];
      } else {
        assert Span(d, starts[k], n + 1) == Span(d, starts[k], n) + d[n];
      }
    }
  }

  /** Chapter durations add up to the chunks' durations from the first
      labelled chunk on; chunks before it count for nothing. When the first
      chunk is labelled, nothing is lost. */
  lemma MergeKeepsTotal(d: seq<real>, l: seq<string>, n: nat, titles: seq<string>, times: seq<real>)
    requires n <= |d| && n <= |l|
    requires IsChapterMerge(d, l, n, titles, times)
    requires n > 0 && l[0] != ""
    ensures Sum(times) == Span(d, 0, n)
  {
    StartsComplete(l, n, 0);
    StartsIncreasing(l, n);
    var st := Starts(l, n);
    var k :| 0 <= k < |st| && st[k] == 0;
    assert st[0] == 0;
  }

  /** `"ch{}".format(k)` */
  function ElementId(k: nat): string {
    "ch" + Decimal(k)
  }

  /** Different chapters get different element ids. */
  lemma ElementIdsDistinct(m: nat, n: nat)
    requires m != n
    ensures ElementId(m) != ElementId(n)
  {
    DecimalInjective(m, n);
    assert ElementId(m)[2..] == Decimal(m);
    assert ElementId(n)[2..] == Decimal(n);
  }

  /** A chapter frame: its element id, its start and end in milliseconds, and
      its title. */
  datatype ChapterFrame = ChapterFrame(elementId: string, start: real, end: real, title: string)

  /** The frame of chapter `k`: it opens where the chapters before it have
      ended and lasts 1000 times its duration, in milliseconds. */
  function Frame(chaps: seq<string>, times: seq<real>, k: nat): ChapterFrame
    requires k < |chaps| && k < |times|
  {
    ChapterFrame(ElementId(k), 1000.0 * Span(times, 0, k), 1000.0 * Span(times, 0, k + 1), chaps[k])
  }

  /** Lines 24-35 over `zip(chaps, times)`: one frame per chapter, and the
      table of contents lists their element ids in order. */
  method ChapterFrames(chaps: seq<string>, times: seq<real>) returns (frames: seq<ChapterFrame>, childIds: seq<string>)
    ensures |frames| == |childIds| == (if |chaps| < |times| then |chaps| else |times|)
    ensures forall k :: 0 <= k < |frames| ==> frames[k] == Frame(chaps, times, k)
    ensures forall k :: 0 <= k < |childIds| ==> childIds[k] == frames[k].elementId
  {
    var n := if |chaps| < |times| then |chaps| else |times|;
    frames, childIds := [], [];
    for i := 0 to n
      invariant |frames| == i && |childIds| == i
      invariant forall k :: 0 <= k < i ==> frames[k] == Frame(chaps, times, k)
      invariant forall k :: 0 <= k < i ==> childIds[k] == frames[k].elementId
    {
      var c, t := chaps[i], times[i];
      var bounds: (real, real);
      if |frames| == 0 {
        bounds := (0.0, t * 1000.0);
      } else {
        bounds := (frames[|frames| - 1].end, frames[|frames| - 1].end + t * 1000.0);
      }
      assert bounds.0 == 1000.0 * Span(times, 0, i);
      var elementId := ElementId(i);
      frames := frames + [ChapterFrame(elementId, bounds.0, bounds.1, c)];
      childIds := childIds + [elementId];
    }
  }

  /** The frames are laid end to end from 0, each lasting 1000 times its
      chapter's duration, and the last one ends at 1000 times the total. */
  lemma FramesEndToEnd(chaps: seq<string>, times: seq<real>, n: nat)
    requires n <= |chaps| && n <= |times|
    ensures n > 0 ==> Frame(chaps, times, 0).start == 0.0
    ensures n > 0 ==> Frame(chaps, times, n - 1).end == 1000.0 * Span(times, 0, n)
    ensures forall k :: 0 < k < n ==> Frame(chaps, times, k).start == Frame(chaps, times, k - 1).end
    ensures forall k :: 0 <= k < n ==> Frame(chaps, times, k).end == Frame(chaps, times, k).start + 1000.0 * times[k]
  {
  }

  /** With no negative duration the frames never overlap: each one ends
      before the next begins. */
  lemma FramesOrdered(chaps: seq<string>, times: seq<real>, n: nat)
    requires n <= |chaps| && n <= |times|
    requires forall k :: 0 <= k < n ==> times[k] >= 0.0
    ensures forall j, k :: 0 <= j <= k < n ==> Frame(chaps, times, j).start <= Frame(chaps, times, k).start
    ensures forall j, k :: 0 <= j < k < n ==> Frame(chaps, times, j).end <= Frame(chaps, times, k).start
  {
    forall j, k | 0 <= j <= k < n
      ensures Frame(chaps, times, j).start <= Frame(chaps, times, k).start
    {
      SpanGrows(times, j, k);
    }
    forall j, k | 0 <= j < k < n
      ensures Frame(chaps, times, j).end <= Frame(chaps, times, k).start
    {
      SpanGrows(times, j + 1, k);
    }
  }

  /** No two frames share an element id. */
  lemma FrameIdsDistinct(chaps: seq<string>, times: seq<real>, n: nat)
    requires n <= |chaps| && n <= |times|
    ensures forall j, k :: 0 <= j < k < n ==> Frame(chaps, times, j).elementId != Frame(chaps, times, k).elementId
  {
    forall j, k | 0 <= j < k < n
      ensures Frame(chaps, times, j).elementId != Frame(chaps, times, k).elementId
    {
      ElementIdsDistinct(j, k);
    }
  }

  /** With no negative duration, a longer prefix sums to at least as much. */
  lemma {:induction false} SpanGrows(d: seq<real>, a: nat, b: nat)
    requires a <= b <= |d|
    requires forall k :: 0 <= k < b ==> d[k] >= 0.0
    ensures Span(d, 0, a) <= Span(d, 0, b)
    decreases b - a
  {
    if a < b {
      SpanGrows(d, a, b - 1);
    }
  }
}
