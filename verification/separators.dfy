/**
 * The separator passes: every chunk longer than `MAX_SIZE` is cut at a
 * separator, trying the separators in order double newline, period and
 * newline, period and space, space; each separator is applied to the whole
 * list before the next one is tried. After the last separator a chunk that
 * is still too long makes the run fail.
 *
 * The list is rewritten in place while `enumerate` walks it by index, so
 * the pieces of a chunk after the first are visited again in the same pass
 * and the first piece is not. When every piece of an oversize chunk is
 * blank, the chunk disappears and the chunk that moves into its place is
 * skipped by that pass.
 */
module Separators {
  import opened Wrappers
  import opened PyStr
  import opened Headings

  /** `MAX_SIZE` */
  const MaxSize: nat := 4999

  /** `_split_on_order`; `None` ends the list and means "give up". */
  const SplitOrder: seq<Option<string>> := [Some("\n\n"), Some(".\n"), Some(". "), Some(" "), None]

  /** The separators proper, the entries of `SplitOrder` before `None`. */
  const SplitSeparators: seq<string> := ["\n\n", ".\n", ". ", " "]

  /** The outcome of segmentation: the chunk list, or the `RuntimeError`
      raised when a chunk cannot be cut down to size. */
  datatype Segmentation = Chunks(chunks: seq<string>) | TooLong(message: string)

  /** The error text, "Couldn't divide up text to 4999 char". */
  function TooLongMessage(): string {
    "Couldn't divide up text to " + Decimal(MaxSize) + " char"
  }

  predicate Fits(chunk: string) {
    |chunk| <= MaxSize
  }

  predicate AllFit(chunks: seq<string>) {
    forall k :: 0 <= k < |chunks| ==> Fits(chunks[k])
  }

  /** A piece made by the comprehension: non-blank text followed by `sep`. */
  ghost predicate IsPiece(x: string, sep: string) {
    |x| > |sep| && NonBlank(x[..|x| - |sep|]) && x[|x| - |sep|..] == sep
  }

  /** The parts that are neither empty nor blank, in order. */
  function NonBlankParts(parts: seq<string>): (r: seq<string>)
    ensures |r| <= |parts|
    ensures forall k :: 0 <= k < |r| ==> NonBlank(r[k]) && r[k] in parts
  {
    if parts == [] then []
    else (if NonBlank(parts[0]) then [parts[0]] else []) + NonBlankParts(parts[1..])
  }

  /** `[s + sep for s in parts if not s.isspace() and s]`. */
  function KeepPieces(parts: seq<string>, sep: string): (r: seq<string>)
    ensures forall k :: 0 <= k < |r| ==> IsPiece(r[k], sep) && NonBlank(r[k])
  {
    if parts == [] then []
    else
      var head := if NonBlank(parts[0]) then [parts[0] + sep] else [];
      var tail := KeepPieces(parts[1..], sep);
      assert forall k :: 0 <= k < |head| ==> IsPiece(head[k], sep) && NonBlank(head[k]) by {
        if head != [] {
          var x := parts[0] + sep;
          assert x[..|x| - |sep|] == parts[0];
          var j :| 0 <= j < |parts[0]| && !IsSpace(parts[0][j]);
          assert x[j] == parts[0][j];
        }
      }
      head + tail
  }

  /** The `k`-th piece is the `k`-th non-blank part followed by `sep`: the
      comprehension keeps the non-blank parts, in order, and nothing else. */
  lemma {:induction false} KeepPiecesParts(parts: seq<string>, sep: string)
    ensures |KeepPieces(parts, sep)| == |NonBlankParts(parts)|
    ensures forall k :: 0 <= k < |KeepPieces(parts, sep)| ==>
      KeepPieces(parts, sep)[k] == NonBlankParts(parts)[k] + sep
  {
    if parts != [] {
      KeepPiecesParts(parts[1..], sep);
      var r, tail := KeepPieces(parts, sep), KeepPieces(parts[1..], sep);
      var nb, nbTail := NonBlankParts(parts), NonBlankParts(parts[1..]);
      if NonBlank(parts[0]) {
        assert r == [parts[0] + sep] + tail && nb == [parts[0]] + nbTail;
      } else {
        assert r == tail && nb == nbTail;
      }
    }
  }

  /** What line 62 puts in place of an oversize chunk. */
  function Pieces(chunk: string, sep: string): (r: seq<string>)
    requires sep != []
    ensures forall k :: 0 <= k < |r| ==> IsPiece(r[k], sep) && NonBlank(r[k])
  {
    KeepPieces(Split(chunk, sep), sep)
  }

  /** The pieces are no longer, together, than the chunk plus one separator. */
  lemma {:induction false} PiecesLength(chunk: string, sep: string)
    requires sep != []
    ensures SumLen(Pieces(chunk, sep)) <= |chunk| + |sep|
    decreases |chunk|
  {
    match FindFrom(chunk, sep, 0)
    case None =>
      assert Split(chunk, sep) == [chunk];
      assert KeepPieces([chunk], sep) == (if NonBlank(chunk) then [chunk + sep] else []) + KeepPieces([], sep);
    case Some(j) =>
      var rest := chunk[j + |sep|..];
      PiecesLength(rest, sep);
      var parts := [chunk[..j]] + Split(rest, sep);
      assert Split(chunk, sep) == parts;
      assert parts[1..] == Split(rest, sep);
      var head := if NonBlank(chunk[..j]) then [chunk[..j] + sep] else [];
      assert KeepPieces(parts, sep) == head + Pieces(rest, sep);
      SumLenConcat(head, Pieces(rest, sep));
  }

  /** Every piece after the first is, together with the others, shorter than
      the chunk they came from; this is what makes a pass terminate. */
  lemma PiecesTailShorter(chunk: string, sep: string)
    requires sep != []
    requires Pieces(chunk, sep) != []
    ensures SumLen(Pieces(chunk, sep)[1..]) < |chunk|
  {
    PiecesLength(chunk, sep);
    var p := Pieces(chunk, sep);
    assert IsPiece(p[0], sep);
  }

  /** One separator pass, as seen from the index `enumerate` has reached:
      `work` is the chunk at that index and everything after it. A fitting
      chunk is kept; an oversize chunk is replaced by its pieces, of which the
      first is done and the rest are still ahead; when there are no pieces the
      next chunk slides into the visited slot and is passed over.
      `PassInPlace` restates this chunk by chunk, and `PassKeepsContent` shows
      that no text is lost. */
  function Pass(work: seq<string>, sep: string): (r: seq<string>)
    requires sep != []
    decreases SumLen(work), |work|
  {
    if work == [] then []
    else if Fits(work[0]) then
      [work[0]] + Pass(work[1..], sep)
    else
      var p := Pieces(work[0], sep);
      if p == [] then
        if |work| == 1 then []
        else
          assert work[1..][1..] == work[2..];
          assert SumLen(work) == |work[0]| + |work[1]| + SumLen(work[2..]);
          [work[1]] + Pass(work[2..], sep)
      else
        PiecesTailShorter(work[0], sep);
        SumLenConcat(p[1..], work[1..]);
        [p[0]] + Pass(p[1..] + work[1..], sep)
  }

  /** An oversize chunk in which `sep` does not occur is not shortened: it
      comes out whole with `sep` appended, still oversize. */
  lemma PassWithoutSeparator(chunk: string, sep: string)
    requires sep != [] && !Fits(chunk) && NonBlank(chunk) && !Contains(chunk, sep)
    ensures Pass([chunk], sep) == [chunk + sep]
    ensures !Fits(chunk + sep)
  {
    match FindFrom(chunk, sep, 0)
    case Some(j) =>
      assert Contains(chunk, sep);
      assert false;
    case None =>
      assert Split(chunk, sep) == [chunk];
      assert KeepPieces([chunk], sep) == [chunk + sep] + KeepPieces([], sep);
      assert Pieces(chunk, sep) == [chunk + sep];
      assert [chunk][1..] == [];
      assert [chunk + sep][1..] + [chunk][1..] == [];
  }

  /** Every chunk a pass produces was already in the list or is a piece
      made with the pass's separator. */
  lemma {:induction false} PassMembers(work: seq<string>, sep: string)
    requires sep != []
    ensures forall x :: x in Pass(work, sep) ==> x in work || IsPiece(x, sep)
    decreases SumLen(work), |work|
  {
    if work == [] {
    } else if Fits(work[0]) {
      PassMembers(work[1..], sep);
    } else {
      var p := Pieces(work[0], sep);
      if p == [] {
        if |work| > 1 {
          assert work[1..][1..] == work[2..];
          assert SumLen(work) == |work[0]| + |work[1]| + SumLen(work[2..]);
          PassMembers(work[2..], sep);
        }
      } else {
        PiecesTailShorter(work[0], sep);
        SumLenConcat(p[1..], work[1..]);
        PassMembers(p[1..] + work[1..], sep);
        assert forall x :: x in p ==> IsPiece(x, sep);
      }
    }
  }

  /** A list whose chunks all fit goes through a pass unchanged. */
  lemma {:induction false} PassFitting(work: seq<string>, sep: string)
    requires sep != []
    requires AllFit(work)
    ensures Pass(work, sep) == work
    decreases |work|
  {
    if work != [] {
      PassFitting(work[1..], sep);
    }
  }

  /** `a` can be obtained from `b` by deleting elements. */
  ghost predicate Subsequence<T>(a: seq<T>, b: seq<T>)
    decreases |b|
  {
    a == [] || (b != [] && ((a[0] == b[0] && Subsequence(a[1..], b[1..])) || Subsequence(a, b[1..])))
  }

  lemma {:induction false} SubsequencePrepend<T>(x: T, a: seq<T>, b: seq<T>)
    requires Subsequence(a, b)
    ensures Subsequence(a, [x] + b) && Subsequence([x] + a, [x] + b)
  {
    assert ([x] + b)[1..] == b;
    assert ([x] + a)[1..] == a;
  }

  lemma {:induction false} SubsequenceDropFront<T>(x: seq<T>, y: seq<T>, b: seq<T>)
    requires Subsequence(x + y, b)
    ensures Subsequence(y, b)
    decreases |b|
  {
    if x == [] {
      assert x + y == y;
    } else if y != [] {
      assert b != [];
      if (x + y)[0] == b[0] && Subsequence((x + y)[1..], b[1..]) {
        assert (x + y)[1..] == x[1..] + y;
        SubsequenceDropFront(x[1..], y, b[1..]);
      } else {
        SubsequenceDropFront(x, y, b[1..]);
      }
    }
  }

  /** The chunks of `l` that fit, in order. */
  function Fitting(l: seq<string>): (r: seq<string>)
    ensures AllFit(r)
  {
    if l == [] then [] else (if Fits(l[0]) then [l[0]] else []) + Fitting(l[1..])
  }

  lemma {:induction false} FittingConcat(a: seq<string>, b: seq<string>)
    ensures Fitting(a + b) == Fitting(a) + Fitting(b)
  {
    if a == [] {
      assert a + b == b;
    } else {
      var head := if Fits(a[0]) then [a[0]] else [];
      assert (a + b)[0] == a[0] && (a + b)[1..] == a[1..] + b;
      assert Fitting(a + b) == head + Fitting(a[1..] + b);
      FittingConcat(a[1..], b);
      assert Fitting(a) == head + Fitting(a[1..]);
    }
  }

  /** A pass keeps every chunk that fits, unchanged and in its order. */
  lemma {:induction false} PassKeepsFitting(work: seq<string>, sep: string)
    requires sep != []
    ensures Subsequence(Fitting(work), Pass(work, sep))
    decreases SumLen(work), |work|
  {
    if work == [] {
    } else if Fits(work[0]) {
      PassKeepsFitting(work[1..], sep);
      assert Fitting(work) == [work[0]] + Fitting(work[1..]);
      assert Pass(work, sep) == [work[0]] + Pass(work[1..], sep);
      SubsequencePrepend(work[0], Fitting(work[1..]), Pass(work[1..], sep));
    } else if Pieces(work[0], sep) == [] {
      if |work| > 1 {
        assert work[1..][1..] == work[2..];
        assert SumLen(work) == |work[0]| + |work[1]| + SumLen(work[2..]);
        PassKeepsFitting(work[2..], sep);
        KeepFittingAfterDrop(work, sep);
      }
    } else {
      var p := Pieces(work[0], sep);
      PiecesTailShorter(work[0], sep);
      SumLenConcat(p[1..], work[1..]);
      PassKeepsFitting(p[1..] + work[1..], sep);
      KeepFittingAfterSplit(work, sep);
    }
  }

  lemma KeepFittingAfterDrop(work: seq<string>, sep: string)
    requires sep != [] && |work| > 1 && !Fits(work[0]) && Pieces(work[0], sep) == []
    requires Subsequence(Fitting(work[2..]), Pass(work[2..], sep))
    ensures Subsequence(Fitting(work), Pass(work, sep))
  {
    assert work[1..][1..] == work[2..];
    assert Fitting(work) == Fitting(work[1..]);
    assert Fitting(work[1..]) == (if Fits(work[1]) then [work[1]] else []) + Fitting(work[2..]);
    assert Pass(work, sep) == [work[1]] + Pass(work[2..], sep);
    SubsequencePrepend(work[1], Fitting(work[2..]), Pass(work[2..], sep));
    if !Fits(work[1]) {
      assert Fitting(work) == Fitting(work[2..]);
    }
  }

  lemma KeepFittingAfterSplit(work: seq<string>, sep: string)
    requires sep != [] && work != [] && !Fits(work[0]) && Pieces(work[0], sep) != []
    requires var p := Pieces(work[0], sep);
      Subsequence(Fitting(p[1..] + work[1..]), Pass(p[1..] + work[1..], sep))
    ensures Subsequence(Fitting(work), Pass(work, sep))
  {
    var p := Pieces(work[0], sep);
    var next := p[1..] + work[1..];
    assert Pass(work, sep) == [p[0]] + Pass(next, sep);
    assert Fitting(work) == Fitting(work[1..]);
    FittingConcat(p[1..], work[1..]);
    SubsequenceDropFront(Fitting(p[1..]), Fitting(work[1..]), Pass(next, sep));
    SubsequencePrepend(p[0], Fitting(work[1..]), Pass(next, sep));
  }

  /** The chunks not yet reached when `enumerate` is at index `i`. */
  ghost function Unvisited(list: seq<string>, i: nat): seq<string> {
    if i <= |list| then list[i..] else []
  }

  /** The loop's invariant for a separator `s`: the chunks before `i` are
      final, and passing over the rest gives what `Pass` gives over the
      original list. `i` is one past the end when the last step dropped the
      final chunk. */
  ghost predicate Visited(chunks: seq<string>, list: seq<string>, i: nat, s: string)
    requires s != []
  {
    && i <= |list| + 1
    && (i <= |list| ==> list[..i] + Pass(list[i..], s) == Pass(chunks, s))
    && (i == |list| + 1 ==> list == Pass(chunks, s))
  }

  /** The inner loop of lines 56-62 for one entry of `_split_on_order`. With
      a separator it computes `Pass`; with `None` it leaves the list alone and
      fails exactly when some chunk is too long. */
  method SeparatorPass(chunks: seq<string>, sep: Option<string>) returns (r: Segmentation)
    requires sep.Some? ==> sep.value != []
    ensures sep.Some? ==> r == Chunks(Pass(chunks, sep.value))
    ensures sep.None? ==> (r.TooLong? <==> !AllFit(chunks))
    ensures sep.None? && r.Chunks? ==> r.chunks == chunks
    ensures r.TooLong? ==> r.message == TooLongMessage()
  {
    var list := chunks;
    var i := 0;
    while i < |list|
      invariant i <= |list| + 1
      invariant sep.None? ==> list == chunks && i <= |list| && forall k :: 0 <= k < i ==> Fits(list[k])
      invariant sep.Some? ==> Visited(chunks, list, i, sep.value)
      decreases SumLen(Unvisited(list, i)), |list| + 1 - i
    {
      if |list[i]| > MaxSize {
        if sep.None? {
          return TooLong(TooLongMessage());
        }
        var pieces := Pieces(list[i], sep.value);
        ghost var before := list;
        list := list[..i] + pieces + list[i + 1..];
        if pieces == [] {
          DropStep(chunks, before, i, sep.value);
        } else {
          SplitStep(chunks, before, i, sep.value);
        }
      } else {
        KeepStep(chunks, list, i, sep);
      }
      i := i + 1;
    }
    if sep.Some? && i == |list| {
      assert list[..i] == list && list[i..] == [];
    }
    return Chunks(list);
  }

  /** Moving past a chunk that fits keeps the loop's invariant. */
  lemma KeepStep(chunks: seq<string>, list: seq<string>, i: nat, sep: Option<string>)
    requires i < |list| && Fits(list[i])
    requires sep.Some? ==> sep.value != [] && Visited(chunks, list, i, sep.value)
    ensures sep.Some? ==> Visited(chunks, list, i + 1, sep.value)
    ensures SumLen(Unvisited(list, i + 1)) <= SumLen(Unvisited(list, i))
  {
    assert list[i..] == [list[i]] + list[i + 1..];
    SumLenConcat([list[i]], list[i + 1..]);
    if sep.Some? {
      var s := sep.value;
      var work := list[i..];
      assert work[0] == list[i] && work[1..] == list[i + 1..];
      assert Pass(work, s) == [list[i]] + Pass(work[1..], s);
      KeepSplice(list, i, w => Pass(w, s));
    }
  }

  /** Moving past `list[i]`, for any `pass` that, like `Pass`, keeps a chunk
      that fits. */
  lemma KeepSplice(list: seq<string>, i: nat, pass: seq<string> -> seq<string>)
    requires i < |list|
    requires pass(list[i..]) == [list[i]] + pass(list[i + 1..])
    ensures list[..i + 1] + pass(list[i + 1..]) == list[..i] + pass(list[i..])
  {
    assert list[..i + 1] == list[..i] + [list[i]];
  }

  /** Splicing in the pieces of an oversize chunk keeps the loop's invariant
      and shortens what is left to visit. */
  lemma SplitStep(chunks: seq<string>, list: seq<string>, i: nat, s: string)
    requires s != [] && i < |list| && !Fits(list[i])
    requires Pieces(list[i], s) != []
    requires Visited(chunks, list, i, s)
    ensures var after := list[..i] + Pieces(list[i], s) + list[i + 1..];
      Visited(chunks, after, i + 1, s) && SumLen(Unvisited(after, i + 1)) < SumLen(Unvisited(list, i))
  {
    var p := Pieces(list[i], s);
    var work := list[i..];
    assert work[0] == list[i] && work[1..] == list[i + 1..];
    PassSplit(work, s);
    SplitSplice(list, i, p, w => Pass(w, s));
    Splice(list, i, p);
    SplitShortens(list, i, s);
  }

  /** A pass over a list whose first chunk is oversize and has pieces emits
      the first piece and goes on with the other pieces, then the rest. */
  lemma PassSplit(work: seq<string>, sep: string)
    requires sep != [] && work != [] && !Fits(work[0]) && Pieces(work[0], sep) != []
    ensures Pass(work, sep) == [Pieces(work[0], sep)[0]] + Pass(Pieces(work[0], sep)[1..] + work[1..], sep)
  {
  }

  /** Splicing the non-empty `p` in place of `list[i]`, for any `pass` that,
      like `Pass`, emits the first piece and goes on with the rest. */
  lemma SplitSplice(list: seq<string>, i: nat, p: seq<string>, pass: seq<string> -> seq<string>)
    requires i < |list| && p != []
    requires pass(list[i..]) == [p[0]] + pass(p[1..] + list[i + 1..])
    ensures var after := list[..i] + p + list[i + 1..];
      && i + 1 <= |after|
      && after[..i + 1] + pass(after[i + 1..]) == list[..i] + pass(list[i..])
  {
    Splice(list, i, p);
  }

  /** An oversize chunk with no pieces vanishes, and the chunk after it
      moves into the visited slot, unvisited. */
  lemma DropStep(chunks: seq<string>, list: seq<string>, i: nat, s: string)
    requires s != [] && i < |list| && !Fits(list[i])
    requires Pieces(list[i], s) == []
    requires Visited(chunks, list, i, s)
    ensures var after := list[..i] + Pieces(list[i], s) + list[i + 1..];
      Visited(chunks, after, i + 1, s) && SumLen(Unvisited(after, i + 1)) < SumLen(Unvisited(list, i))
  {
    var work := list[i..];
    assert work[0] == list[i];
    PassDrop(work, s);
    if i + 1 < |list| {
      assert work[1] == list[i + 1] && work[2..] == list[i + 2..];
    }
    assert list[..i] + Pieces(list[i], s) + list[i + 1..] == list[..i] + list[i + 1..];
    DropSplice(list, i, w => Pass(w, s));
  }

  /** Replacing `list[i]` by the non-empty `p`: the first `i + 1` entries
      are the ones before `i` and `p[0]`, and the rest of `p` comes next. */
  lemma Splice(list: seq<string>, i: nat, p: seq<string>)
    requires i < |list| && p != []
    ensures var after := list[..i] + p + list[i + 1..];
      && i + 1 <= |after|
      && after[..i + 1] == list[..i] + [p[0]]
      && after[i + 1..] == p[1..] + list[i + 1..]
  {
    var after := list[..i] + p + list[i + 1..];
    assert after[..i + 1] == list[..i] + [p[0]];
    assert after[i + 1..] == p[1..] + list[i + 1..];
  }

  /** What is left to visit after a split is shorter than before it. */
  lemma SplitShortens(list: seq<string>, i: nat, sep: string)
    requires sep != [] && i < |list| && !Fits(list[i])
    requires Pieces(list[i], sep) != []
    ensures SumLen(Pieces(list[i], sep)[1..] + list[i + 1..]) < SumLen(list[i..])
  {
    var p := Pieces(list[i], sep);
    assert list[i..] == [list[i]] + list[i + 1..];
    SumLenConcat([list[i]], list[i + 1..]);
    PiecesTailShorter(list[i], sep);
    SumLenConcat(p[1..], list[i + 1..]);
  }

  /** Dropping `list[i]`, for any `pass` that, like `Pass`, passes over the
      chunk after an oversize chunk with no pieces. */
  lemma DropSplice(list: seq<string>, i: nat, pass: seq<string> -> seq<string>)
    requires i < |list| && !Fits(list[i])
    requires i + 1 < |list| ==> pass(list[i..]) == [list[i + 1]] + pass(list[i + 2..])
    requires i + 1 == |list| ==> pass(list[i..]) == []
    ensures var after := list[..i] + list[i + 1..];
      && (i + 1 <= |after| ==> after[..i + 1] + pass(after[i + 1..]) == list[..i] + pass(list[i..]))
      && (i + 1 > |after| ==> after == list[..i] + pass(list[i..]))
      && SumLen(Unvisited(after, i + 1)) < SumLen(list[i..])
  {
    var after := list[..i] + list[i + 1..];
    DropShortens(list, i);
    if i + 1 < |list| {
      assert after[..i + 1] == list[..i] + [list[i + 1]];
      assert after[i + 1..] == list[i + 2..];
    } else {
      assert after == list[..i];
    }
  }

  /** A pass over a list whose first chunk is oversize and has no pieces
      passes over the second chunk unvisited. */
  lemma PassDrop(work: seq<string>, sep: string)
    requires sep != [] && work != [] && !Fits(work[0]) && Pieces(work[0], sep) == []
    ensures |work| == 1 ==> Pass(work, sep) == []
    ensures |work| > 1 ==> Pass(work, sep) == [work[1]] + Pass(work[2..], sep)
  {
  }

  /** Dropping `list[i]` and passing over the chunk after it leaves less to
      visit. */
  lemma DropShortens(list: seq<string>, i: nat)
    requires i < |list| && !Fits(list[i])
    ensures SumLen(Unvisited(list[..i] + list[i + 1..], i + 1)) < SumLen(list[i..])
  {
    assert list[i..] == [list[i]] + list[i + 1..];
    SumLenConcat([list[i]], list[i + 1..]);
    var after := list[..i] + list[i + 1..];
    if i + 1 < |list| {
      assert list[i + 1..] == [list[i + 1]] + list[i + 2..];
      SumLenConcat([list[i + 1]], list[i + 2..]);
      assert after[i + 1..] == list[i + 2..];
    }
  }

  /** Whitespace and the period: every separator is made of these. */
  predicate IsSeparatorChar(c: char) {
    IsSpace(c) || c == '.'
  }

  /** The text of `s` with whitespace and periods erased: what the separator
      passes keep. A pass adds a separator after the last part of a chunk and
      drops the separators around blank parts, so the periods of `". "` and
      `".\n"` are not kept. */
  function Content(s: string): string {
    if s == [] then [] else (if IsSeparatorChar(s[0]) then [] else [s[0]]) + Content(s[1..])
  }

  lemma {:induction false} ContentConcat(a: string, b: string)
    ensures Content(a + b) == Content(a) + Content(b)
  {
    if a == [] {
      assert a + b == b;
    } else {
      assert (a + b)[1..] == a[1..] + b;
      ContentConcat(a[1..], b);
    }
  }

  /** A blank string has no content. */
  lemma {:induction false} ContentBlank(s: string)
    requires !NonBlank(s)
    ensures Content(s) == []
  {
    if s != [] {
      assert IsSpace(s[0]);
      assert !NonBlank(s[1..]) by {
        forall k | 0 <= k < |s[1..]|
          ensures IsSpace(s[1..][k])
        {
          assert s[1..][k] == s[k + 1];
        }
      }
      ContentBlank(s[1..]);
    }
  }

  /** Erasing whitespace first changes nothing. */
  lemma {:induction false} ContentNonSpace(s: string)
    ensures Content(NonSpace(s)) == Content(s)
  {
    if s != [] {
      ContentNonSpace(s[1..]);
      var head := if IsSpace(s[0]) then [] else [s[0]];
      ContentConcat(head, NonSpace(s[1..]));
      if head != [] {
        assert head[1..] == [];
      }
    }
  }

  /** A string of whitespace and periods has no content. */
  lemma {:induction false} ContentOfSeparatorChars(s: string)
    requires forall k :: 0 <= k < |s| ==> IsSeparatorChar(s[k])
    ensures Content(s) == []
  {
    if s != [] {
      assert forall k :: 0 <= k < |s[1..]| ==> s[1..][k] == s[k + 1];
      ContentOfSeparatorChars(s[1..]);
    }
  }

  /** The separators have no content. */
  lemma SeparatorContent(n: nat)
    requires n < |SplitSeparators|
    ensures Content(SplitSeparators[n]) == []
  {
    ContentOfSeparatorChars(SplitSeparators[n]);
  }

  /** Joining with a separator without content keeps just the parts' content. */
  lemma {:induction false} ContentJoin(parts: seq<string>, sep: string)
    requires Content(sep) == []
    ensures Content(Join(parts, sep)) == Content(Concat(parts))
  {
    if |parts| == 1 {
      ConcatOne(parts[0]);
    } else if |parts| > 1 {
      ContentJoin(parts[1..], sep);
      ContentConcat(parts[0] + sep, Join(parts[1..], sep));
      ContentConcat(parts[0], sep);
      ContentConcat(parts[0], Concat(parts[1..]));
    }
  }

  /** Keeping the non-blank parts and appending a separator without content
      keeps the content of all the parts. */
  lemma {:induction false} KeepPiecesContent(parts: seq<string>, sep: string)
    requires Content(sep) == []
    ensures Content(Concat(KeepPieces(parts, sep))) == Content(Concat(parts))
  {
    if parts != [] {
      var head := if NonBlank(parts[0]) then [parts[0] + sep] else [];
      var tail := KeepPieces(parts[1..], sep);
      assert KeepPieces(parts, sep) == head + tail;
      KeepPiecesContent(parts[1..], sep);
      KeepOneContent(parts[0], sep);
      ContentConcatAll(head, tail);
      ContentConcat(parts[0], Concat(parts[1..]));
    }
  }

  /** One element of the comprehension keeps the content of its part. */
  lemma KeepOneContent(part: string, sep: string)
    requires Content(sep) == []
    ensures Content(Concat(if NonBlank(part) then [part + sep] else [])) == Content(part)
  {
    if NonBlank(part) {
      ConcatOne(part + sep);
      ContentConcat(part, sep);
    } else {
      ContentBlank(part);
    }
  }

  lemma ContentConcatAll(a: seq<string>, b: seq<string>)
    ensures Content(Concat(a + b)) == Content(Concat(a)) + Content(Concat(b))
  {
    ConcatAppend(a, b);
    ContentConcat(Concat(a), Concat(b));
  }

  /** The pieces of a chunk carry its content, in order. */
  lemma PiecesContent(chunk: string, sep: string)
    requires sep != [] && Content(sep) == []
    ensures Content(Concat(Pieces(chunk, sep))) == Content(chunk)
  {
    JoinSplit(chunk, sep);
    ContentJoin(Split(chunk, sep), sep);
    KeepPiecesContent(Split(chunk, sep), sep);
  }

  /** A pass with a separator without content keeps the content of the whole
      list, in order: nothing but whitespace and periods is lost or added,
      and nothing moves. */
  lemma {:induction false} PassKeepsContent(work: seq<string>, sep: string)
    requires sep != [] && Content(sep) == []
    ensures Content(Concat(Pass(work, sep))) == Content(Concat(work))
    decreases SumLen(work), |work|
  {
    if work == [] {
    } else if Fits(work[0]) {
      PassKeepsContent(work[1..], sep);
      ContentConcat(work[0], Concat(Pass(work[1..], sep)));
      ContentConcat(work[0], Concat(work[1..]));
    } else {
      var p := Pieces(work[0], sep);
      PiecesContent(work[0], sep);
      ContentConcat(work[0], Concat(work[1..]));
      if p == [] {
        if |work| > 1 {
          assert work[1..][1..] == work[2..];
          assert SumLen(work) == |work[0]| + |work[1]| + SumLen(work[2..]);
          PassKeepsContent(work[2..], sep);
          ContentConcat(work[1], Concat(Pass(work[2..], sep)));
          ContentConcat(work[1], Concat(work[2..]));
        }
      } else {
        PiecesTailShorter(work[0], sep);
        SumLenConcat(p[1..], work[1..]);
        var next := p[1..] + work[1..];
        PassKeepsContent(next, sep);
        ContentConcat(p[0], Concat(Pass(next, sep)));
        ConcatAppend(p[1..], work[1..]);
        ContentConcat(Concat(p[1..]), Concat(work[1..]));
        ContentConcat(p[0], Concat(p[1..]));
      }
    }
  }

  /** A piece as line 62 makes it: a non-blank part in which `sep` does not
      occur, followed by `sep`. */
  ghost predicate IsCut(q: string, sep: string) {
    && |q| > |sep|
    && q[|q| - |sep|..] == sep
    && NonBlank(q[..|q| - |sep|])
    && !Contains(q[..|q| - |sep|], sep)
  }

  /** Every piece of a chunk is a cut: a part of `chunk.split(sep)` holds no
      `sep`. */
  lemma PiecesAreCuts(chunk: string, sep: string)
    requires sep != []
    ensures forall k :: 0 <= k < |Pieces(chunk, sep)| ==> IsCut(Pieces(chunk, sep)[k], sep)
  {
    var parts := Split(chunk, sep);
    SplitPartsFree(chunk, sep);
    var nb := NonBlankParts(parts);
    KeepPiecesParts(parts, sep);
    forall k | 0 <= k < |Pieces(chunk, sep)|
      ensures IsCut(Pieces(chunk, sep)[k], sep)
    {
      var q := Pieces(chunk, sep)[k];
      assert q == nb[k] + sep;
      assert q[..|q| - |sep|] == nb[k] && q[|q| - |sep|..] == sep;
      var i :| 0 <= i < |parts| && parts[i] == nb[k];
      assert !Contains(parts[i], sep);
    }
  }

  /** One or two characters, the second one whitespace: all four separators
      are of this form. */
  predicate ShortSeparator(sep: string) {
    1 <= |sep| <= 2 && (|sep| == 2 ==> IsSpace(sep[1]))
  }

  lemma SeparatorShort(n: nat)
    requires n < |SplitSeparators|
    ensures ShortSeparator(SplitSeparators[n])
    ensures n > 0 ==> |SplitSeparators[n]| == 1 || SplitSeparators[n][0] != SplitSeparators[n][1]
  {
  }

  /** A string with its first `sep` at `j` and too little after it for a
      second one splits in two. */
  lemma SplitInTwo(q: string, sep: string, j: nat)
    requires sep != [] && OccursAt(q, sep, j)
    requires forall k :: 0 <= k < j ==> !OccursAt(q, sep, k)
    requires |q| - j - |sep| < |sep|
    ensures Split(q, sep) == [q[..j], q[j + |sep|..]]
  {
    FindFirst(q, sep, j);
    var rest := q[j + |sep|..];
    assert FindFrom(rest, sep, 0) == None;
  }

  /** A non-blank part and a blank one give one piece. */
  lemma KeepOfTwo(head: string, rest: string, sep: string)
    requires NonBlank(head) && !NonBlank(rest)
    ensures KeepPieces([head, rest], sep) == [head + sep]
  {
    assert [head, rest][1..] == [rest] && [rest][1..] == [];
    assert KeepPieces([rest], sep) == [];
  }

  /** In a cut, `sep` occurs before the end of the part only as a doubled
      character straddling the part's last character and the separator. */
  lemma NoEarlyCut(q: string, sep: string, k: nat)
    requires ShortSeparator(sep) && IsCut(q, sep)
    requires k < |q| - |sep|
    requires |sep| == 2 && k == |q| - 3 ==> q[k] != sep[0] || sep[0] != sep[1]
    ensures !OccursAt(q, sep, k)
  {
    var part := q[..|q| - |sep|];
    assert q == part + sep;
    if k + |sep| <= |part| {
      assert q[k..k + |sep|] == part[k..k + |sep|];
      assert !OccursAt(part, sep, k);
    } else {
      assert q[k + 1] == sep[0];
    }
  }

  /** Cutting a piece again gives one piece: the piece itself, or, when the
      separator is a doubled character that the part also ends with, the
      piece one character shorter. */
  lemma CutAgain(q: string, sep: string)
    requires ShortSeparator(sep) && IsCut(q, sep)
    ensures |Pieces(q, sep)| == 1
    ensures Pieces(q, sep)[0] == q || Pieces(q, sep)[0] + [sep[0]] == q
    ensures (|sep| == 1 || sep[0] != sep[1]) ==> Pieces(q, sep) == [q]
  {
    var part := q[..|q| - |sep|];
    if |sep| == 2 && part[|part| - 1] == sep[0] && sep[0] == sep[1] {
      CutAgainDoubled(q, sep);
    } else {
      CutAgainPlain(q, sep);
    }
  }

  /** A cut whose separator first occurs where the part ends is its own
      only piece. */
  lemma CutAgainPlain(q: string, sep: string)
    requires ShortSeparator(sep) && IsCut(q, sep)
    requires |sep| == 2 ==> q[|q| - 3] != sep[0] || sep[0] != sep[1]
    ensures Pieces(q, sep) == [q]
  {
    var j := |q| - |sep|;
    var part := q[..j];
    forall k | 0 <= k < j
      ensures !OccursAt(q, sep, k)
    {
      NoEarlyCut(q, sep, k);
    }
    assert q[j..j + |sep|] == sep;
    SplitInTwo(q, sep, j);
    assert q[j + |sep|..] == [];
    KeepOfTwo(part, [], sep);
    assert part + sep == q;
  }

  /** With a doubled separator character that also ends the part, the
      separator is found one character early, and the piece is one
      character shorter than the cut. */
  lemma CutAgainDoubled(q: string, sep: string)
    requires ShortSeparator(sep) && IsCut(q, sep)
    requires |sep| == 2 && q[|q| - 3] == sep[0] && sep[0] == sep[1]
    ensures |Pieces(q, sep)| == 1 && Pieces(q, sep)[0] + [sep[0]] == q
  {
    var part := q[..|q| - 2];
    var j := |part| - 1;
    forall k | 0 <= k < j
      ensures !OccursAt(q, sep, k)
    {
      NoEarlyCut(q, sep, k);
    }
    assert q[j..j + 2] == [sep[0], sep[0]] == sep;
    SplitInTwo(q, sep, j);
    var head, rest := q[..j], q[j + 2..];
    assert rest == [sep[1]];
    assert NonBlank(head) by {
      var i :| 0 <= i < |part| && !IsSpace(part[i]);
      assert i < j && head[i] == part[i];
    }
    KeepOfTwo(head, rest, sep);
    assert head + sep + [sep[0]] == q;
  }

  /** What a piece that `enumerate` reaches again becomes: itself when it
      fits, otherwise the one piece it is cut into. */
  function Recut(q: string, sep: string): string
    requires sep != []
  {
    var p := Pieces(q, sep);
    if Fits(q) || p == [] then q else p[0]
  }

  function RecutAll(qs: seq<string>, sep: string): seq<string>
    requires sep != []
  {
    Map(q => Recut(q, sep), qs)
  }

  /** `[f(x) for x in s]` */
  function Map<T, U>(f: T -> U, s: seq<T>): (r: seq<U>)
    ensures |r| == |s|
    ensures forall k :: 0 <= k < |s| ==> r[k] == f(s[k])
  {
    if s == [] then [] else [f(s[0])] + Map(f, s[1..])
  }

  /** Mapping one more element at the end appends its image. */
  lemma MapSnoc<T, U>(f: T -> U, s: seq<T>, x: T)
    ensures Map(f, s + [x]) == Map(f, s) + [f(x)]
  {
    var r, q := Map(f, s + [x]), Map(f, s) + [f(x)];
    assert |r| == |q|;
    forall k | 0 <= k < |r|
      ensures r[k] == q[k]
    {
      assert (s + [x])[k] == if k < |s| then s[k] else x;
    }
  }

  /** For any `pass` that handles a `good` element ahead of the list by
      emitting `g` of it and going on with the rest, a run of good elements
      ahead of the list comes out mapped by `g`. */
  lemma {:induction false} MapAhead<T>(qs: seq<T>, rest: seq<T>, pass: seq<T> -> seq<T>, g: T -> T, good: T -> bool)
    requires forall k :: 0 <= k < |qs| ==> good(qs[k])
    requires forall q, tail :: good(q) ==> pass([q] + tail) == [g(q)] + pass(tail)
    ensures pass(qs + rest) == Map(g, qs) + pass(rest)
    decreases |qs|
  {
    if qs == [] {
      assert qs + rest == rest;
    } else {
      assert qs + rest == [qs[0]] + (qs[1..] + rest);
      MapAhead(qs[1..], rest, pass, g, good);
    }
  }

  /** A pass chunk by chunk, with no worklist: a chunk that fits stays; an
      oversize chunk with pieces is replaced, in place, by its first piece
      and the rest of its pieces each cut again; an oversize chunk with no
      pieces disappears and the chunk after it stays as it is. */
  function InPlace(work: seq<string>, sep: string): seq<string>
    requires sep != []
    decreases |work|
  {
    if work == [] then []
    else if Fits(work[0]) then [work[0]] + InPlace(work[1..], sep)
    else
      var p := Pieces(work[0], sep);
      if p == [] then
        if |work| == 1 then [] else [work[1]] + InPlace(work[2..], sep)
      else [p[0]] + RecutAll(p[1..], sep) + InPlace(work[1..], sep)
  }

  /** A piece ahead of the rest of the list is cut again, once, in place. */
  lemma PassCutStep(q: string, tail: seq<string>, sep: string)
    requires ShortSeparator(sep) && IsCut(q, sep)
    ensures Pass([q] + tail, sep) == [Recut(q, sep)] + Pass(tail, sep)
  {
    var work := [q] + tail;
    assert work[0] == q && work[1..] == tail;
    if !Fits(q) {
      CutAgain(q, sep);
      var p := Pieces(q, sep);
      PassSplit(work, sep);
      assert p[1..] + work[1..] == tail;
    }
  }

  /** Passing over pieces ahead of the rest of the list cuts each of them
      again, once, in place. */
  lemma PassOverCuts(qs: seq<string>, rest: seq<string>, sep: string)
    requires ShortSeparator(sep)
    requires forall k :: 0 <= k < |qs| ==> IsCut(qs[k], sep)
    ensures Pass(qs + rest, sep) == RecutAll(qs, sep) + Pass(rest, sep)
  {
    var pass := w => Pass(w, sep);
    var g := q => Recut(q, sep);
    var good := q => IsCut(q, sep);
    forall q, tail | good(q)
      ensures pass([q] + tail) == [g(q)] + pass(tail)
    {
      PassCutStep(q, tail, sep);
    }
    MapAhead(qs, rest, pass, g, good);
  }

  /** A pass is `InPlace`: every chunk is replaced where it stands. */
  lemma {:induction false} PassInPlace(work: seq<string>, sep: string)
    requires ShortSeparator(sep)
    ensures Pass(work, sep) == InPlace(work, sep)
    decreases |work|
  {
    if work != [] {
      if Fits(work[0]) {
        PassInPlace(work[1..], sep);
      } else {
        var p := Pieces(work[0], sep);
        if p == [] {
          if |work| > 1 {
            PassDrop(work, sep);
            PassInPlace(work[2..], sep);
          }
        } else {
          PassSplit(work, sep);
          PiecesAreCuts(work[0], sep);
          PassOverCuts(p[1..], work[1..], sep);
          PassInPlace(work[1..], sep);
        }
      }
    }
  }

  /** With a separator other than the blank line, a piece cut again is the
      piece itself: an oversize chunk is replaced by exactly its pieces. */
  lemma {:induction false} RecutKeeps(qs: seq<string>, sep: string)
    requires ShortSeparator(sep) && (|sep| == 1 || sep[0] != sep[1])
    requires forall k :: 0 <= k < |qs| ==> IsCut(qs[k], sep)
    ensures RecutAll(qs, sep) == qs
  {
    if qs != [] {
      if !Fits(qs[0]) {
        CutAgain(qs[0], sep);
      }
      RecutKeeps(qs[1..], sep);
      assert qs == [qs[0]] + qs[1..];
    }
  }

  /** With `".\n"`, `". "` or `" "`, a pass replaces each chunk where it
      stands by one of three things: the chunk (it fits, or it follows an
      oversize chunk that vanished), its pieces, or nothing (all its parts
      are blank). */
  lemma {:induction false} PassReplacesInPlace(work: seq<string>, n: nat)
    requires 1 <= n < |SplitSeparators|
    ensures var sep := SplitSeparators[n];
      work != [] && !Fits(work[0]) && Pieces(work[0], sep) != [] ==>
        Pass(work, sep) == Pieces(work[0], sep) + Pass(work[1..], sep)
    ensures var sep := SplitSeparators[n];
      work != [] && !Fits(work[0]) && Pieces(work[0], sep) == [] ==>
        Pass(work, sep) == if |work| == 1 then [] else [work[1]] + Pass(work[2..], sep)
    ensures var sep := SplitSeparators[n];
      work != [] && Fits(work[0]) ==> Pass(work, sep) == [work[0]] + Pass(work[1..], sep)
  {
    var sep := SplitSeparators[n];
    SeparatorShort(n);
    if work != [] && !Fits(work[0]) {
      var p := Pieces(work[0], sep);
      if p != [] {
        PassInPlace(work, sep);
        PassInPlace(work[1..], sep);
        PiecesAreCuts(work[0], sep);
        RecutKeeps(p[1..], sep);
        assert p == [p[0]] + p[1..];
      }
    }
  }

  /** The first `n` separators applied one after the other, each to the
      whole list. */
  function ApplyPasses(chunks: seq<string>, n: nat): seq<string>
    requires n <= |SplitSeparators|
  {
    if n == 0 then chunks
    else
      SeparatorNonEmpty(n - 1);
      Pass(ApplyPasses(chunks, n - 1), SplitSeparators[n - 1])
  }

  lemma SeparatorNonEmpty(n: nat)
    requires n < |SplitSeparators|
    ensures SplitSeparators[n] != []
  {
  }

  /** Lines 47-62 as one function: the first pass, the four separator
      passes, then the final check. */
  function Segmented(text: string): Segmentation {
    var chunks := ApplyPasses(FirstPass(text), |SplitSeparators|);
    if AllFit(chunks) then Chunks(chunks) else TooLong(TooLongMessage())
  }

  /** Lines 47-62: the first pass, then one pass per entry of `SplitOrder`,
      the last of which only checks the sizes. */
  method Segment(text: string) returns (r: Segmentation)
    ensures r == Segmented(text)
  {
    ghost var first := FirstPass(text);
    var list := FirstPass(text);
    for n := 0 to |SplitOrder|
      invariant n <= 4 ==> list == ApplyPasses(first, n)
      invariant n == 5 ==> list == ApplyPasses(first, 4) && AllFit(list)
    {
      SplitOrderAt(n);
      var out := SeparatorPass(list, SplitOrder[n]);
      if out.TooLong? {
        return out;
      }
      list := out.chunks;
    }
    return Chunks(list);
  }

  /** On success every chunk is non-blank (hence non-empty) and at most
      `MAX_SIZE` long; segmentation fails, with the one message, exactly when
      a chunk is still too long after the four separator passes. */
  lemma SegmentedShape(text: string)
    ensures Segmented(text).Chunks? ==>
      forall k :: 0 <= k < |Segmented(text).chunks| ==> NonBlank(Segmented(text).chunks[k]) && 0 < |Segmented(text).chunks[k]| <= MaxSize
    ensures Segmented(text).TooLong? <==> !AllFit(ApplyPasses(FirstPass(text), |SplitSeparators|))
    ensures Segmented(text).TooLong? ==> Segmented(text).message == TooLongMessage()
  {
    ApplyPassesNonBlank(FirstPass(text), |SplitSeparators|);
  }

  lemma SplitOrderAt(n: nat)
    requires n < |SplitOrder|
    ensures n < 4 ==> SplitOrder[n] == Some(SplitSeparators[n]) && SplitSeparators[n] != []
    ensures n == 4 ==> SplitOrder[n] == None
  {
  }

  /** The separator passes only ever produce non-blank chunks from
      non-blank chunks. */
  lemma {:induction false} ApplyPassesNonBlank(chunks: seq<string>, n: nat)
    requires n <= |SplitSeparators|
    requires forall k :: 0 <= k < |chunks| ==> NonBlank(chunks[k])
    ensures forall k :: 0 <= k < |ApplyPasses(chunks, n)| ==> NonBlank(ApplyPasses(chunks, n)[k])
  {
    if n > 0 {
      ApplyPassesNonBlank(chunks, n - 1);
      var before := ApplyPasses(chunks, n - 1);
      var sep := SplitSeparators[n - 1];
      SeparatorNonEmpty(n - 1);
      var after := Pass(before, sep);
      PassMembers(before, sep);
      forall k | 0 <= k < |after| ensures NonBlank(after[k]) {
        if after[k] !in before {
          assert IsPiece(after[k], sep);
          var x := after[k];
          var j :| 0 <= j < |x[..|x| - |sep|]| && !IsSpace(x[..|x| - |sep|][j]);
          assert !IsSpace(x[j]);
        }
      }
    }
  }

  /** A document that is a single word longer than `MAX_SIZE` (no
      whitespace, no `#`, not ending in a period) cannot be segmented: no
      separator occurs in it, so every pass only appends its separator and
      the chunk stays too long until the final check. */
  lemma LongWordFails(w: string)
    requires |w| > MaxSize
    requires forall k :: 0 <= k < |w| ==> !IsSpace(w[k]) && w[k] != '#'
    requires w[|w| - 1] != '.'
    ensures FirstPass(w) == [w]
    ensures ApplyPasses([w], |SplitSeparators|) == [w + "\n\n" + ".\n" + ". "]
    ensures Segmented(w) == TooLong(TooLongMessage())
  {
    LongWordFirstPass(w);
    LongWordPasses(w);
    var x := w + "\n\n" + ".\n" + ". ";
    assert !Fits([x][0]);
  }

  /** The four separator passes over the one-word document. */
  lemma LongWordPasses(w: string)
    requires |w| > MaxSize
    requires forall k :: 0 <= k < |w| ==> !IsSpace(w[k])
    requires w[|w| - 1] != '.'
    ensures ApplyPasses([w], 4) == [w + "\n\n" + ".\n" + ". "]
  {
    var x2 := w + "\n\n" + ".\n";
    LongWordTwoPasses(w);
    forall k | 0 <= k < |x2|
      ensures x2[k] != ' '
    {
      if k < |w| {
        assert x2[k] == w[k];
      }
    }
    AbsentChar(x2, ". ", ' ');
    PassAppends([w], 2, x2);
    SpaceOnlyAtEnd(x2);
  }

  /** The blank-line and the period-newline passes over the one-word
      document each append their separator. */
  lemma LongWordTwoPasses(w: string)
    requires |w| > MaxSize
    requires forall k :: 0 <= k < |w| ==> !IsSpace(w[k])
    requires w[|w| - 1] != '.'
    ensures ApplyPasses([w], 2) == [w + "\n\n" + ".\n"]
    ensures NonBlank(w + "\n\n" + ".\n") && !Fits(w + "\n\n" + ".\n")
  {
    var x1 := w + "\n\n";
    assert NonBlank(w) by {
      assert !IsSpace(w[0]);
    }
    NonBlankAppend(w, "\n\n");
    NonBlankAppend(x1, ".\n");
    AbsentChar(w, "\n\n", '\n');
    PassAppends([w], 0, w);
    NoPeriodNewline(w);
    PassAppends([w], 1, x1);
  }

  /** A pass over a single oversize chunk in which its separator does not
      occur appends the separator. */
  lemma PassAppends(chunks: seq<string>, n: nat, x: string)
    requires n < |SplitSeparators|
    requires ApplyPasses(chunks, n) == [x]
    requires !Fits(x) && NonBlank(x) && !Contains(x, SplitSeparators[n])
    ensures ApplyPasses(chunks, n + 1) == [x + SplitSeparators[n]]
    ensures !Fits(x + SplitSeparators[n])
  {
    SeparatorNonEmpty(n);
    PassWithoutSeparator(x, SplitSeparators[n]);
  }

  lemma NonBlankAppend(x: string, t: string)
    requires NonBlank(x)
    ensures NonBlank(x + t)
  {
    var i :| 0 <= i < |x| && !IsSpace(x[i]);
    assert (x + t)[i] == x[i];
  }

  /** A word with no `#` and no whitespace is one chunk after the first pass. */
  lemma LongWordFirstPass(w: string)
    requires w != []
    requires forall k :: 0 <= k < |w| ==> !IsSpace(w[k]) && w[k] != '#'
    ensures FirstPass(w) == [w]
  {
    var s := "\n" + w;
    forall k | 0 <= k < |s|
      ensures s[k] != '#'
    {
      if k > 0 {
        assert s[k] == w[k - 1];
      }
    }
    SplitWithoutHash(s, 0, 0);
    assert s[0..] == s;
    assert s[1..] == w;
    assert TrimStart(w) == w;
    assert TrimStart(s) == w;
    assert TrimEnd(w) == w;
    assert Strip(s) == w;
    assert NonBlank(s) by {
      assert !IsSpace(s[1]);
    }
    assert KeepStripped(s) == [w];
    FlatMapOne(KeepStripped, s);
  }

  /** Without a `#` the heading pattern never matches, so `re.split` gives
      back the whole text as one piece. */
  lemma {:induction false} SplitWithoutHash(s: string, last: nat, pos: nat)
    requires last <= pos <= |s|
    requires forall k :: 0 <= k < |s| ==> s[k] != '#'
    ensures SplitFrom(s, last, pos) == [s[last..]]
    decreases |s| - pos
  {
    if pos < |s| {
      assert HeadingAt(s, pos) == None;
      SplitWithoutHash(s, last, pos + 1);
    }
  }

  /** A separator with a character `s` lacks does not occur in `s`. */
  lemma AbsentChar(s: string, sep: string, c: char)
    requires c in sep
    requires forall k :: 0 <= k < |s| ==> s[k] != c
    ensures !Contains(s, sep)
  {
    var i :| 0 <= i < |sep| && sep[i] == c;
    forall k | 0 <= k <= |s|
      ensures !OccursAt(s, sep, k)
    {
      if k + |sep| <= |s| {
        assert s[k..k + |sep|][i] == s[k + i];
      }
    }
  }

  /** After the first pass appends a double newline to the word, a period
      followed by a newline still does not occur. */
  lemma NoPeriodNewline(w: string)
    requires w != [] && w[|w| - 1] != '.'
    requires forall k :: 0 <= k < |w| ==> !IsSpace(w[k])
    ensures !Contains(w + "\n\n", ".\n")
  {
    var u := w + "\n\n";
    forall k | 0 <= k <= |u|
      ensures !OccursAt(u, ".\n", k)
    {
      if k + 2 <= |u| {
        var t := u[k..k + 2];
        if k + 1 < |w| {
          assert t[1] == w[k + 1] && IsSpace('\n');
          assert t[1] != ".\n"[1];
        } else if k < |w| {
          assert t[0] == w[|w| - 1];
          assert t[0] != ".\n"[0];
        } else {
          assert t[0] == '\n';
          assert t[0] != ".\n"[0];
        }
      }
    }
  }

  /** A non-blank `x` with no space, followed by `". "`, is a cut of the
      space pass, so that pass gives it back; `CutUnchanged` is the general
      case. */
  lemma SpaceOnlyAtEnd(x: string)
    requires NonBlank(x)
    requires forall k :: 0 <= k < |x| ==> x[k] != ' '
    ensures Pass([x + ". "], " ") == [x + ". "]
  {
    var y := x + ". ";
    var part := x + ".";
    assert y[..|y| - 1] == part && y[|y| - 1..] == " ";
    NonBlankAppend(x, ".");
    forall k | 0 <= k < |part|
      ensures part[k] != ' '
    {
      if k < |x| {
        assert part[k] == x[k];
      }
    }
    AbsentChar(part, " ", ' ');
    CutUnchanged(y, " ");
  }

  /** A piece cut with `".\n"`, `". "` or `" "` goes through another pass
      with the same separator unchanged. */
  lemma CutUnchanged(y: string, sep: string)
    requires ShortSeparator(sep) && (|sep| == 1 || sep[0] != sep[1]) && IsCut(y, sep)
    ensures Pass([y], sep) == [y]
  {
    PassCutStep(y, [], sep);
    if !Fits(y) {
      CutAgain(y, sep);
    }
    assert [y] + [] == [y];
  }

  /** The separator passes lose and invent no content: what they do is cut
      chunks at separators, append separators and drop blank parts. */
  lemma {:induction false} ApplyPassesKeepContent(chunks: seq<string>, n: nat)
    requires n <= |SplitSeparators|
    ensures Content(Concat(ApplyPasses(chunks, n))) == Content(Concat(chunks))
  {
    if n > 0 {
      ApplyPassesKeepContent(chunks, n - 1);
      SeparatorNonEmpty(n - 1);
      SeparatorContent(n - 1);
      PassKeepsContent(ApplyPasses(chunks, n - 1), SplitSeparators[n - 1]);
    }
  }

  /** A successful segmentation holds exactly the document's text, in order,
      but for whitespace and separator periods. */
  lemma SegmentedKeepsContent(text: string)
    ensures Segmented(text).Chunks? ==> Content(Concat(Segmented(text).chunks)) == Content(text)
  {
    var first := FirstPass(text);
    ApplyPassesKeepContent(first, |SplitSeparators|);
    ContentNonSpace(Concat(first));
    ContentNonSpace(text);
  }
}
