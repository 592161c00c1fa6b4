/** Views of persistent arrays: composing index expressions over all dimensions, and
    the blocks a view touches. */
module Views {
  import opened Arith
  import opened Collections
  import opened Slices

  function Prepend(p: seq<Index>, o: Outcome<seq<Index>>): Outcome<seq<Index>> {
    if o.Done? then Done(p + o.value) else o
  }

  ghost predicate NoOther(view: seq<Index>) {
    forall i :: 0 <= i < |view| ==> !view[i].Other?
  }

  /** The composed view: new indices apply to the slices of the old view, in
      order.  New indices left over when only ints remain are an error. */
  function Compose(shape: seq<int>, cur: seq<Index>, idx: seq<Index>): (r: Outcome<seq<Index>>)
    requires |cur| == |shape| && forall i :: 0 <= i < |cur| ==> !cur[i].Other?
    ensures r.Done? ==> |r.value| == |cur|
  {
    if cur == [] || idx == [] then Done(cur)
    else if cur[0].At? then
      if |cur| == 1 then IndexError else Prepend([cur[0]], Compose(shape[1..], cur[1..], idx))
    else
      var r := ComposeDim(shape[0], cur[0], idx[0]);
      if r.Done? then Prepend([r.value], Compose(shape[1..], cur[1..], idx[1..])) else NotImplementedError
  }

  lemma {:induction false} ComposeNoOther(shape: seq<int>, cur: seq<Index>, idx: seq<Index>)
    requires |cur| == |shape| && NoOther(cur) && Compose(shape, cur, idx).Done?
    ensures NoOther(Compose(shape, cur, idx).value)
    decreases |cur|
  {
    if cur == [] || idx == [] {
    } else if cur[0].At? {
      ComposeNoOther(shape[1..], cur[1..], idx);
    } else {
      ComposeNoOther(shape[1..], cur[1..], idx[1..]);
    }
  }

  lemma PrependTwice(p: seq<Index>, q: seq<Index>, o: Outcome<seq<Index>>)
    ensures Prepend(p, Prepend(q, o)) == Prepend(p + q, o)
    ensures Prepend([], o) == o
  {
    if o.Done? { assert [] + o.value == o.value; }
    if o.Done? { assert p + (q + o.value) == (p + q) + o.value; }
  }

  /** view_composer_internal on tuples. */
  method ViewComposer(shape: seq<int>, cur: seq<Index>, idx: seq<Index>) returns (res: Outcome<seq<Index>>)
    requires NoOther(cur)
    ensures |cur| != |shape| ==> res == TypeError
    ensures |cur| == |shape| ==> res == Compose(shape, cur, idx)
  {
    if |cur| != |shape| {
      return TypeError;
    }
    var list := cur;
    var j, i := 0, 0;
    assert cur[0..] == cur && shape[0..] == shape && idx[0..] == idx;
    PrependTwice([], [], Compose(shape, cur, idx));
    while i < |idx| && j < |list|
      invariant 0 <= i <= |idx| && 0 <= j <= |list| == |cur| && list[j..] == cur[j..] && NoOther(cur[j..])
      invariant Prepend(list[..j], Compose(shape[j..], cur[j..], idx[i..])) == Compose(shape, cur, idx)
      decreases |idx| - i
    {
      var n := idx[i];
      ghost var k := j;
      j := SkipInts(shape, cur, list, idx[i..], j);
      if j == |list| {
        return IndexError;
      }
      assert list[j..] == cur[j..] by { assert list[k..][j - k..] == cur[k..][j - k..]; }
      assert list[j] == cur[j..][0];
      var r := ComposeDim(shape[j], list[j], n);
      assert idx[i..][1..] == idx[i + 1..] && cur[j..][1..] == cur[j + 1..] && shape[j..][1..] == shape[j + 1..];
      if !r.Done? {
        return NotImplementedError;
      }
      ghost var before := list[..j];
      PrependTwice(before, [r.value], Compose(shape[j + 1..], cur[j + 1..], idx[i + 1..]));
      list := list[j := r.value];
      assert list[..j + 1] == before + [r.value];
      assert list[j + 1..] == cur[j..][1..];
      j := j + 1;
      i := i + 1;
    }
    assert list == list[..j] + cur[j..];
    res := Done(list);
  }

  /** The inner loop: the next dimension that is no int, or the end, where reading the
      view fails. */
  method SkipInts(shape: seq<int>, cur: seq<Index>, list: seq<Index>, ghost idx: seq<Index>, from: nat) returns (j: nat)
    requires |cur| == |shape| == |list| && from < |list| && list[from..] == cur[from..] && NoOther(cur) && idx != []
    ensures from <= j <= |list| && (j < |list| ==> !list[j].At?)
    ensures var r := Prepend(list[..from], Compose(shape[from..], cur[from..], idx));
            if j == |list| then r == IndexError else r == Prepend(list[..j], Compose(shape[j..], cur[j..], idx))
  {
    j := from;
    while list[j].At?
      invariant from <= j < |list|
      invariant Prepend(list[..from], Compose(shape[from..], cur[from..], idx))
          == Prepend(list[..j], Compose(shape[j..], cur[j..], idx))
      decreases |list| - j
    {
      assert list[j] == list[from..][j - from] == cur[j];
      SkipInt(shape[j..], cur[j..], idx);
      j := j + 1;
      if j == |list| {
        return;
      }
      assert cur[j - 1..][1..] == cur[j..] && shape[j - 1..][1..] == shape[j..];
      PrependTwice(list[..j - 1], [list[j - 1]], Compose(shape[j..], cur[j..], idx));
      assert list[..j] == list[..j - 1] + [list[j - 1]];
    }
  }

  lemma SkipInt(shape: seq<int>, cur: seq<Index>, idx: seq<Index>)
    requires |cur| == |shape| >= 1 && NoOther(cur) && cur[0].At? && idx != []
    ensures Compose(shape, cur, idx) == if |cur|
        == 1 then IndexError else Prepend([cur[0]], Compose(shape[1..], cur[1..], idx))
  {}

  // ----------------------------------------------------------- many dimensions

  ghost predicate ViewOf(shape: seq<nat>, view: seq<Index>) {
    |view| == |shape| && forall i :: 0 <= i < |view| ==> Entry(shape[i], view[i])
  }

  function DenoteAll(shape: seq<nat>, view: seq<Index>): (sels: seq<Sel>)
    requires ViewOf(shape, view)
    ensures |sels| == |shape|
  {
    seq(|shape|, i requires 0 <= i < |shape| => Denote(shape[i], view[i]))
  }

  /** New indices that fit: no more of them than slices are left, each composable. */
  ghost predicate Fits(shape: seq<nat>, view: seq<Index>, idx: seq<Index>)
    requires ViewOf(shape, view)
    decreases |view|
  {
    if idx == [] then true
    else if view == [] then false
    else if view[0].At? then Fits(shape[1..], view[1..], idx)
    else
      RemoveNones(view[0], shape[0]).step >= 1 && Composable(shape[0], RemoveNones(view[0], shape[0]), idx[0])
      && Fits(shape[1..], view[1..], idx[1..])
  }

  /** New indices that numpy accepts on an array whose axes show `sels`: forward
      slices and ints in range, no more of them than axes. */
  predicate Indexable(sels: seq<Sel>, idx: seq<Index>)
    decreases |sels|
  {
    if sels == [] then idx == []
    else if sels[0].One? then Indexable(sels[1..], idx)
    else if idx == [] then Indexable(sels[1..], [])
    else
      && Accepted(|sels[0].ps|, idx[0])
      && Indexable(sels[1..], idx[1..])
  }

  /** numpy indexing: ints are no axes any more, each new index takes the next
      axis, axes left over stay whole. */
  function NpIndex(sels: seq<Sel>, idx: seq<Index>): (out: seq<Sel>)
    requires Indexable(sels, idx)
    ensures |out| == |sels|
    decreases |sels|
  {
    if sels == [] then []
    else if sels[0].One? then [sels[0]] + NpIndex(sels[1..], idx)
    else if idx == [] then [sels[0]] + NpIndex(sels[1..], [])
    else [Pick(sels[0].ps, idx[0])] + NpIndex(sels[1..], idx[1..])
  }

  /** A view of a view is the view of the composed index. */
  lemma {:induction false} ComposeMeaning(shape: seq<nat>, view: seq<Index>, idx: seq<Index>)
    requires ViewOf(shape, view) && Fits(shape, view, idx)
    ensures Compose(shape, view, idx).Done? && ViewOf(shape, Compose(shape, view, idx).value)
    ensures Indexable(DenoteAll(shape, view), idx)
    ensures NpIndex(DenoteAll(shape, view), idx) == DenoteAll(shape, Compose(shape, view, idx).value)
    decreases |view|
  {
    var sels := DenoteAll(shape, view);
    if view == [] {
    } else if idx == [] {
      NothingNew(shape, view);
    } else {
      assert sels[1..] == DenoteAll(shape[1..], view[1..]);
      assert Entry(shape[0], view[0]);
      if view[0].At? {
        ComposeMeaning(shape[1..], view[1..], idx);
      } else {
        EntryPositions(shape[0], view[0]);
        ComposeDimMeaning(shape[0], view[0], idx[0]);
        ComposeMeaning(shape[1..], view[1..], idx[1..]);
      }
      ConsView(shape, Compose(shape, view, idx).value);
    }
  }

  /** A view whose entries select what numpy selects by `idx` from the old view. */
  ghost predicate Agrees(shape: seq<nat>, view: seq<Index>, idx: seq<Index>, out: seq<Index>)
    requires ViewOf(shape, view)
  {
    ViewOf(shape, out) && Indexable(DenoteAll(shape, view), idx)
    && NpIndex(DenoteAll(shape, view), idx) == DenoteAll(shape, out)
  }

  /** Indices fit exactly when the composed index is a view again that selects what numpy
      selects. */
  lemma {:induction false} FitsExactly(shape: seq<nat>, view: seq<Index>, idx: seq<Index>)
    requires ViewOf(shape, view)
    ensures Fits(shape, view, idx) <==>
              Compose(shape, view, idx).Done? && Agrees(shape, view, idx, Compose(shape, view, idx).value)
    decreases |view|
  {
    if Fits(shape, view, idx) {
      ComposeMeaning(shape, view, idx);
    } else if view == [] || idx == [] {
    } else if Compose(shape, view, idx).Done? && Agrees(shape, view, idx, Compose(shape, view, idx).value) {
      var out := Compose(shape, view, idx).value;
      assert Entry(shape[0], view[0]);
      AgreesTail(shape, view, idx, out);
      if view[0].At? {
        FitsExactly(shape[1..], view[1..], idx);
      } else {
        EntryPositions(shape[0], view[0]);
        ComposeDimMeaning(shape[0], view[0], idx[0]);
        FitsExactly(shape[1..], view[1..], idx[1..]);
      }
    }
  }

  lemma AgreesTail(shape: seq<nat>, view: seq<Index>, idx: seq<Index>, out: seq<Index>)
    requires ViewOf(shape, view) && view != [] && idx != [] && Agrees(shape, view, idx, out)
    ensures ViewOf(shape[1..], view[1..]) && Entry(shape[0], out[0])
    ensures Agrees(shape[1..], view[1..], if view[0].At? then idx else idx[1..], out[1..])
    ensures view[0].Slice? ==> Accepted(|Positions(shape[0], view[0])|, idx[0])
                               && Denote(shape[0], out[0]) == Pick(Positions(shape[0], view[0]), idx[0])
  {
    ViewTail(shape, view);
    ViewTail(shape, out);
    NpTail(DenoteAll(shape, view), idx);
    assert DenoteAll(shape, view)[0] == Denote(shape[0], view[0]);
    assert DenoteAll(shape, out)[0] == Denote(shape[0], out[0]);
  }

  lemma ViewTail(shape: seq<nat>, view: seq<Index>)
    requires ViewOf(shape, view) && view != []
    ensures Entry(shape[0], view[0]) && ViewOf(shape[1..], view[1..])
    ensures DenoteAll(shape, view)[1..] == DenoteAll(shape[1..], view[1..])
  {
    forall i | 0 <= i < |view[1..]| ensures Entry(shape[1..][i], view[1..][i]) {
      assert Entry(shape[i + 1], view[i + 1]);
    }
  }

  lemma NpTail(sels: seq<Sel>, idx: seq<Index>)
    requires sels != [] && idx != [] && Indexable(sels, idx)
    ensures var rest := if sels[0].One? then idx else idx[1..];
            Indexable(sels[1..], rest) && NpIndex(sels, idx)[1..] == NpIndex(sels[1..], rest)
    ensures sels[0].Many? ==> Accepted(|sels[0].ps|, idx[0]) && NpIndex(sels, idx)[0] == Pick(sels[0].ps, idx[0])
  {}

  lemma ConsView(shape: seq<nat>, out: seq<Index>)
    requires |shape| == |out| > 0 && Entry(shape[0], out[0]) && ViewOf(shape[1..], out[1..])
    ensures ViewOf(shape, out)
    ensures DenoteAll(shape, out) == [Denote(shape[0], out[0])] + DenoteAll(shape[1..], out[1..])
  {
    forall i | 0 <= i < |out| ensures Entry(shape[i], out[i]) {
      if i > 0 { assert Entry(shape[1..][i - 1], out[1..][i - 1]); }
    }
  }

  lemma {:induction false} NothingNew(shape: seq<nat>, view: seq<Index>)
    requires ViewOf(shape, view)
    ensures Indexable(DenoteAll(shape, view), []) && NpIndex(DenoteAll(shape, view), []) == DenoteAll(shape, view)
    decreases |view|
  {
    if view == [] {
    } else {
      NothingNew(shape[1..], view[1..]);
      assert DenoteAll(shape, view)[1..] == DenoteAll(shape[1..], view[1..]);
    }
  }

  // --------------------------------------------------- too many new indices

  function SliceCount(view: seq<Index>): nat {
    if view == [] then 0 else (if view[0].Slice? then 1 else 0) + SliceCount(view[1..])
  }

  /** An index that the composer does not implement. */
  predicate Refused(ix: Index) {
    ix.Other? || (ix.Slice? && ix.step.Some? && ix.step.value < 0)
  }

  ghost predicate AnyRefused(idx: seq<Index>, m: nat) {
    exists i :: 0 <= i < m && i < |idx| && Refused(idx[i])
  }

  lemma AnyRefusedStep(idx: seq<Index>, m: nat)
    requires idx != [] && m >= 1
    ensures AnyRefused(idx, m) <==> Refused(idx[0]) || AnyRefused(idx[1..], m - 1)
  {
    if AnyRefused(idx, m) && !Refused(idx[0]) {
      var i :| 0 <= i < m && i < |idx| && Refused(idx[i]);
      assert Refused(idx[1..][i - 1]);
    }
    if i :| 0 <= i < m - 1 && i < |idx[1..]| && Refused(idx[1..][i]) {
      assert Refused(idx[i + 1]);
    }
  }

  /** Every outcome of composing any new indices onto a view: not implemented exactly
      when one of those that meet a slice is refused; an IndexError exactly when
      indices are left over and the last dimension is an int; otherwise a view. */
  lemma {:induction false} ComposeOutcome(shape: seq<nat>, view: seq<Index>, idx: seq<Index>)
    requires ViewOf(shape, view)
    ensures var r := Compose(shape, view, idx);
            && !r.TypeError?
            && (r.NotImplementedError? <==> AnyRefused(idx, SliceCount(view)))
            && (r.IndexError? <==> !AnyRefused(idx, SliceCount(view)) && |idx| > SliceCount(view)
                                   && view != [] && view[|view| - 1].At?)
    decreases |view|
  {
    if view == [] || idx == [] {
    } else {
      assert Entry(shape[0], view[0]);
      forall i | 0 <= i < |view[1..]| ensures Entry(shape[1..][i], view[1..][i]) {
        assert Entry(shape[i + 1], view[i + 1]);
      }
      if view[0].At? {
        ComposeOutcome(shape[1..], view[1..], idx);
      } else {
        EntryPositions(shape[0], view[0]);
        AnyRefusedStep(idx, SliceCount(view));
        ComposeOutcome(shape[1..], view[1..], idx[1..]);
      }
    }
  }

  /** Indices left over after the last slice change nothing when there is no error. */
  lemma {:induction false} LeftOverIgnored(shape: seq<nat>, view: seq<Index>, idx: seq<Index>)
    requires ViewOf(shape, view) && Compose(shape, view, idx).Done? && |idx| >= SliceCount(view)
    ensures Compose(shape, view, idx[..SliceCount(view)]) == Compose(shape, view, idx)
    decreases |view|
  {
    if view == [] || idx == [] {
      assert view == [] || SliceCount(view) == 0;
    } else if SliceCount(view) == 0 {
      ComposeOutcome(shape, view, idx);
      NoSlices(shape, view);
      assert false;
    } else {
      var k := SliceCount(view);
      forall i | 0 <= i < |view[1..]| ensures Entry(shape[1..][i], view[1..][i]) {
        assert Entry(shape[i + 1], view[i + 1]);
      }
      if view[0].At? {
        LeftOverIgnored(shape[1..], view[1..], idx);
      } else {
        LeftOverIgnored(shape[1..], view[1..], idx[1..]);
        assert idx[..k][1..] == idx[1..][..k - 1];
      }
    }
  }

  /** A view of ints only, with something to compose, is an error. */
  lemma {:induction false} NoSlices(shape: seq<nat>, view: seq<Index>)
    requires ViewOf(shape, view) && view != [] && SliceCount(view) == 0
    ensures view[|view| - 1].At?
  {
    assert Entry(shape[0], view[0]) && view[0].At?;
    if |view| == 1 {
    } else {
      forall i | 0 <= i < |view[1..]| ensures Entry(shape[1..][i], view[1..][i]) {
        assert Entry(shape[i + 1], view[i + 1]);
      }
      NoSlices(shape[1..], view[1..]);
    }
  }

  /** x[1, 3] of a one-dimensional array composes to x[1]; x[1][3] is an error. */
  lemma LeftOverExamples()
    ensures Compose([5], FullView(1), [At(1), At(3)]) == Done([At(1)])
    ensures Compose([5], [At(1)], [At(3)]) == IndexError
  {
    var shape: seq<int>, idx := [5], [At(1), At(3)];
    assert ComposeDim(5, FullView(1)[0], At(1)) == Done(At(1)) && [At(1)] + [] == [At(1)];
    assert shape[1..] == [] && FullView(1)[1..] == [] && idx[1..] == [At(3)];
    assert Compose(shape[1..], FullView(1)[1..], idx[1..]) == Done([]);
  }

  /** The view of the whole array. */
  function FullView(n: nat): (view: seq<Index>)
    ensures |view| == n && forall i :: 0 <= i < n ==> view[i] == Slice(None, None, None)
  {
    seq(n, _ => Slice(None, None, None))
  }

  /** Every step of the chain fits the view composed so far. */
  ghost predicate ChainFits(shape: seq<nat>, view: seq<Index>, chain: seq<seq<Index>>)
    requires ViewOf(shape, view)
    decreases |chain|
  {
    chain == [] ||
    (Fits(shape, view, chain[0])
     && (ComposeMeaning(shape, view, chain[0]); ChainFits(shape, Compose(shape, view, chain[0]).value, chain[1..])))
  }

  ghost function ComposeChain(shape: seq<nat>, view: seq<Index>, chain: seq<seq<Index>>): (out: seq<Index>)
    requires ViewOf(shape, view) && ChainFits(shape, view, chain)
    ensures ViewOf(shape, out)
    decreases |chain|
  {
    if chain == [] then view
    else
      ComposeMeaning(shape, view, chain[0]);
      ComposeChain(shape, Compose(shape, view, chain[0]).value, chain[1..])
  }

  /** Indexing step by step. */
  ghost predicate ChainIndexable(sels: seq<Sel>, chain: seq<seq<Index>>)
    decreases |chain|
  {
    chain == [] || (Indexable(sels, chain[0]) && ChainIndexable(NpIndex(sels, chain[0]), chain[1..]))
  }

  ghost function NpChain(sels: seq<Sel>, chain: seq<seq<Index>>): seq<Sel>
    requires ChainIndexable(sels, chain)
    decreases |chain|
  {
    if chain == [] then sels else NpChain(NpIndex(sels, chain[0]), chain[1..])
  }

  /** For any chain of views, the composed view selects the same base elements, in
      the same order, as applying the views one by one. */
  lemma {:induction false} ChainMeaning(shape: seq<nat>, view: seq<Index>, chain: seq<seq<Index>>)
    requires ViewOf(shape, view) && ChainFits(shape, view, chain)
    ensures ChainIndexable(DenoteAll(shape, view), chain)
    ensures NpChain(DenoteAll(shape, view), chain) == DenoteAll(shape, ComposeChain(shape, view, chain))
    decreases |chain|
  {
    if chain == [] {
    } else {
      ComposeMeaning(shape, view, chain[0]);
      ChainMeaning(shape, Compose(shape, view, chain[0]).value, chain[1..]);
    }
  }

  // ------------------------------------------------------------- block ranges

  /** _check_value_in_shape. */
  predicate InBounds(value: int, n: int) {
    !(value < 0 || value > n)
  }

  /** First and last block coordinate that an entry touches. */
  function BlockSpan(n: int, size: int, ix: Index): Outcome<(int, int)>
    requires size >= 1
  {
    match ix
    case At(i) => if InBounds(i, n) then Done((i / size, i / size)) else IndexError
    case Slice(_, _, _) =>
      var r := RemoveNones(ix, n);
      if InBounds(r.stop - 1, n) then Done((r.start / size, (r.stop - 1) / size)) else IndexError
    case Other => TypeError
  }

  /** The spans of all dimensions of a view, unless some bound is out of range. */
  ghost function BlockSpans(shape: seq<int>, size: int, view: seq<Index>): Outcome<seq<(int, int)>>
    requires size >= 1 && |view| <= |shape|
  {
    if forall i :: 0 <= i < |view| ==> BlockSpan(shape[i], size, view[i]).Done? then
      Done(seq(|view|, i requires 0 <= i < |view| => BlockSpan(shape[i], size, view[i]).value))
    else IndexError
  }

  /** calculate_list_of_ranges_of_block_coords: inclusive ranges, one a dimension. */
  method BlockRanges(shape: seq<int>, size: int, view: seq<Index>) returns (res: Outcome<seq<(int, int)>>)
    requires size >= 1 && |view| <= |shape| && NoOther(view)
    ensures res == BlockSpans(shape, size, view)
  {
    var l: seq<(int, int)> := [];
    for d := 0 to |view|
      invariant |l| == d && forall i :: 0 <= i < d ==> Done(l[i]) == BlockSpan(shape[i], size, view[i])
    {
      match view[d]
      case At(i) =>
        if !InBounds(i, shape[d]) { return IndexError; }
        l := l + [(i / size, i / size)];
      case Slice(_, _, _) =>
        var n := RemoveNones(view[d], shape[d]);
        if !InBounds(n.stop - 1, shape[d]) { return IndexError; }
        l := l + [(n.start / size, (n.stop - 1) / size)];
    }
    res := Done(l);
    assert BlockSpans(shape, size, view).value == l;
  }

  lemma DivMono(a: int, b: int, s: int)
    requires s >= 1 && a <= b
    ensures a / s <= b / s
  {
    if a / s > b / s {
      MulLe(b / s + 1, a / s, s);
      MulDist(b / s, 1, s);
    }
  }

  ghost predicate Selects(sel: Sel, p: int) {
    if sel.One? then p == sel.p else p in sel.ps
  }

  /** The block ranges of a view contain the block of every element it selects,
      and the range check lets every view through. */
  lemma SpanCovers(n: nat, size: nat, ix: Index, p: int)
    requires Entry(n, ix) && size >= 1 && Selects(Denote(n, ix), p)
    ensures 0 <= p < n
    ensures BlockSpan(n, size, ix).Done?
    ensures BlockSpan(n, size, ix).value.0 <= p / size <= BlockSpan(n, size, ix).value.1
  {
    if ix.Slice? {
      EntryPositions(n, ix);
      var r := RemoveNones(ix, n);
      var i :| 0 <= i < |Positions(n, ix)| && Positions(n, ix)[i] == p;
      CountIff(r.start, r.stop, r.step, i);
      MulNonNeg(i, r.step);
      DivMono(r.start, p, size);
      DivMono(p, r.stop - 1, size);
    }
  }

  /** The bounds check lets an int equal to the extent through; the block it names
      exists exactly when the extent is not a multiple of the block side. */
  lemma BoundsCheckExact(n: nat, size: nat, i: int)
    requires size >= 1 && InBounds(i, n) && n >= 1
    ensures i / size < (n + size - 1) / size <==> !(i == n && n % size == 0)
  {
    var q, m := n / size, n % size;
    assert n == q * size + m;
    if m == 0 {
      DivModUnique(n + size - 1, size, q, size - 1);
    } else {
      MulDist(q, 1, size);
      DivModUnique(n + size - 1, size, q + 1, m - 1);
    }
    DivBelow(i, size, (n + size - 1) / size);
    if m == 0 { assert i < q * size <==> i != n; }
  }
}
