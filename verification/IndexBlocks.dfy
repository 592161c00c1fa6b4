/** Which index expressions on a whole array name only blocks that exist, decided on the
    expression alone. */
module IndexBlocks {
  import opened Arith
  import opened BlockSets
  import opened Collections
  import opened Slices
  import opened Views

  /** One index that the composer and the bounds check let through: an int from -n to n,
      a slice that does not step back and whose stop does not lie before the front. */
  predicate Passes(n: nat, ix: Index) {
    match ix
    case At(i) => i + n >= 0 && i <= n
    case Slice(_, stop, step) => (step.Some? ==> step.value >= 0) && (stop.Some? ==> stop.value + n >= 0)
    case Other => false
  }

  /** The first position that the composer makes of a slice, and the stop. */
  function FirstOf(n: nat, start: Option<int>): int {
    if start.Some? then Norm(n, start.value) else 0
  }

  function StopOf(n: nat, stop: Option<int>): int {
    if stop.None? || stop.value == 0 || stop.value + n == 0 then n else Min(Norm(n, stop.value), n)
  }

  /** First and last block of one index that passes. */
  function IndexSpan(n: nat, size: int, ix: Index): (int, int)
    requires size >= 1 && Passes(n, ix)
  {
    match ix
    case At(i) => (Norm(n, i) / size, Norm(n, i) / size)
    case Slice(start, stop, _) => (FirstOf(n, start) / size, (StopOf(n, stop) - 1) / size)
  }

  predicate NoBlocks(n: nat, size: int, ix: Index)
    requires size >= 1 && Passes(n, ix)
  {
    IndexSpan(n, size, ix).0 > IndexSpan(n, size, ix).1
  }

  /** An index that names a block that does not exist: the int `n` of a dimension that
      ends with a full block, or a slice from before the front. */
  predicate NamesPhantom(n: nat, size: int, ix: Index)
    requires size >= 1 && Passes(n, ix)
  {
    match ix
    case At(i) => i == n && n % size == 0
    case Slice(start, _, _) => start.Some? && start.value + n < 0
  }

  // ----------------------------------------------------------- one dimension

  const ALL := Slice(None, None, None)

  lemma DimSpan(n: nat, size: int, ix: Index)
    requires n >= 1 && size >= 1
    ensures var c := ComposeDim(n, ALL, ix);
            && (c.Done? ==> !c.value.Other?)
            && (c.Done? && BlockSpan(n, size, c.value).Done? <==> Passes(n, ix))
            && (Passes(n, ix) ==> BlockSpan(n, size, c.value) == Done(IndexSpan(n, size, ix)))
  {
    assert RemoveNones(ALL, n) == Range(0, n, 1);
  }

  /** The blocks of an index that passes exist, unless it names a phantom. */
  lemma SpanExact(n: nat, size: int, ix: Index)
    requires n >= 1 && size >= 1 && Passes(n, ix) && !NoBlocks(n, size, ix)
    ensures var r := IndexSpan(n, size, ix);
            if NamesPhantom(n, size, ix) then !(0 <= r.0 <= (n - 1) / size) else 0 <= r.0 && r.1 <= (n - 1) / size
  {
    match ix
    case At(i) =>
      BoundsCheckExact(n, size, Norm(n, i));
      WholeBlocks(n, size);
      if Norm(n, i) >= 0 { DivMono(0, Norm(n, i), size); }
    case Slice(start, stop, _) =>
      DivMono(StopOf(n, stop) - 1, n - 1, size);
      if FirstOf(n, start) >= 0 { DivMono(0, FirstOf(n, start), size); }
  }

  lemma WholeBlocks(n: nat, size: int)
    requires n >= 1 && size >= 1
    ensures (n + size - 1) / size == (n - 1) / size + 1
  {
    MulDist((n - 1) / size, 1, size);
    DivModUnique(n + size - 1, size, (n - 1) / size + 1, (n - 1) % size);
  }

  // ---------------------------------------------------------- all dimensions

  function Met(shape: seq<nat>, idx: seq<Index>): nat { if |idx| < |shape| then |idx| else |shape| }

  /** Every index that meets a dimension passes. */
  predicate AllPass(shape: seq<nat>, idx: seq<Index>) {
    forall i :: 0 <= i < Met(shape, idx) ==> Passes(shape[i], idx[i])
  }

  /** The expression names no block, or only blocks that exist. */
  predicate OnlyReal(shape: seq<nat>, size: int, idx: seq<Index>)
    requires size >= 1 && AllPass(shape, idx)
  {
    || (exists i :: 0 <= i < Met(shape, idx) && NoBlocks(shape[i], size, idx[i]))
    || (forall i :: 0 <= i < Met(shape, idx) ==> !NamesPhantom(shape[i], size, idx[i]))
  }

  /** Composing onto the whole array goes dimension by dimension. */
  lemma {:induction false} ComposeFull(shape: seq<nat>, idx: seq<Index>)
    requires forall i :: 0 <= i < |shape| ==> shape[i] >= 1
    ensures var c := Compose(shape, FullView(|shape|), idx);
            && (c.Done? <==> forall i :: 0 <= i < Met(shape, idx) ==> ComposeDim(shape[i], ALL, idx[i]).Done?)
            && (c.Done? ==> forall i :: 0 <= i < |shape| ==>
                  c.value[i] == if i < |idx| then ComposeDim(shape[i], ALL, idx[i]).value else ALL)
  {
    var full := FullView(|shape|);
    if shape == [] || idx == [] {
    } else {
      ComposeFull(shape[1..], idx[1..]);
      assert full[1..] == FullView(|shape[1..]|);
      var r := ComposeDim(shape[0], ALL, idx[0]);
      var rest := Compose(shape[1..], full[1..], idx[1..]);
      if rest.Done? {
        forall i | 0 <= i < Met(shape, idx) && i > 0 ensures ComposeDim(shape[i], ALL, idx[i]).Done? {
          assert ComposeDim(shape[1..][i - 1], ALL, idx[1..][i - 1]).Done?;
        }
      } else {
        var i :| 0 <= i < Met(shape[1..], idx[1..]) && !ComposeDim(shape[1..][i], ALL, idx[1..][i]).Done?;
        assert !ComposeDim(shape[i + 1], ALL, idx[i + 1]).Done?;
      }
    }
  }

  /** The block ranges of an expression whose indices pass. */
  ghost function IndexSpans(shape: seq<nat>, size: int, idx: seq<Index>): (rs: seq<(int, int)>)
    requires size >= 1 && AllPass(shape, idx)
    ensures |rs| == |shape|
  {
    seq(|shape|, i requires 0 <= i < |shape| =>
      if i < |idx| then IndexSpan(shape[i], size, idx[i]) else (0, (shape[i] - 1) / size))
  }

  /** The blocks of any expression, or that there is an error. */
  lemma BlocksForExact(shape: seq<nat>, size: int, idx: seq<Index>)
    requires Proper(shape, size)
    ensures BlocksFor(shape, size, idx).Done? <==> AllPass(shape, idx)
    ensures AllPass(shape, idx) ==> BlocksFor(shape, size, idx) == Done(Product(IndexSpans(shape, size, idx)))
  {
    ComposeFull(shape, idx);
    forall i | 0 <= i < Met(shape, idx)
      ensures var c := ComposeDim(shape[i], ALL, idx[i]);
              && (c.Done? && BlockSpan(shape[i], size, c.value).Done? <==> Passes(shape[i], idx[i]))
              && (Passes(shape[i], idx[i]) ==>
                    BlockSpan(shape[i], size, c.value) == Done(IndexSpan(shape[i], size, idx[i])))
    {
      DimSpan(shape[i], size, idx[i]);
    }
    var c := Compose(shape, FullView(|shape|), idx);
    if c.Done? && BlockSpans(shape, size, c.value).Done? {
      forall i | 0 <= i < Met(shape, idx) ensures Passes(shape[i], idx[i]) {
        assert BlockSpan(shape[i], size, c.value[i]).Done?;
      }
    }
    if AllPass(shape, idx) {
      var rs := IndexSpans(shape, size, idx);
      forall i | 0 <= i < |shape| ensures BlockSpan(shape[i], size, c.value[i]) == Done(rs[i]) {
        if i < |idx| { assert Passes(shape[i], idx[i]); }
      }
      assert BlockSpans(shape, size, c.value).value == rs;
    }
  }

  /** An expression that passes names only blocks of the array exactly when it names no
      block at all or no index of it names a phantom. */
  lemma RealBlocksExact(shape: seq<nat>, size: int, idx: seq<Index>)
    requires Proper(shape, size) && AllPass(shape, idx)
    ensures BlocksFor(shape, size, idx).Done?
    ensures BlocksOf(shape, size, BlocksFor(shape, size, idx).value) <==> OnlyReal(shape, size, idx)
  {
    BlocksForExact(shape, size, idx);
    var rs := IndexSpans(shape, size, idx);
    if d :| 0 <= d < Met(shape, idx) && NoBlocks(shape[d], size, idx[d]) {
      forall b ensures b !in Product(rs) { NothingWithin(rs, d, b); }
    } else if d :| 0 <= d < Met(shape, idx) && NamesPhantom(shape[d], size, idx[d]) {
      PhantomNamed(shape, size, idx, d);
    } else {
      AllReal(shape, size, idx);
    }
  }

  lemma AllReal(shape: seq<nat>, size: int, idx: seq<Index>)
    requires Proper(shape, size) && AllPass(shape, idx)
    requires forall i :: 0 <= i < Met(shape, idx) ==> !NoBlocks(shape[i], size, idx[i])
    requires forall i :: 0 <= i < Met(shape, idx) ==> !NamesPhantom(shape[i], size, idx[i])
    ensures BlocksOf(shape, size, Product(IndexSpans(shape, size, idx)))
  {
    var rs := IndexSpans(shape, size, idx);
    forall b | b in Product(rs) ensures Within(WholeSpans(shape, size), b) {
      ProductHas(rs, b);
      forall i | 0 <= i < |b| ensures 0 <= b[i] <= (shape[i] - 1) / size {
        assert rs[i].0 <= b[i] <= rs[i].1;
        if i < |idx| { SpanExact(shape[i], size, idx[i]); }
      }
    }
  }

  lemma PhantomNamed(shape: seq<nat>, size: int, idx: seq<Index>, d: nat)
    requires Proper(shape, size) && AllPass(shape, idx)
    requires forall i :: 0 <= i < Met(shape, idx) ==> !NoBlocks(shape[i], size, idx[i])
    requires d < Met(shape, idx) && NamesPhantom(shape[d], size, idx[d])
    ensures !BlocksOf(shape, size, Product(IndexSpans(shape, size, idx)))
  {
    var rs := IndexSpans(shape, size, idx);
    var b := seq(|rs|, i requires 0 <= i < |rs| => rs[i].0);
    FirstBlocks(shape, size, idx, b);
    ProductHas(rs, b);
    SpanExact(shape[d], size, idx[d]);
    assert !(WholeSpans(shape, size)[d].0 <= b[d] <= WholeSpans(shape, size)[d].1);
  }

  lemma NothingWithin(rs: seq<(int, int)>, d: nat, b: Coord)
    requires d < |rs| && rs[d].0 > rs[d].1
    ensures b !in Product(rs)
  {
    ProductHas(rs, b);
  }

  /** The first block in every dimension is one of the blocks, unless there are none. */
  lemma FirstBlocks(shape: seq<nat>, size: int, idx: seq<Index>, b: Coord)
    requires Proper(shape, size) && AllPass(shape, idx)
    requires forall i :: 0 <= i < Met(shape, idx) ==> !NoBlocks(shape[i], size, idx[i])
    requires |b| == |shape| && forall i :: 0 <= i < |b| ==> b[i] == IndexSpans(shape, size, idx)[i].0
    ensures Within(IndexSpans(shape, size, idx), b)
  {
    forall i | 0 <= i < |b| ensures b[i] <= IndexSpans(shape, size, idx)[i].1 {
      if i < |idx| { assert !NoBlocks(shape[i], size, idx[i]); } else { DivMono(0, shape[i] - 1, size); }
    }
  }
}
