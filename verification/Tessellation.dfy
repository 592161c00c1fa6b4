/** The recursive copies between an array and a dense block.  A `false` result
    stands for the ModuleException of an out-of-memory access. */
module Tessellation {
  import opened Arith
  import opened Boxes

  newtype Byte = x: int | 0 <= x < 256

  /** Bytes spanned by one subset of the leading dimension, in the array and in
      the block. */
  method SubsetSizes(dims: seq<nat>, blockDims: seq<nat>, elemSize: nat) returns (dimsProd: nat, blockDimsProd: nat)
    requires |dims| == |blockDims|
    ensures dimsProd == Bytes(dims, elemSize) && blockDimsProd == Bytes(blockDims, elemSize)
  {
    dimsProd, blockDimsProd := elemSize, elemSize;
    for i := 0 to |dims|
      invariant dimsProd == Prod(dims[..i]) * elemSize
      invariant blockDimsProd == Prod(blockDims[..i]) * elemSize
    {
      ProdPrefix(dims, i);
      ProdPrefix(blockDims, i);
      Swap(Prod(dims[..i]), elemSize, dims[i]);
      Swap(Prod(blockDims[..i]), elemSize, blockDims[i]);
      dimsProd := dimsProd * dims[i];
      blockDimsProd := blockDimsProd * blockDims[i];
    }
    assert dims[..|dims|] == dims && blockDims[..|dims|] == blockDims;
    BytesProd(dims, elemSize);
    BytesProd(blockDims, elemSize);
  }

  lemma Swap(a: int, b: int, c: int)
    ensures (a * b) * c == (a * c) * b
  {}

  lemma SubsetSpan(i: nat, s: nat, p: nat)
    requires i * s <= p < i * s + s
    ensures p / s == i && p % s == p - i * s
  {
    DivModUnique(p, s, i, p - i * s);
  }

  /** Copies the block of shape `blockDims` found at `data[from..]` densely to
      `out[to..]`.  It fails exactly when the block does not fit before `end`. */
  method Tessellate(dims: seq<nat>, blockDims: seq<nat>, elemSize: nat,
                    data: array<Byte>, from: nat, out: array<Byte>, to: nat, end: nat) returns (ok: bool)
    requires Shapes(dims, blockDims, elemSize)
    requires data != out && end <= out.Length
    requires from + Extent(dims, blockDims, elemSize) <= data.Length
    modifies out
    ensures ok <==> to + Bytes(blockDims, elemSize) <= end
    ensures ok ==> forall p :: 0 <= p < Bytes(blockDims, elemSize) ==>
                     0 <= Src(dims, blockDims, elemSize, p) < Extent(dims, blockDims, elemSize)
                     && out[to + p] == data[from + Src(dims, blockDims, elemSize, p)]
    ensures forall k :: 0 <= k < out.Length && !(to <= k < to + Bytes(blockDims, elemSize)) ==> out[k] == old(out[k])
    decreases |dims|
  {
    var elementsLastDim := blockDims[|blockDims| - 1];
    if |dims| == 1 {
      BytesOne(blockDims, elemSize);
      if to + elementsLastDim * elemSize > end {
        return false;
      }
      forall i | 0 <= i < elementsLastDim * elemSize {
        out[to + i] := data[from + i];
      }
      return true;
    }
    var elementsCurrentDim := blockDims[0];
    var restBlock, rest := blockDims[1..], dims[1..];
    var dimsProd, blockDimsProd := SubsetSizes(rest, restBlock, elemSize);
    ShapesTail(dims, blockDims, elemSize);
    BytesProd(restBlock, elemSize);
    ProdLastExact(restBlock, elemSize);
    var outputOffset := (blockDimsProd / restBlock[|restBlock| - 1]) * elementsLastDim;
    assert outputOffset == blockDimsProd;

    var subset: nat := 0;
    while subset < elementsCurrentDim
      invariant subset <= elementsCurrentDim
      invariant subset > 0 ==> to + subset * outputOffset <= end
      invariant forall p :: 0 <= p < subset * outputOffset ==>
                  0 <= Src(dims, blockDims, elemSize, p) < Extent(dims, blockDims, elemSize)
                  && to + p < out.Length && out[to + p] == data[from + Src(dims, blockDims, elemSize, p)]
      invariant forall k :: 0 <= k < out.Length && !(to <= k < to + subset * outputOffset) ==> out[k] == old(out[k])
    {
      MulLe(subset, elementsCurrentDim - 1, dimsProd);
      MulLe(subset + 1, elementsCurrentDim, outputOffset);
      MulDist(subset, 1, outputOffset);
      MulNonNeg(subset, dimsProd);
      MulNonNeg(subset, outputOffset);
      label before:
      ok := Tessellate(rest, restBlock, elemSize, data, from + subset * dimsProd, out, to + subset * outputOffset, end);
      if !ok {
        return;
      }
      forall p | 0 <= p < (subset + 1) * outputOffset
        ensures 0 <= Src(dims, blockDims, elemSize, p) < Extent(dims, blockDims, elemSize)
        ensures to + p < out.Length && out[to + p] == data[from + Src(dims, blockDims, elemSize, p)]
      {
        if p < subset * outputOffset {
          assert out[to + p] == old@before(out[to + p]);
        } else {
          SubsetSpan(subset, outputOffset, p);
          var p' := p - subset * outputOffset;
          assert out[to + subset * outputOffset + p']
              == data[from + subset * dimsProd + Src(rest, restBlock, elemSize, p')];
        }
      }
      subset := subset + 1;
    }
    ok := true;
  }

  /** Array byte `k` once the block has been pasted at `to`. */
  ghost function Pasted(dims: seq<nat>, b: seq<nat>, e: nat, was: Byte, to: nat, block: seq<Byte>, from: nat,
                        k: nat): Byte
    requires Shapes(dims, b, e) && from + Bytes(b, e) <= |block|
  {
    if to <= k && InBlock(dims, b, e, k - to) then
      RelInBlock(dims, b, e, k - to);
      block[from + Rel(dims, b, e, k - to)]
    else
      was
  }

  ghost predicate IsPaste(dims: seq<nat>, b: seq<nat>, e: nat,
                          was: seq<Byte>, now: seq<Byte>, to: nat, block: seq<Byte>, from: nat)
    requires Shapes(dims, b, e) && from + Bytes(b, e) <= |block|
  {
    && |now| == |was|
    && forall k :: 0 <= k < |now| ==> now[k] == Pasted(dims, b, e, was[k], to, block, from, k)
  }

  ghost predicate Untouched(dims: seq<nat>, b: seq<nat>, e: nat, was: seq<Byte>, now: seq<Byte>, to: nat)
    requires Shapes(dims, b, e)
  {
    && |now| == |was|
    && forall k :: 0 <= k < |now| && (k < to || !InBlock(dims, b, e, k - to)) ==> now[k] == was[k]
  }

  /** The first `n` subsets of the block have been pasted.  `end` is how far the
      pasted part of the block reaches. */
  ghost predicate RowsPasted(dims: seq<nat>, b: seq<nat>, e: nat,
                             was: seq<Byte>, now: seq<Byte>, to: nat, block: seq<Byte>, from: nat, n: nat)
    requires Shapes(dims, b, e) && |dims| > 1
  {
    ShapesTail(dims, b, e);
    && |now| == |was|
    && forall k :: 0 <= k < |now| ==> now[k] == RowPasted(dims, b, e, was[k], to, block, from, n, k)
  }

  ghost function RowPasted(dims: seq<nat>, b: seq<nat>, e: nat, was: Byte, to: nat, block: seq<Byte>, from: nat,
                           n: nat, k: nat): Byte
    requires Shapes(dims, b, e) && |dims| > 1
  {
    ShapesTail(dims, b, e);
    if to <= k && InBlock(dims, b, e, k - to) && Quot(k - to, Bytes(dims[1..], e)) < n
       && from + Rel(dims, b, e, k - to) < |block| then
      block[from + Rel(dims, b, e, k - to)]
    else
      was
  }

  /** One position after the paste of subset `n`. */
  lemma NextRowAt(dims: seq<nat>, b: seq<nat>, e: nat, was: Byte, mid: Byte, now: Byte,
                  to: nat, block: seq<Byte>, from: nat, n: nat, t: nat, s: nat, k: nat)
    requires Shapes(dims, b, e) && |dims| > 1 && n < b[0]
    requires Shapes(dims[1..], b[1..], e)
    requires t == Bytes(dims[1..], e) > 0 && s == Bytes(b[1..], e) > 0
    requires from + n * s + s <= |block|
    requires mid == RowPasted(dims, b, e, was, to, block, from, n, k)
    requires now == Pasted(dims[1..], b[1..], e, mid, to + n * t, block, from + n * s, k)
    ensures now == RowPasted(dims, b, e, was, to, block, from, n + 1, k)
  {
    if to <= k {
      SubsetRow(dims, b, e, n, k - to, t, s);
      if to + n * t <= k && InBlock(dims[1..], b[1..], e, k - (to + n * t)) {
        assert k - (to + n * t) == k - to - n * t;
        RelInBlock(dims[1..], b[1..], e, k - to - n * t);
      }
    } else {
      MulNonNeg(n, t);
    }
  }

  lemma NextRow(dims: seq<nat>, b: seq<nat>, e: nat, was: seq<Byte>, mid: seq<Byte>, now: seq<Byte>,
                to: nat, block: seq<Byte>, from: nat, n: nat, t: nat, s: nat)
    requires Shapes(dims, b, e) && |dims| > 1 && n < b[0]
    requires Shapes(dims[1..], b[1..], e)
    requires t == Bytes(dims[1..], e) > 0 && s == Bytes(b[1..], e) > 0
    requires from + n * s + s <= |block|
    requires RowsPasted(dims, b, e, was, mid, to, block, from, n)
    requires IsPaste(dims[1..], b[1..], e, mid, now, to + n * t, block, from + n * s)
    ensures RowsPasted(dims, b, e, was, now, to, block, from, n + 1)
  {
    forall k | 0 <= k < |now|
      ensures now[k] == RowPasted(dims, b, e, was[k], to, block, from, n + 1, k)
    {
      assert mid[k] == RowPasted(dims, b, e, was[k], to, block, from, n, k);
      NextRowAt(dims, b, e, was[k], mid[k], now[k], to, block, from, n, t, s, k);
    }
  }

  lemma AllRows(dims: seq<nat>, b: seq<nat>, e: nat, was: seq<Byte>, now: seq<Byte>, to: nat, block: seq<Byte>,
                from: nat)
    requires Shapes(dims, b, e) && |dims| > 1 && from + Bytes(b, e) <= |block|
    requires RowsPasted(dims, b, e, was, now, to, block, from, b[0])
    ensures IsPaste(dims, b, e, was, now, to, block, from)
  {
    ShapesTail(dims, b, e);
    forall k | 0 <= k < |now|
      ensures now[k] == Pasted(dims, b, e, was[k], to, block, from, k)
    {
      assert now[k] == RowPasted(dims, b, e, was[k], to, block, from, b[0], k);
      if to <= k && InBlock(dims, b, e, k - to) {
        RelInBlock(dims, b, e, k - to);
      }
    }
  }

  /** A row that fails to paste leaves everything outside the block alone. */
  lemma FailedRow(dims: seq<nat>, b: seq<nat>, e: nat, was: seq<Byte>, mid: seq<Byte>, now: seq<Byte>,
                  to: nat, block: seq<Byte>, from: nat, n: nat, t: nat)
    requires Shapes(dims, b, e) && |dims| > 1 && n < b[0]
    requires Shapes(dims[1..], b[1..], e)
    requires t == Bytes(dims[1..], e) > 0 && Bytes(b[1..], e) > 0
    requires RowsPasted(dims, b, e, was, mid, to, block, from, n)
    requires Untouched(dims[1..], b[1..], e, mid, now, to + n * t)
    ensures Untouched(dims, b, e, was, now, to)
  {
    forall k | 0 <= k < |now| && (k < to || !InBlock(dims, b, e, k - to))
      ensures now[k] == was[k]
    {
      assert mid[k] == RowPasted(dims, b, e, was[k], to, block, from, n, k);
      MulNonNeg(n, t);
      if to <= k {
        SubsetRow(dims, b, e, n, k - to, t, Bytes(b[1..], e));
        assert k - (to + n * t) == k - to - n * t;
      }
    }
  }

  /** Copies a dense block found at `block[from..end]` into the box of shape
      `blockShape` at `arr[to..]`.  It fails exactly when the box asks for more
      bytes than the block holds; only positions of the box ever change. */
  method CopyBlockToArray(dims: seq<nat>, blockShape: seq<nat>, elemSize: nat,
                          arr: array<Byte>, to: nat, block: seq<Byte>, from: nat, end: nat) returns (ok: bool)
    requires Shapes(dims, blockShape, elemSize)
    requires end <= |block|
    requires to + Extent(dims, blockShape, elemSize) <= arr.Length
    modifies arr
    ensures ok <==> from + Bytes(blockShape, elemSize) <= end
    ensures ok ==> IsPaste(dims, blockShape, elemSize, old(arr[..]), arr[..], to, block, from)
    ensures Untouched(dims, blockShape, elemSize, old(arr[..]), arr[..], to)
    decreases |dims|
  {
    var elementsLastDim := blockShape[|blockShape| - 1];
    if |dims| == 1 {
      BytesOne(blockShape, elemSize);
      if from + elementsLastDim * elemSize > end {
        return false;
      }
      forall i | 0 <= i < elementsLastDim * elemSize {
        arr[to + i] := block[from + i];
      }
      return true;
    }
    var elementsCurrentDim := blockShape[0];
    var restShape, rest := blockShape[1..], dims[1..];
    var dimsProd, blockDimsProd := SubsetSizes(rest, restShape, elemSize);
    ShapesTail(dims, blockShape, elemSize);
    BytesProd(restShape, elemSize);
    ProdLastExact(restShape, elemSize);
    var outputOffset := (blockDimsProd / restShape[|restShape| - 1]) * elementsLastDim;
    assert outputOffset == blockDimsProd;

    ghost var was := arr[..];
    var subset: nat := 0;
    while subset < elementsCurrentDim
      invariant subset <= elementsCurrentDim
      invariant subset > 0 ==> from + subset * outputOffset <= end
      invariant RowsPasted(dims, blockShape, elemSize, was, arr[..], to, block, from, subset)
    {
      MulLe(subset, elementsCurrentDim - 1, dimsProd);
      MulLe(subset + 1, elementsCurrentDim, outputOffset);
      MulDist(subset, 1, outputOffset);
      MulNonNeg(subset, dimsProd);
      MulNonNeg(subset, outputOffset);
      ghost var mid := arr[..];
      ok := CopyBlockToArray(rest, restShape, elemSize, arr, to + subset * dimsProd, block, from
          + subset * outputOffset, end);
      if !ok {
        FailedRow(dims, blockShape, elemSize, was, mid, arr[..], to, block, from, subset, dimsProd);
        return;
      }
      NextRow(dims, blockShape, elemSize, was, mid, arr[..], to, block, from, subset, dimsProd, outputOffset);
      subset := subset + 1;
    }
    ok := true;
    AllRows(dims, blockShape, elemSize, was, arr[..], to, block, from);
    PasteUntouched(dims, blockShape, elemSize, was, arr[..], to, block, from);
  }

  lemma PasteUntouched(dims: seq<nat>, b: seq<nat>, e: nat, was: seq<Byte>, now: seq<Byte>, to: nat,
                       block: seq<Byte>, from: nat)
    requires Shapes(dims, b, e) && from + Bytes(b, e) <= |block|
    requires IsPaste(dims, b, e, was, now, to, block, from)
    ensures Untouched(dims, b, e, was, now, to)
  {}

  /** The positions of one subset of the block are the positions of the smaller
      block one dimension down. */
  lemma SubsetRow(dims: seq<nat>, b: seq<nat>, e: nat, subset: nat, k: nat, t: nat, s: nat)
    requires Shapes(dims, b, e) && |dims| > 1 && subset < b[0]
    requires Shapes(dims[1..], b[1..], e)
    requires t == Bytes(dims[1..], e) > 0 && s == Bytes(b[1..], e) > 0
    ensures k / t == subset && InBlock(dims, b, e, k)
            <==> subset * t <= k && InBlock(dims[1..], b[1..], e, k - subset * t)
    ensures k / t == subset && InBlock(dims, b, e, k) ==>
              Rel(dims, b, e, k) == subset * s + Rel(dims[1..], b[1..], e, k - subset * t)
  {
    if subset * t <= k && InBlock(dims[1..], b[1..], e, k - subset * t) {
      InBlockBound(dims[1..], b[1..], e, k - subset * t);
      SubsetSpan(subset, t, k);
    }
    if k / t == subset {
      SubsetSpan(subset, t, k);
    }
  }
}
