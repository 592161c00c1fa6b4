/** Where the bytes of a block live inside the flat buffer of its array.

    An array of shape `dims` with elements of `e` bytes is a flat row-major
    buffer.  A block is a box of shape `b` inside it, itself stored densely.
    Positions are relative to the first byte of the block: `InBlock` says which
    array positions belong to the block, `Src` maps a dense block position to
    the array and `Rel` maps back. */
module Boxes {
  import opened Arith
  import opened MixedRadix

  /** Bytes of a dense array of shape `s`. */
  ghost function Bytes(s: seq<nat>, e: nat): nat {
    if s == [] then e else s[0] * Bytes(s[1..], e)
  }

  lemma {:induction false} BytesProd(s: seq<nat>, e: nat)
    ensures Bytes(s, e) == Prod(s) * e
  {
    if s == [] {
    } else {
      BytesProd(s[1..], e);
      MulAssoc(s[0], Prod(s[1..]), e);
    }
  }

  lemma {:induction false} BytesPos(s: seq<nat>, e: nat)
    requires AllPos(s) && e >= 1
    ensures 0 < Bytes(s, e)
  {
    if s == [] {
    } else {
      BytesPos(s[1..], e);
      MulPos(s[0], Bytes(s[1..], e));
    }
  }

  lemma BytesOne(s: seq<nat>, e: nat)
    requires |s| == 1
    ensures Bytes(s, e) == s[0] * e
  {
    assert s[1..] == [];
    assert Bytes(s[1..], e) == e;
  }

  /** First byte of the cell at `ix`. */
  ghost function ByteRank(dims: seq<nat>, ix: seq<nat>, e: nat): nat
    requires |ix| == |dims|
  {
    if dims == [] then 0 else ix[0] * Bytes(dims[1..], e) + ByteRank(dims[1..], ix[1..], e)
  }

  lemma {:induction false} ByteRankIsRank(dims: seq<nat>, ix: seq<nat>, e: nat)
    requires |ix| == |dims|
    ensures ByteRank(dims, ix, e) == Rank(dims, ix) * e
  {
    if dims == [] {
    } else {
      ByteRankIsRank(dims[1..], ix[1..], e);
      BytesProd(dims[1..], e);
      MulAssoc(ix[0], Prod(dims[1..]), e);
      MulDist(ix[0] * Prod(dims[1..]), Rank(dims[1..], ix[1..]), e);
    }
  }

  lemma ByteRankOne(dims: seq<nat>, ix: seq<nat>, e: nat)
    requires |ix| == |dims| == 1
    ensures ByteRank(dims, ix, e) == ix[0] * e
  {
    assert dims[1..] == [] && ix[1..] == [];
    assert Bytes(dims[1..], e) == e;
  }

  ghost predicate Shapes(dims: seq<nat>, b: seq<nat>, e: nat) {
    && |dims| == |b| >= 1 && e >= 1 && AllPos(b)
    && forall i :: 0 <= i < |b| ==> b[i] <= dims[i]
  }

  lemma ShapesTail(dims: seq<nat>, b: seq<nat>, e: nat)
    requires Shapes(dims, b, e) && |dims| > 1
    ensures Shapes(dims[1..], b[1..], e)
    ensures 0 < Bytes(b[1..], e) && 0 < Bytes(dims[1..], e)
  {
    assert AllPos(dims[1..]) by {
      forall i | 0 <= i < |dims[1..]| ensures 0 < dims[1..][i] { assert 0 < b[i + 1] <= dims[i + 1]; }
    }
    BytesPos(b[1..], e);
    BytesPos(dims[1..], e);
  }

  ghost function Src(dims: seq<nat>, b: seq<nat>, e: nat, p: nat): nat
    requires Shapes(dims, b, e)
  {
    if |dims| == 1 then p
    else
      ShapesTail(dims, b, e);
      var s, t := Bytes(b[1..], e), Bytes(dims[1..], e);
      MulNonNeg(p / s, t);
      (p / s) * t + Src(dims[1..], b[1..], e, p % s)
  }

  ghost predicate InBlock(dims: seq<nat>, b: seq<nat>, e: nat, k: nat)
    requires Shapes(dims, b, e)
  {
    if |dims| == 1 then k < b[0] * e
    else
      ShapesTail(dims, b, e);
      var t := Bytes(dims[1..], e);
      k / t < b[0] && InBlock(dims[1..], b[1..], e, k % t)
  }

  ghost function Rel(dims: seq<nat>, b: seq<nat>, e: nat, k: nat): nat
    requires Shapes(dims, b, e)
  {
    if |dims| == 1 then k
    else
      ShapesTail(dims, b, e);
      var s, t := Bytes(b[1..], e), Bytes(dims[1..], e);
      MulNonNeg(k / t, s);
      (k / t) * s + Rel(dims[1..], b[1..], e, k % t)
  }

  /** One past the last array position of the block. */
  ghost function Extent(dims: seq<nat>, b: seq<nat>, e: nat): nat
    requires Shapes(dims, b, e)
  {
    if |dims| == 1 then b[0] * e
    else
      ShapesTail(dims, b, e);
      MulNonNeg(b[0] - 1, Bytes(dims[1..], e));
      (b[0] - 1) * (Bytes(dims[1..], e)) + Extent(dims[1..], b[1..], e)
  }

  /** A block of shape `b` whose corner is at `lo` stays inside the array. */
  lemma {:induction false} ExtentFits(dims: seq<nat>, b: seq<nat>, e: nat, lo: seq<nat>)
    requires Shapes(dims, b, e) && |lo| == |dims|
    requires forall i :: 0 <= i < |b| ==> lo[i] + b[i] <= dims[i]
    ensures ByteRank(dims, lo, e) + Extent(dims, b, e) <= Bytes(dims, e)
  {
    if |dims| == 1 {
      BytesOne(dims, e);
      ByteRankOne(dims, lo, e);
      MulLe(lo[0] + b[0], dims[0], e);
      MulDist(lo[0], b[0], e);
    } else {
      ShapesTail(dims, b, e);
      ExtentFits(dims[1..], b[1..], e, lo[1..]);
      var t := Bytes(dims[1..], e);
      MulDist(lo[0], b[0] - 1, t);
      MulDist(lo[0] + b[0] - 1, 1, t);
      MulLe(lo[0] + b[0], dims[0], t);
    }
  }

  lemma {:induction false} InBlockBound(dims: seq<nat>, b: seq<nat>, e: nat, k: nat)
    requires Shapes(dims, b, e) && InBlock(dims, b, e, k)
    ensures k < Extent(dims, b, e) <= Bytes(dims, e)
  {
    var zero := seq(|dims|, _ => 0);
    ByteRankZero(dims, zero, e);
    ExtentFits(dims, b, e, zero);
    if |dims| <= 1 {
    } else {
      ShapesTail(dims, b, e);
      var t := Bytes(dims[1..], e);
      InBlockBound(dims[1..], b[1..], e, k % t);
      PosBound(k, t, b[0], Extent(dims[1..], b[1..], e));
    }
  }

  lemma {:induction false} ByteRankZero(dims: seq<nat>, ix: seq<nat>, e: nat)
    requires |ix| == |dims| && forall i :: 0 <= i < |ix| ==> ix[i] == 0
    ensures ByteRank(dims, ix, e) == 0
  {
    if dims == [] {
    } else {
      ByteRankZero(dims[1..], ix[1..], e);
    }
  }

  /** Dense block positions map into the block, and back to themselves. */
  lemma {:induction false} SrcInBlock(dims: seq<nat>, b: seq<nat>, e: nat, p: nat)
    requires Shapes(dims, b, e) && p < Bytes(b, e)
    ensures InBlock(dims, b, e, Src(dims, b, e, p))
    ensures Rel(dims, b, e, Src(dims, b, e, p)) == p
  {
    if |dims| == 1 {
      BytesOne(b, e);
    } else {
      ShapesTail(dims, b, e);
      var s, t := Bytes(b[1..], e), Bytes(dims[1..], e);
      DivBelow(p, s, b[0]);
      SrcInBlock(dims[1..], b[1..], e, p % s);
      var rest := Src(dims[1..], b[1..], e, p % s);
      InBlockBound(dims[1..], b[1..], e, rest);
      DivModUnique(Src(dims, b, e, p), t, p / s, rest);
    }
  }

  /** Array positions of the block map to dense positions, and back. */
  lemma {:induction false} RelInBlock(dims: seq<nat>, b: seq<nat>, e: nat, k: nat)
    requires Shapes(dims, b, e) && InBlock(dims, b, e, k)
    ensures Rel(dims, b, e, k) < Bytes(b, e)
    ensures Src(dims, b, e, Rel(dims, b, e, k)) == k
  {
    if |dims| == 1 {
      BytesOne(b, e);
    } else {
      ShapesTail(dims, b, e);
      var s, t := Bytes(b[1..], e), Bytes(dims[1..], e);
      var q, m := Quot(k, t), k % t;
      RelInBlock(dims[1..], b[1..], e, m);
      var rest := Rel(dims[1..], b[1..], e, m);
      MulNonNeg(q, s);
      var p := q * s + rest;
      assert Rel(dims, b, e, k) == p;
      DivModUnique(p, s, q, rest);
      MulLe(q + 1, b[0], s);
      MulDist(q, 1, s);
      assert Src(dims, b, e, p) == q * t + Src(dims[1..], b[1..], e, rest);
      DivSplit(k, t);
    }
  }

  // ---------------------------------------------------------------- the grid

  /** Number of blocks that cover a dimension of `d` elements. */
  function CeilDiv(d: nat, r: nat): nat
    requires r >= 1
  {
    (d + r - 1) / r
  }

  function BlocksDim(dims: seq<nat>, r: nat): (bd: seq<nat>)
    requires r >= 1
    ensures |bd| == |dims|
    ensures forall i :: 0 <= i < |dims| ==> bd[i] == CeilDiv(dims[i], r)
  {
    seq(|dims|, i requires 0 <= i < |dims| => CeilDiv(dims[i], r))
  }

  ghost function Corner(cc: seq<nat>, r: nat): (lo: seq<nat>)
    ensures |lo| == |cc|
    ensures forall i :: 0 <= i < |cc| ==> lo[i] == cc[i] * r
  {
    seq(|cc|, i requires 0 <= i < |cc| => cc[i] * r)
  }

  /** Elements of the block `cc` along one dimension: `r`, or what is left. */
  ghost function Side(d: nat, r: nat, c: nat): nat
    requires r >= 1 && c < CeilDiv(d, r)
  {
    SideFits(d, r, c);
    if c == CeilDiv(d, r) - 1 then d - c * r else r
  }

  lemma SideFits(d: nat, r: nat, c: nat)
    requires r >= 1 && c < CeilDiv(d, r)
    ensures c * r < d
    ensures c == CeilDiv(d, r) - 1 ==> d - c * r <= r
    ensures c != CeilDiv(d, r) - 1 ==> c * r + r <= d
  {
    var n := CeilDiv(d, r);
    assert d + r - 1 == n * r + (d + r - 1) % r;
    if c == n - 1 {
      assert n * r == c * r + r;
    } else {
      MulLe(c + 2, n, r);
      assert (c + 2) * r == c * r + 2 * r;
    }
  }

  ghost function Sides(dims: seq<nat>, r: nat, cc: seq<nat>): (b: seq<nat>)
    requires r >= 1 && InShape(cc, BlocksDim(dims, r))
    ensures |b| == |dims|
  {
    seq(|dims|, i requires 0 <= i < |dims| => Side(dims[i], r, cc[i]))
  }

  lemma SidesFit(dims: seq<nat>, r: nat, cc: seq<nat>, e: nat)
    requires r >= 1 && e >= 1 && dims != [] && InShape(cc, BlocksDim(dims, r))
    ensures Shapes(dims, Sides(dims, r, cc), e)
    ensures forall i :: 0 <= i < |dims| ==> Corner(cc, r)[i] + Sides(dims, r, cc)[i] <= dims[i]
    ensures forall i :: 0 <= i < |dims| ==> Sides(dims, r, cc)[i] <= r
  {
    forall i | 0 <= i < |dims|
      ensures 0 < Sides(dims, r, cc)[i] <= r
      ensures Corner(cc, r)[i] + Sides(dims, r, cc)[i] <= dims[i]
    {
      SideFits(dims[i], r, cc[i]);
    }
  }

  /** Block coordinates of the block that owns array byte `q`. */
  ghost function Owner(dims: seq<nat>, r: nat, e: nat, q: nat): (cc: seq<nat>)
    requires r >= 1 && e >= 1 && dims != [] && AllPos(dims)
    ensures |cc| == |dims|
  {
    if |dims| == 1 then [Quot(Quot(q, e), r)]
    else
      BytesPos(dims[1..], e);
      var t := Bytes(dims[1..], e);
      [Quot(Quot(q, t), r)] + Owner(dims[1..], r, e, q % t)
  }

  lemma DivCeil(x: nat, d: nat, r: nat)
    requires r >= 1 && x < d
    ensures x / r < CeilDiv(d, r)
  {
    DivBelow(x, r, CeilDiv(d, r));
    var n := CeilDiv(d, r);
    assert d + r - 1 == n * r + (d + r - 1) % r;
  }

  /** Every byte of the array is owned by a block of the grid. */
  lemma {:induction false} OwnerInGrid(dims: seq<nat>, r: nat, e: nat, q: nat)
    requires r >= 1 && e >= 1 && dims != [] && AllPos(dims) && q < Bytes(dims, e)
    ensures InShape(Owner(dims, r, e, q), BlocksDim(dims, r))
  {
    if |dims| == 1 {
      BytesOne(dims, e);
      HeadInGrid(q, e, dims[0], r);
    } else {
      BytesPos(dims[1..], e);
      var t := Bytes(dims[1..], e);
      HeadInGrid(q, t, dims[0], r);
      OwnerInGrid(dims[1..], r, e, q % t);
      forall i | 0 < i < |dims|
        ensures Owner(dims, r, e, q)[i] < BlocksDim(dims, r)[i]
      {
        assert Owner(dims, r, e, q)[i] == Owner(dims[1..], r, e, q % t)[i - 1];
        assert BlocksDim(dims, r)[i] == BlocksDim(dims[1..], r)[i - 1];
      }
    }
  }

  lemma HeadInGrid(q: nat, t: nat, d: nat, r: nat)
    requires t >= 1 && r >= 1 && q < d * t
    ensures q / t / r < CeilDiv(d, r)
  {
    DivBelow(q, t, d);
    DivCeil(q / t, d, r);
  }

  /** One dimension: `x` lies in the side of block `c` exactly when `c == x / r`. */
  lemma SideOwner(d: nat, r: nat, c: nat, x: nat)
    requires r >= 1 && c < CeilDiv(d, r) && x < d
    ensures x / r == c <==> c * r <= x < c * r + Side(d, r, c)
  {
    SideFits(d, r, c);
    var lo := c * r;
    if lo <= x < lo + r {
      DivModUnique(x, r, c, x - lo);
    } else if x / r == c {
      DivSplit(x, r);
    }
  }

  /** First array byte of block `cc`. */
  ghost function Start(dims: seq<nat>, r: nat, e: nat, cc: seq<nat>): nat
    requires |cc| == |dims|
  {
    ByteRank(dims, Corner(cc, r), e)
  }

  /** The bytes of block `cc` are exactly the bytes that `cc` owns, so the
      blocks of the grid partition the array. */
  lemma {:induction false} OwnerIffInBlock(dims: seq<nat>, r: nat, e: nat, cc: seq<nat>, q: nat)
    requires r >= 1 && e >= 1 && dims != [] && AllPos(dims)
    requires InShape(cc, BlocksDim(dims, r)) && q < Bytes(dims, e)
    ensures Shapes(dims, Sides(dims, r, cc), e)
    ensures Owner(dims, r, e, q) == cc
            <==> Start(dims, r, e, cc) <= q && InBlock(dims, Sides(dims, r, cc), e, q - Start(dims, r, e, cc))
    decreases |dims|, 1
  {
    SidesFit(dims, r, cc, e);
    if |dims| == 1 {
      OwnerIffInBlock1(dims, r, e, cc, q);
    } else {
      OwnerIffInBlockN(dims, r, e, cc, q);
    }
  }

  lemma OwnerIffInBlock1(dims: seq<nat>, r: nat, e: nat, cc: seq<nat>, q: nat)
    requires r >= 1 && e >= 1 && |dims| == 1
    requires InShape(cc, BlocksDim(dims, r)) && q < Bytes(dims, e)
    requires Shapes(dims, Sides(dims, r, cc), e)
    ensures q / e / r == cc[0]
            <==> Start(dims, r, e, cc) <= q && InBlock(dims, Sides(dims, r, cc), e, q - Start(dims, r, e, cc))
  {
    BytesOne(dims, e);
    ByteRankOne(dims, Corner(cc, r), e);
    var c, b := cc[0], Sides(dims, r, cc)[0];
    HeadSide(q, e, dims[0], r, c);
    SideBytes(e, q, c * r, b);
  }

  lemma HeadSide(q: nat, t: nat, d: nat, r: nat, c: nat)
    requires t >= 1 && r >= 1 && q < d * t && c < CeilDiv(d, r)
    ensures q / t / r == c <==> c * r <= q / t < c * r + Side(d, r, c)
  {
    DivBelow(q, t, d);
    SideOwner(d, r, c, q / t);
  }

  lemma SideBytes(e: nat, q: nat, lo: nat, b: nat)
    requires e >= 1
    ensures lo <= q / e < lo + b <==> lo * e <= q && q - lo * e < b * e
  {
    DivBelow(q, e, lo);
    DivBelow(q, e, lo + b);
    MulDist(lo, b, e);
  }

  /** The trailing dimensions of a block are a block of the trailing dimensions. */
  lemma BlockTail(dims: seq<nat>, r: nat, e: nat, cc: seq<nat>)
    requires r >= 1 && e >= 1 && |dims| > 1 && AllPos(dims) && InShape(cc, BlocksDim(dims, r))
    ensures InShape(cc[1..], BlocksDim(dims[1..], r)) && Sides(dims, r, cc)[1..] == Sides(dims[1..], r, cc[1..])
    ensures Start(dims, r, e, cc) == (cc[0] * r) * Bytes(dims[1..], e) + Start(dims[1..], r, e, cc[1..])
    ensures Shapes(dims[1..], Sides(dims[1..], r, cc[1..]), e)
    ensures Start(dims[1..], r, e, cc[1..]) + Extent(dims[1..], Sides(dims[1..], r, cc[1..]), e) <= Bytes(dims[1..], e)
  {
    var dims', cc' := dims[1..], cc[1..];
    forall i | 0 <= i < |cc'| ensures cc'[i] < BlocksDim(dims', r)[i] {
      assert cc[i + 1] < BlocksDim(dims, r)[i + 1];
    }
    assert Corner(cc, r)[1..] == Corner(cc', r);
    SidesFit(dims', r, cc', e);
    ExtentFits(dims', Sides(dims', r, cc'), e, Corner(cc', r));
  }

  /** The owner of a byte, by its leading column and the rest. */
  lemma OwnerCons(dims: seq<nat>, r: nat, e: nat, cc: seq<nat>, q: nat, head: bool, rest: bool)
    requires r >= 1 && e >= 1 && |dims| == |cc| > 1 && AllPos(dims) && Bytes(dims[1..], e) > 0
    requires head == (q / Bytes(dims[1..], e) / r == cc[0])
    requires rest == (Owner(dims[1..], r, e, q % Bytes(dims[1..], e)) == cc[1..])
    ensures Owner(dims, r, e, q) == cc <==> head && rest
  {
    var t := Bytes(dims[1..], e);
    assert Owner(dims, r, e, q) == [q / t / r] + Owner(dims[1..], r, e, q % t);
    assert cc == [cc[0]] + cc[1..];
  }

  lemma InBlockSplit(dims: seq<nat>, b: seq<nat>, e: nat, t: nat, k: nat)
    requires Shapes(dims, b, e) && |dims| > 1 && Shapes(dims[1..], b[1..], e) && t == Bytes(dims[1..], e) > 0
    ensures InBlock(dims, b, e, k) <==> k / t < b[0] && InBlock(dims[1..], b[1..], e, k % t)
  {}

  lemma {:induction false} OwnerIffInBlockN(dims: seq<nat>, r: nat, e: nat, cc: seq<nat>, q: nat)
    requires r >= 1 && e >= 1 && |dims| > 1 && AllPos(dims)
    requires InShape(cc, BlocksDim(dims, r)) && q < Bytes(dims, e)
    requires Shapes(dims, Sides(dims, r, cc), e)
    ensures Owner(dims, r, e, q) == cc
            <==> Start(dims, r, e, cc) <= q && InBlock(dims, Sides(dims, r, cc), e, q - Start(dims, r, e, cc))
    decreases |dims|, 0
  {
    var b := Sides(dims, r, cc);
    ShapesTail(dims, b, e);
    BlockTail(dims, r, e, cc);
    var dims', cc', b' := dims[1..], cc[1..], b[1..];
    var t, a, l := Bytes(dims', e), Start(dims', r, e, cc'), cc[0] * r;
    OwnerIffInBlock(dims', r, e, cc', q % t);
    var rest := a <= q % t && InBlock(dims', b', e, q % t - a);
    HeadSide(q, t, dims[0], r, cc[0]);
    OwnerCons(dims, r, e, cc, q, l <= q / t < l + b[0], rest);
    CornerBorrow(dims', b', e, t, a, l, b[0], q);
    var start := l * t + a;
    assert Start(dims, r, e, cc) == start;
    if start <= q { InBlockSplit(dims, b, e, t, q - start); }
  }

  /** Subtracting a corner column by column: a borrow from the leading column
      never lands inside the block. */
  lemma CornerBorrow(dims: seq<nat>, b: seq<nat>, e: nat, t: nat, a: nat, l: nat, n: nat, q: nat)
    requires Shapes(dims, b, e) && t > 0 && a + Extent(dims, b, e) <= t
    ensures (l <= q / t < l + n && a <= q % t && InBlock(dims, b, e, q % t - a))
            <==> (l * t + a <= q && (q - (l * t + a)) / t < n && InBlock(dims, b, e, (q - (l * t + a)) % t))
  {
    var x, y := q / t, q % t;
    assert q == x * t + y;
    if a <= y {
      assert q - (l * t + a) == (x - l) * t + (y - a);
      DivModUnique(q - (l * t + a), t, x - l, y - a);
      if x < l { MulLe(x + 1, l, t); assert (x + 1) * t == x * t + t; }
      else { MulLe(l, x, t); }
    } else {
      assert q - (l * t + a) == (x - l - 1) * t + (y - a + t);
      DivModUnique(q - (l * t + a), t, x - l - 1, y - a + t);
      if InBlock(dims, b, e, y - a + t) { InBlockBound(dims, b, e, y - a + t); }
    }
  }
}
