/** Z-order (Morton) codes of block coordinates and their split into a cluster
    and a block identifier. */
module Morton {
  import opened Arith

  const MAX_CODE: nat := 0x8000_0000 // codes are shifted as 32-bit signed ints
  const WORD_BITS: nat := 64

  /** Bit `i` of `x`. */
  predicate Bit(x: nat, i: nat) {
    if i == 0 then x % 2 == 1 else Bit(x / 2, i - 1)
  }

  /** `x | 1 << i`. */
  function SetBit(x: nat, i: nat): nat {
    if i == 0 then (if x % 2 == 1 then x else x + 1) else 2 * SetBit(x / 2, i - 1) + x % 2
  }

  function Pow2(n: nat): nat {
    if n == 0 then 1 else 2 * Pow2(n - 1)
  }

  lemma {:induction false} SetBitBits(x: nat, i: nat, j: nat)
    ensures Bit(SetBit(x, i), j) <==> j == i || Bit(x, j)
  {
    if i == 0 {
      if j > 0 { assert SetBit(x, i) / 2 == x / 2; }
    } else {
      assert SetBit(x, i) / 2 == SetBit(x / 2, i - 1) && SetBit(x, i) % 2 == x % 2;
      if j > 0 { SetBitBits(x / 2, i - 1, j - 1); }
    }
  }

  lemma {:induction false} ZeroBits(j: nat)
    ensures !Bit(0, j)
  {
    if j == 0 {
    } else {
      ZeroBits(j - 1);
    }
  }

  lemma {:induction false} BitsDetermine(x: nat, y: nat)
    requires forall i: nat :: Bit(x, i) <==> Bit(y, i)
    ensures x == y
    decreases x + y
  {
    assert Bit(x, 0) <==> Bit(y, 0);
    if x == 0 && y == 0 {
    } else {
      forall i: nat ensures Bit(x / 2, i) <==> Bit(y / 2, i) {
        assert Bit(x, i + 1) <==> Bit(y, i + 1);
      }
      BitsDetermine(x / 2, y / 2);
    }
  }

  lemma {:induction false} BitBound(x: nat, i: nat)
    requires Bit(x, i)
    ensures Pow2(i) <= x
  {
    if i == 0 {
    } else {
      BitBound(x / 2, i - 1);
    }
  }

  lemma {:induction false} BelowPow2(x: nat, n: nat)
    requires forall i: nat :: Bit(x, i) ==> i < n
    ensures x < Pow2(n)
  {
    if n == 0 {
      forall i: nat ensures Bit(x, i) <==> Bit(0, i) { ZeroBits(i); }
      BitsDetermine(x, 0);
    } else {
      forall i: nat ensures Bit(x / 2, i) ==> i < n - 1 { assert Bit(x, i + 1) <==> Bit(x / 2, i); }
      BelowPow2(x / 2, n - 1);
    }
  }

  lemma {:induction false} Pow2Mono(a: nat, b: nat)
    requires a <= b
    ensures Pow2(a) <= Pow2(b)
  {
    if a == b {
    } else {
      Pow2Mono(a, b - 1);
    }
  }

  lemma Pow2_31()
    ensures Pow2(31) == MAX_CODE
  {
    assert Pow2(8) == 0x100;
    assert Pow2(16) == 0x1_0000;
    assert Pow2(24) == 0x100_0000;
  }

  lemma CodeBits(z: nat, k: nat)
    requires z < MAX_CODE && Bit(z, k)
    ensures k < 31
  {
    BitBound(z, k);
    Pow2_31();
    if k >= 31 { Pow2Mono(31, k); }
  }

  // ------------------------------------------------------------------ codes

  /** Interleaving every set bit of `cc` stays below bit 31. */
  ghost predicate Fits31(cc: seq<nat>) {
    && 1 <= |cc| <= WORD_BITS
    && forall d, i: nat :: 0 <= d < |cc| && Bit(cc[d], i) ==> |cc| * i + d < 31
  }

  /** The code after the first `k` bit positions have been filled. */
  ghost function ZFold(cc: seq<nat>, k: nat): nat
    requires cc != []
  {
    if k == 0 then 0
    else
      var i, d := Quot(k - 1, |cc|), (k - 1) % |cc|;
      if Bit(cc[d], i) then SetBit(ZFold(cc, k - 1), k - 1) else ZFold(cc, k - 1)
  }

  ghost function Zorder(cc: seq<nat>): nat
    requires cc != []
  {
    ZFold(cc, |cc| * Quot(WORD_BITS, |cc|))
  }

  lemma {:induction false} ZFoldBits(cc: seq<nat>, k: nat, j: nat)
    requires cc != []
    ensures Bit(ZFold(cc, k), j) <==> j < k && Bit(cc[j % |cc|], Quot(j, |cc|))
  {
    if k == 0 {
      ZeroBits(j);
    } else {
      ZFoldBits(cc, k - 1, j);
      SetBitBits(ZFold(cc, k - 1), k - 1, j);
    }
  }

  /** Bit `j` of the code is bit `j / n` of coordinate `j % n`. */
  lemma ZorderBits(cc: seq<nat>, j: nat)
    requires Fits31(cc)
    ensures Bit(Zorder(cc), j) <==> Bit(cc[j % |cc|], Quot(j, |cc|))
    ensures Bit(Zorder(cc), j) ==> j < 31
  {
    var n := |cc|;
    ZFoldBits(cc, n * Quot(WORD_BITS, n), j);
    DivSplit(j, n);
    var d, i := j % n, Quot(j, n);
    if Bit(cc[d], i) {
      assert n * i + d < 31;
      WholeWord(n);
    }
  }

  lemma WholeWord(n: nat)
    requires 1 <= n <= WORD_BITS
    ensures n * Quot(WORD_BITS, n) >= 33
  {
    var q := Quot(WORD_BITS, n);
    assert q >= 1 by { DivBelow(WORD_BITS, n, 1); }
    if n < 33 {
      assert WORD_BITS < q * n + n;
    } else {
      MulLe(1, q, n);
    }
  }

  lemma ZorderFits(cc: seq<nat>)
    requires Fits31(cc)
    ensures Zorder(cc) < MAX_CODE
  {
    forall i: nat ensures Bit(Zorder(cc), i) ==> i < 31 { ZorderBits(cc, i); }
    BelowPow2(Zorder(cc), 31);
    Pow2_31();
  }

  method ComputeZorder(cc: seq<nat>) returns (answer: nat)
    requires Fits31(cc)
    ensures answer == Zorder(cc) < MAX_CODE
  {
    var ndims := |cc|;
    answer := 0;
    var nbits := WORD_BITS / ndims;
    var i: nat := 0;
    while i < nbits
      invariant 0 <= i <= nbits
      invariant answer == ZFold(cc, ndims * i)
    {
      var dim: nat := 0;
      while dim < ndims
        invariant 0 <= dim <= ndims
        invariant answer == ZFold(cc, ndims * i + dim)
      {
        DivModUnique(ndims * i + dim, ndims, i, dim);
        if Bit(cc[dim], i) {
          assert ndims * i + dim < 31;
          answer := SetBit(answer, ndims * i + dim);
        }
        dim := dim + 1;
      }
      assert ndims * i + ndims == ndims * (i + 1);
      i := i + 1;
    }
    ZorderFits(cc);
  }

  // ---------------------------------------------------------------- inverse

  ghost function UnzFold(id: nat, n: nat, k: nat): (ccs: seq<nat>)
    requires n >= 1
    ensures |ccs| == n
  {
    if k == 0 then seq(n, _ => 0)
    else
      var ccs := UnzFold(id, n, k - 1);
      var d := (k - 1) % n;
      if Bit(id, k - 1) then ccs[d := SetBit(ccs[d], Quot(k - 1, n))] else ccs
  }

  ghost function ZorderInverse(id: nat, n: nat): (ccs: seq<nat>)
    requires n >= 1
    ensures |ccs| == n
  {
    UnzFold(id, n, WORD_BITS)
  }

  lemma {:induction false} UnzFoldBits(id: nat, n: nat, k: nat, d: nat, s: nat)
    requires n >= 1 && d < n
    ensures Bit(UnzFold(id, n, k)[d], s) <==> s * n + d < k && Bit(id, s * n + d)
  {
    MulNonNeg(s, n);
    if k == 0 {
      ZeroBits(s);
    } else {
      UnzFoldBits(id, n, k - 1, d, s);
      SetBitBits(UnzFold(id, n, k - 1)[d], Quot(k - 1, n), s);
      if s * n + d == k - 1 {
        DivModUnique(k - 1, n, s, d);
      }
    }
  }

  /** zorderInverse undoes computeZorder, also when `n` does not divide 64. */
  lemma InverseOfZorder(cc: seq<nat>)
    requires Fits31(cc)
    ensures ZorderInverse(Zorder(cc), |cc|) == cc
  {
    var n, z := |cc|, Zorder(cc);
    forall d | 0 <= d < n ensures ZorderInverse(z, n)[d] == cc[d] {
      forall s: nat ensures Bit(ZorderInverse(z, n)[d], s) <==> Bit(cc[d], s) {
        MulNonNeg(s, n);
        UnzFoldBits(z, n, WORD_BITS, d, s);
        ZorderBits(cc, s * n + d);
        DivModUnique(s * n + d, n, s, d);
      }
      BitsDetermine(ZorderInverse(z, n)[d], cc[d]);
    }
  }

  lemma InverseFits(z: nat, n: nat)
    requires 1 <= n <= WORD_BITS && z < MAX_CODE
    ensures Fits31(ZorderInverse(z, n))
  {
    var cc := ZorderInverse(z, n);
    forall d, i: nat | 0 <= d < n && Bit(cc[d], i) ensures n * i + d < 31 {
      UnzFoldBits(z, n, WORD_BITS, d, i);
      CodeBits(z, i * n + d);
    }
  }

  /** computeZorder undoes zorderInverse on every 31-bit code. */
  lemma ZorderOfInverse(z: nat, n: nat)
    requires 1 <= n <= WORD_BITS && z < MAX_CODE
    ensures Fits31(ZorderInverse(z, n))
    ensures Zorder(ZorderInverse(z, n)) == z
  {
    InverseFits(z, n);
    forall j: nat ensures Bit(Zorder(ZorderInverse(z, n)), j) <==> Bit(z, j) {
      InverseBit(z, n, j);
    }
    BitsDetermine(Zorder(ZorderInverse(z, n)), z);
  }

  lemma InverseBit(z: nat, n: nat, j: nat)
    requires 1 <= n <= WORD_BITS && z < MAX_CODE && Fits31(ZorderInverse(z, n))
    ensures Bit(Zorder(ZorderInverse(z, n)), j) <==> Bit(z, j)
  {
    ZorderBits(ZorderInverse(z, n), j);
    DivSplit(j, n);
    UnzFoldBits(z, n, WORD_BITS, j % n, Quot(j, n));
    if Bit(z, j) { CodeBits(z, j); }
  }

  method ComputeZorderInverse(id: nat, ndims: nat) returns (ccs: seq<nat>)
    requires 1 <= ndims && id < MAX_CODE
    ensures ccs == ZorderInverse(id, ndims)
  {
    ccs := seq(ndims, _ => 0);
    var step := -1;
    for i := 0 to WORD_BITS
      invariant ccs == UnzFold(id, ndims, i)
      invariant i == 0 ==> step == -1
      invariant i > 0 ==> step == Quot(i - 1, ndims)
    {
      NextStep(i, ndims);
      if i % ndims == 0 { step := step + 1; }
      if Bit(id, i) {
        CodeBits(id, i);
        assert step <= i by { StepBound(i, ndims); }
        ccs := ccs[i % ndims := SetBit(ccs[i % ndims], step)];
      }
    }
  }

  lemma NextStep(i: nat, n: nat)
    requires n >= 1
    ensures i == 0 ==> i % n == 0 && Quot(i, n) == 0
    ensures i > 0 ==> Quot(i, n) == Quot(i - 1, n) + (if i % n == 0 then 1 else 0)
  {
    if i == 0 {
      DivModUnique(0, n, 0, 0);
    } else {
      var q := Quot(i, n);
      if i % n == 0 {
        assert i - 1 == (q - 1) * n + (n - 1);
        DivModUnique(i - 1, n, q - 1, n - 1);
      } else {
        DivModUnique(i - 1, n, q, i % n - 1);
      }
    }
  }

  lemma StepBound(i: nat, n: nat)
    requires n >= 1
    ensures Quot(i, n) <= i
  {
    MulLe(1, n, Quot(i, n));
  }

  // --------------------------------------------------- cluster and block ids

  const UINT32: nat := 0x1_0000_0000

  /** `zorder_id >> CLUSTER_SIZE`. */
  function ClusterId(z: nat): nat { z / 4 }

  /** `zorder_id & mask`, with CLUSTER_SIZE mask bits. */
  function BlockId(z: nat): nat { z % 4 }

  /** `cluster_id << CLUSTER_SIZE | block_id`, on 32-bit words. */
  function Rejoin(cluster: nat, block: nat): nat
    requires block < 4
  {
    (cluster * 4) % UINT32 + block
  }

  /** Block coordinates named by a partition. */
  ghost function Decode(cluster: nat, block: nat, n: nat): (ccs: seq<nat>)
    requires n >= 1 && block < 4
    ensures |ccs| == n
  {
    ZorderInverse(Rejoin(cluster, block), n)
  }

  /** The name of a block decodes to the block. */
  lemma NameDecodes(cc: seq<nat>)
    requires Fits31(cc)
    ensures Decode(ClusterId(Zorder(cc)), BlockId(Zorder(cc)), |cc|) == cc
    ensures Rejoin(ClusterId(Zorder(cc)), BlockId(Zorder(cc))) == Zorder(cc) < MAX_CODE
  {
    InverseOfZorder(cc);
    ZorderFits(cc);
  }

  /** Distinct blocks have distinct (cluster_id, block_id) names. */
  lemma NamesDistinct(cc: seq<nat>, dd: seq<nat>)
    requires Fits31(cc) && Fits31(dd) && |cc| == |dd|
    ensures ClusterId(Zorder(cc)) == ClusterId(Zorder(dd)) && BlockId(Zorder(cc)) == BlockId(Zorder(dd)) <==> cc == dd
  {
    NameDecodes(cc);
    NameDecodes(dd);
  }

  /** The largest coordinate of each dimension fits, so every block of the grid does. */
  ghost predicate GridFits31(blocks: seq<nat>) {
    && 1 <= |blocks| <= WORD_BITS
    && forall d, i: nat :: 0 <= d < |blocks| && Pow2(i) < blocks[d] ==> |blocks| * i + d < 31
  }

  lemma GridFits(blocks: seq<nat>, cc: seq<nat>)
    requires GridFits31(blocks) && |cc| == |blocks|
    requires forall i :: 0 <= i < |cc| ==> cc[i] < blocks[i]
    ensures Fits31(cc)
  {
    forall d, i: nat | 0 <= d < |cc| && Bit(cc[d], i) ensures |cc| * i + d < 31 {
      BitBound(cc[d], i);
      assert Pow2(i) < blocks[d];
    }
  }
}
