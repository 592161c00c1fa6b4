/** The Z-order partition generator: cutting an array into named blocks, putting
    blocks back, and enumerating clusters. */
module ZorderCurve {
  import opened Arith
  import opened Collections
  import opened MixedRadix
  import opened Boxes
  import opened Tessellation
  import opened Morton
  import opened Partitions

  const CLUSTER_END_FLAG: nat := 0x7fff_fffe // INT_MAX - 1

  /** A layout whose Morton codes fit the 31 bits that the shifts allow. */
  ghost predicate ZLayout(m: Metas, r: nat) {
    Layout(m, r) && GridFits31(Grid(m, r))
  }

  lemma GridCoordFits(m: Metas, r: nat, cc: seq<nat>)
    requires ZLayout(m, r) && InShape(cc, Grid(m, r))
    ensures Fits31(cc)
  {
    GridFits(Grid(m, r), cc);
  }

  /** The partition that block `cc` must become; no chunk without data. */
  ghost function ZPartition(m: Metas, r: nat, cc: seq<nat>, d: Option<seq<Byte>>): Partition
    requires Layout(m, r) && InShape(cc, Grid(m, r))
    requires d.Some? ==> |d.value| == ArrayBytes(m)
  {
    Partition(ClusterId(Zorder(cc)), BlockId(Zorder(cc)), if d.None? then None else Some(ChunkOf(m, r, cc, d.value)))
  }

  ghost predicate Readable(m: Metas, r: nat, p: Partition)
    requires r >= 1 && m.dims != []
  {
    && p.chunk.Some? && p.chunk.value.size <= |p.chunk.value.bytes|
    && p.blockId < 4 && Rejoin(p.clusterId, p.blockId) < MAX_CODE
    && InShape(Decode(p.clusterId, p.blockId, |m.dims|), Grid(m, r))
  }

  /** Where the merge puts partition `p`. */
  ghost function Place(m: Metas, r: nat, p: Partition): Placed
    requires r >= 1 && m.dims != [] && Readable(m, r, p)
  {
    Placed(Decode(p.clusterId, p.blockId, |m.dims|), p.chunk.value)
  }

  ghost function Places(m: Metas, r: nat, ps: seq<Partition>): (qs: seq<Placed>)
    requires r >= 1 && m.dims != []
    requires forall i :: 0 <= i < |ps| ==> Readable(m, r, ps[i])
    ensures |qs| == |ps| && forall i :: 0 <= i < |ps| ==> qs[i] == Place(m, r, ps[i])
  {
    seq(|ps|, i requires 0 <= i < |ps| => Place(m, r, ps[i]))
  }

  /** The merge reads back the block that getNextPartition named. */
  lemma PlaceOfPartition(m: Metas, r: nat, cc: seq<nat>, d: seq<Byte>)
    requires ZLayout(m, r) && InShape(cc, Grid(m, r)) && |d| == ArrayBytes(m)
    ensures Readable(m, r, ZPartition(m, r, cc, Some(d)))
    ensures Place(m, r, ZPartition(m, r, cc, Some(d))) == Placed(cc, ChunkOf(m, r, cc, d))
  {
    GridCoordFits(m, r, cc);
    NameDecodes(cc);
  }

  /** Block coordinates at position `k` of the generation order. */
  ghost function BlockAt(m: Metas, r: nat, k: nat): (cc: seq<nat>)
    requires Layout(m, r) && k < Prod(Grid(m, r))
    ensures InShape(cc, Grid(m, r))
  {
    GridPos(m, r);
    DigitsInShape(k, Grid(m, r));
    Digits(k, Grid(m, r))
  }

  /** All partitions of the array `d`, in generation order. */
  ghost function Split(m: Metas, r: nat, d: seq<Byte>): (ps: seq<Partition>)
    requires Layout(m, r) && |d| == ArrayBytes(m)
    ensures |ps| == Prod(Grid(m, r))
    ensures forall k :: 0 <= k < |ps| ==> ps[k] == ZPartition(m, r, BlockAt(m, r, k), Some(d))
  {
    seq(Prod(Grid(m, r)), k requires 0 <= k < Prod(Grid(m, r)) => ZPartition(m, r, BlockAt(m, r, k), Some(d)))
  }

  /** Every block of the grid is in the split, under the counter getBlockCounter gives. */
  lemma SplitHasBlock(m: Metas, r: nat, d: seq<Byte>, cc: seq<nat>)
    requires Layout(m, r) && |d| == ArrayBytes(m) && InShape(cc, Grid(m, r))
    ensures Rank(Grid(m, r), cc) < |Split(m, r, d)|
    ensures BlockAt(m, r, Rank(Grid(m, r), cc)) == cc
  {
    RankBound(Grid(m, r), cc);
    GridPos(m, r);
    DigitsOfRank(Grid(m, r), cc);
  }

  /** Distinct partitions of a split carry distinct names. */
  lemma SplitNamesDistinct(m: Metas, r: nat, d: seq<Byte>, i: nat, j: nat)
    requires ZLayout(m, r) && |d| == ArrayBytes(m) && i < j < |Split(m, r, d)|
    ensures var ps := Split(m, r, d); (ps[i].clusterId, ps[i].blockId) != (ps[j].clusterId, ps[j].blockId)
  {
    var g := Grid(m, r);
    GridPos(m, r);
    var a, b := BlockAt(m, r, i), BlockAt(m, r, j);
    RankOfDigits(i, g);
    RankOfDigits(j, g);
    GridCoordFits(m, r, a);
    GridCoordFits(m, r, b);
    NamesDistinct(a, b);
  }

  ghost predicate FromSplit(m: Metas, r: nat, d: seq<Byte>, p: Partition)
    requires Layout(m, r) && |d| == ArrayBytes(m)
  {
    exists cc :: InShape(cc, Grid(m, r)) && p == ZPartition(m, r, cc, Some(d))
  }

  lemma FromSplitPlace(m: Metas, r: nat, d: seq<Byte>, p: Partition)
    requires ZLayout(m, r) && |d| == ArrayBytes(m) && FromSplit(m, r, d, p)
    ensures Readable(m, r, p)
    ensures Place(m, r, p).chunk == ChunkOf(m, r, Place(m, r, p).cc, d)
  {
    var cc :| InShape(cc, Grid(m, r)) && p == ZPartition(m, r, cc, Some(d));
    PlaceOfPartition(m, r, cc, d);
  }

  /** Split then merge is the identity: whatever order the partitions of `d`
      come back in, and whatever the buffer held, the merge accepts all of them
      and rebuilds `d` byte for byte. */
  lemma SplitMergeIdentity(m: Metas, r: nat, d: seq<Byte>, parts: seq<Partition>, was: seq<Byte>)
    requires ZLayout(m, r) && |d| == |was| == ArrayBytes(m)
    requires multiset(parts) == multiset(Split(m, r, d))
    ensures forall i :: 0 <= i < |parts| ==> Readable(m, r, parts[i])
    ensures AllMergeable(m, r, Places(m, r, parts))
    ensures Merged(m, r, Places(m, r, parts), was) == d
  {
    forall i | 0 <= i < |parts|
      ensures FromSplit(m, r, d, parts[i]) && Readable(m, r, parts[i])
    {
      SamePartition(m, r, d, parts, parts[i]);
      FromSplitPlace(m, r, d, parts[i]);
    }
    var qs := Places(m, r, parts);
    forall i | 0 <= i < |qs|
      ensures InShape(qs[i].cc, Grid(m, r)) && qs[i].chunk == ChunkOf(m, r, qs[i].cc, d)
    {
      FromSplitPlace(m, r, d, parts[i]);
    }
    MergeRestores(m, r, qs, d, was);
    forall k | 0 <= k < |d| ensures Merged(m, r, qs, was)[k] == d[k] {
      EveryOwnerNamed(m, r, d, parts, k);
    }
  }

  lemma SamePartition(m: Metas, r: nat, d: seq<Byte>, parts: seq<Partition>, p: Partition)
    requires Layout(m, r) && |d| == ArrayBytes(m)
    requires multiset(parts) == multiset(Split(m, r, d)) && p in parts
    ensures FromSplit(m, r, d, p)
  {
    var ps := Split(m, r, d);
    assert p in multiset(parts);
    assert p in multiset(ps);
    var k :| 0 <= k < |ps| && ps[k] == p;
  }

  lemma EveryOwnerNamed(m: Metas, r: nat, d: seq<Byte>, parts: seq<Partition>, k: nat)
    requires ZLayout(m, r) && k < |d| == ArrayBytes(m)
    requires multiset(parts) == multiset(Split(m, r, d))
    requires forall i :: 0 <= i < |parts| ==> Readable(m, r, parts[i])
    ensures Names(Places(m, r, parts), Owner(m.dims, r, m.elemSize, k))
  {
    var cc := Owner(m.dims, r, m.elemSize, k);
    OwnerInGrid(m.dims, r, m.elemSize, k);
    SplitHasBlock(m, r, d, cc);
    var p := ZPartition(m, r, cc, Some(d));
    assert Split(m, r, d)[Rank(Grid(m, r), cc)] == p;
    assert p in multiset(Split(m, r, d));
    assert p in multiset(parts);
    var i :| 0 <= i < |parts| && parts[i] == p;
    PlaceOfPartition(m, r, cc, d);
    assert Places(m, r, parts)[i].cc == cc;
  }

  // ---------------------------------------------------------------- clusters

  /** Clusters per dimension: pairs of blocks in the first two dimensions. */
  function ClustersDim(blocks: seq<nat>): (cd: seq<nat>)
    ensures |cd| == |blocks|
    ensures forall i :: 0 <= i < |cd| ==> cd[i] == if i < 2 then (blocks[i] + 1) / 2 else blocks[i]
  {
    seq(|blocks|, i requires 0 <= i < |blocks| => if i < 2 then (blocks[i] + 1) / 2 else blocks[i])
  }

  /** First block of a cluster. */
  ghost function Anchor(c: seq<nat>): (cc: seq<nat>)
    ensures |cc| == |c|
    ensures forall i :: 0 <= i < |c| ==> cc[i] == if i < 2 then 2 * c[i] else c[i]
  {
    seq(|c|, i requires 0 <= i < |c| => if i < 2 then 2 * c[i] else c[i])
  }

  lemma AnchorInGrid(blocks: seq<nat>, c: seq<nat>)
    requires InShape(c, ClustersDim(blocks))
    ensures InShape(Anchor(c), blocks)
  {
    forall i | 0 <= i < |c| ensures Anchor(c)[i] < blocks[i] {
      assert c[i] < ClustersDim(blocks)[i];
    }
  }

  /** Cluster coordinates of block `cc`. */
  ghost function ClusterCoord(cc: seq<nat>): (c: seq<nat>)
    ensures |c| == |cc|
    ensures forall i :: 0 <= i < |c| ==> c[i] == if i < 2 then cc[i] / 2 else cc[i]
  {
    seq(|cc|, i requires 0 <= i < |cc| => if i < 2 then cc[i] / 2 else cc[i])
  }

  lemma ClusterCoordInGrid(blocks: seq<nat>, cc: seq<nat>)
    requires InShape(cc, blocks)
    ensures InShape(ClusterCoord(cc), ClustersDim(blocks))
  {
    forall i | 0 <= i < |cc| ensures ClusterCoord(cc)[i] < ClustersDim(blocks)[i] {
      assert cc[i] < blocks[i];
    }
  }

  lemma QuarterBits(z: nat, j: nat)
    ensures Bit(ClusterId(z), j) <==> Bit(z, j + 2)
  {
    assert Bit(z, j + 2) <==> Bit(z / 2 / 2, j);
  }

  lemma EvenBits(x: nat, i: nat)
    requires i >= 1
    ensures Bit(2 * (x / 2), i) <==> Bit(x, i)
  {
    assert (2 * (x / 2)) / 2 == x / 2;
  }

  /** A block is in the cluster of its anchor, for every number of dimensions. */
  lemma AnchorCluster(cc: seq<nat>)
    requires Fits31(cc) && Fits31(Anchor(ClusterCoord(cc)))
    ensures ClusterId(Zorder(Anchor(ClusterCoord(cc)))) == ClusterId(Zorder(cc))
  {
    var aa, n := Anchor(ClusterCoord(cc)), |cc|;
    forall j: nat ensures Bit(ClusterId(Zorder(aa)), j) <==> Bit(ClusterId(Zorder(cc)), j) {
      QuarterBits(Zorder(aa), j);
      QuarterBits(Zorder(cc), j);
      ZorderBits(aa, j + 2);
      ZorderBits(cc, j + 2);
      DivSplit(j + 2, n);
      var i, d := Quot(j + 2, n), (j + 2) % n;
      if i >= 1 {
        EvenBits(cc[d], i);
      } else {
        assert d == j + 2;
      }
    }
    BitsDetermine(ClusterId(Zorder(aa)), ClusterId(Zorder(cc)));
  }

  /** The bits of an anchor's code that come from the lowest bit of its coordinates. */
  lemma AnchorLowBit(c: seq<nat>, j: nat)
    requires j < 2 <= |c| && Fits31(Anchor(c))
    ensures !Bit(Zorder(Anchor(c)), j)
  {
    DivModUnique(j, |c|, 0, j);
    ZorderBits(Anchor(c), j);
    assert Anchor(c)[j] == 2 * c[j];
  }

  lemma LowBitsClear(z: nat)
    requires !Bit(z, 0) && !Bit(z, 1)
    ensures BlockId(z) == 0
  {
    assert Bit(z, 1) <==> Bit(z / 2, 0);
  }

  /** From two dimensions up an anchor is the first block of its cluster. */
  lemma AnchorBlockId(c: seq<nat>)
    requires |c| >= 2 && Fits31(Anchor(c))
    ensures BlockId(Zorder(Anchor(c))) == 0
  {
    AnchorLowBit(c, 0);
    AnchorLowBit(c, 1);
    LowBitsClear(Zorder(Anchor(c)));
  }

  /** The cluster ids that draining computeNextClusterId yields. */
  ghost function ClusterIds(blocks: seq<nat>): (ids: seq<nat>)
    requires blocks != [] && AllPos(blocks)
    ensures |ids| == Prod(ClustersDim(blocks))
    ensures AllPos(ClustersDim(blocks))
    ensures forall k :: 0 <= k < |ids| ==> ids[k] == ClusterId(Zorder(Anchor(Digits(k, ClustersDim(blocks)))))
  {
    seq(Prod(ClustersDim(blocks)), k requires 0 <= k < Prod(ClustersDim(blocks)) =>
      ClusterId(Zorder(Anchor(Digits(k, ClustersDim(blocks))))))
  }

  /** The enumeration yields the cluster ids of all blocks and no other id. */
  lemma ClusterIdsComplete(blocks: seq<nat>, id: nat)
    requires GridFits31(blocks) && AllPos(blocks)
    ensures id in ClusterIds(blocks) <==> exists cc :: InShape(cc, blocks) && ClusterId(Zorder(cc)) == id
  {
    var cd, ids := ClustersDim(blocks), ClusterIds(blocks);
    if id in ids {
      var k :| 0 <= k < |ids| && ids[k] == id;
      DigitsInShape(k, cd);
      AnchorInGrid(blocks, Digits(k, cd));
    }
    if exists cc :: InShape(cc, blocks) && ClusterId(Zorder(cc)) == id {
      var cc :| InShape(cc, blocks) && ClusterId(Zorder(cc)) == id;
      var c := ClusterCoord(cc);
      ClusterCoordInGrid(blocks, cc);
      AnchorInGrid(blocks, c);
      GridFits(blocks, cc);
      GridFits(blocks, Anchor(c));
      AnchorCluster(cc);
      RankBound(cd, c);
      DigitsOfRank(cd, c);
      assert ids[Rank(cd, c)] == id;
    }
  }

  lemma AnchorInjective(a: seq<nat>, b: seq<nat>)
    requires |a| == |b|
    ensures Anchor(a) == Anchor(b) ==> a == b
  {
    if Anchor(a) == Anchor(b) {
      forall x | 0 <= x < |a| ensures a[x] == b[x] { assert Anchor(a)[x] == Anchor(b)[x]; }
    }
  }

  /** From two dimensions up no cluster id is yielded twice. */
  lemma ClusterIdsDistinct(blocks: seq<nat>, i: nat, j: nat)
    requires GridFits31(blocks) && AllPos(blocks) && |blocks| >= 2
    requires i < j < |ClusterIds(blocks)|
    ensures ClusterIds(blocks)[i] != ClusterIds(blocks)[j]
  {
    var cd := ClustersDim(blocks);
    var a, b := Digits(i, cd), Digits(j, cd);
    DigitsInShape(i, cd);
    DigitsInShape(j, cd);
    AnchorInGrid(blocks, a);
    AnchorInGrid(blocks, b);
    GridFits(blocks, Anchor(a));
    GridFits(blocks, Anchor(b));
    AnchorBlockId(a);
    AnchorBlockId(b);
    NamesDistinct(Anchor(a), Anchor(b));
    RankOfDigits(i, cd);
    RankOfDigits(j, cd);
    AnchorInjective(a, b);
  }

  lemma OneDimensionCode(x: nat)
    requires Fits31([x])
    ensures Zorder([x]) == x
  {
    forall j: nat ensures Bit(Zorder([x]), j) <==> Bit(x, j) {
      ZorderBits([x], j);
      DivModUnique(j, 1, j, 0);
    }
    BitsDetermine(Zorder([x]), x);
  }

  /** In one dimension two consecutive anchors share a cluster. */
  lemma OneDimensionIds(n: nat, k: nat)
    requires GridFits31([n]) && AllPos([n]) && k < (n + 1) / 2
    ensures |ClusterIds([n])| == (n + 1) / 2 && ClusterIds([n])[k] == k / 2
  {
    var cd := ClustersDim([n]);
    assert cd == [(n + 1) / 2] && cd[1..] == [];
    assert Prod(cd) == cd[0] * Prod(cd[1..]) == cd[0];
    assert Digits(k, cd) == [k] && Anchor([k]) == [2 * k];
    GridFits([n], [2 * k]);
    OneDimensionCode(2 * k);
  }

  /** Draining the enumeration repeats no cluster id exactly from two dimensions up,
      or in one dimension of at most two blocks. */
  lemma ClusterIdsDistinctExact(blocks: seq<nat>)
    requires GridFits31(blocks) && AllPos(blocks)
    ensures Distinct(ClusterIds(blocks)) <==> |blocks| >= 2 || blocks[0] <= 2
  {
    var ids := ClusterIds(blocks);
    if |blocks| >= 2 {
      forall i, j | 0 <= i < j < |ids| ensures ids[i] != ids[j] { ClusterIdsDistinct(blocks, i, j); }
    } else {
      var n := blocks[0];
      assert blocks == [n];
      OneDimensionIds(n, 0);
      if n > 2 {
        OneDimensionIds(n, 1);
        assert ids[0] == ids[1];
      }
    }
  }

  /** Six blocks in one dimension yield cluster 0 twice. */
  lemma OneDimensionRepeats()
    ensures GridFits31([6]) && AllPos([6])
    ensures ClusterIds([6]) == [0, 0, 1]
  {
    forall d, i: nat | 0 <= d < 1 && Pow2(i) < [6][d] ensures 1 * i + d < 31 {
      assert Pow2(3) == 8;
      if i >= 3 { Pow2Mono(3, i); }
    }
    OneDimensionIds(6, 0);
    OneDimensionIds(6, 1);
    OneDimensionIds(6, 2);
  }
}
