/** The column-major generator, for one and two dimensions.  A column-major
    array is the row-major array of the exchanged shape, so the blocks are those
    of Partitions over exchanged coordinates; the naming of blocks is its own. */
module FortranOrder {
  import opened Arith
  import opened Collections
  import opened MixedRadix
  import opened Boxes
  import opened Tessellation
  import opened Morton
  import opened Partitions
  import opened ZorderCurve
  import opened ZorderGenerator

  // ------------------------------------------------------------- block names

  /** Bits needed for a number below `x + 1`: `log2(x) + 1`, truncated. */
  function Bits(x: nat): nat {
    if x == 0 then 0 else 1 + Bits(x / 2)
  }

  lemma {:induction false} BitsBound(x: nat)
    ensures x < Pow2(Bits(x))
  {
    if x == 0 {
    } else {
      BitsBound(x / 2);
    }
  }

  /** No fewer bits would do: this is the length of the binary form. */
  lemma {:induction false} BitsLeast(x: nat)
    requires x >= 1
    ensures Bits(x) >= 1 && Pow2(Bits(x) - 1) <= x < Pow2(Bits(x))
  {
    BitsBound(x);
    if x == 1 {
    } else {
      BitsLeast(x / 2);
    }
  }

  lemma {:induction false} Pow2Pos(n: nat)
    ensures Pow2(n) >= 1
  {
    if n == 0 {
    } else {
      Pow2Pos(n - 1);
    }
  }

  lemma {:induction false} Pow2Add(a: nat, b: nat)
    ensures Pow2(a + b) == Pow2(a) * Pow2(b)
  {
    if b == 0 {
    } else {
      Pow2Add(a, b - 1);
      MulAssoc(Pow2(a), Pow2(b - 1), 2);
    }
  }

  /** Total width of the first `k` fields. */
  ghost function Width(blocks: seq<nat>, k: nat): nat
    requires k <= |blocks|
  {
    if k == 0 then 0 else Width(blocks, k - 1) + Bits(blocks[k - 1])
  }

  /** The name of the first `k` coordinates, in 32-bit arithmetic. */
  ghost function Pack(blocks: seq<nat>, cc: seq<nat>, k: nat): nat
    requires k <= |blocks| == |cc|
  {
    if k == 0 then 0
    else AddField(Pack(blocks, cc, k - 1), Bits(blocks[k - 1]), cc[k - 1])
  }

  /** `id << w` plus `c`. */
  function AddField(id: nat, w: nat, c: nat): nat {
    (id * Pow2(w) % UINT32 + c) % UINT32
  }

  /** The first `k` coordinates read back from a name, last field first. */
  ghost function Unpack(blocks: seq<nat>, id: nat, k: nat): (cc: seq<nat>)
    requires k <= |blocks|
    ensures |cc| == k
  {
    if k == 0 then []
    else
      Pow2Pos(Bits(blocks[k - 1]));
      Unpack(blocks, Quot(id, Pow2(Bits(blocks[k - 1]))), k - 1) + [id % Pow2(Bits(blocks[k - 1]))]
  }

  ghost predicate WidthFits(blocks: seq<nat>) {
    blocks != [] && Width(blocks, |blocks| - 1) <= 31
  }

  lemma PackStep(id: nat, w: nat, c: nat, width: nat)
    requires id < Pow2(width) && c < Pow2(w) && width + w <= 31
    ensures AddField(id, w, c) == id * Pow2(w) + c < Pow2(width + w)
  {
    Pow2Add(width, w);
    MulLe(id + 1, Pow2(width), Pow2(w));
    MulDist(id, 1, Pow2(w));
    Pow2Mono(width + w, 31);
    Pow2_31();
    MulNonNeg(id, Pow2(w));
    SmallMod(id * Pow2(w), UINT32);
    SmallMod(id * Pow2(w) + c, UINT32);
  }

  lemma SmallMod(a: nat, b: nat)
    requires a < b
    ensures a % b == a
  {}

  lemma {:induction false} PackBound(blocks: seq<nat>, cc: seq<nat>, k: nat)
    requires k <= |blocks| && InShape(cc, blocks) && Width(blocks, k) <= 31
    ensures Pack(blocks, cc, k) < Pow2(Width(blocks, k))
    ensures k > 0 ==> Pack(blocks, cc, k) == Pack(blocks, cc, k - 1) * Pow2(Bits(blocks[k - 1])) + cc[k - 1]
  {
    if k == 0 {
    } else {
      PackBound(blocks, cc, k - 1);
      BitsBound(blocks[k - 1]);
      var id, w, c := Pack(blocks, cc, k - 1), Bits(blocks[k - 1]), cc[k - 1];
      PackStep(id, w, c, Width(blocks, k - 1));
      assert Pack(blocks, cc, k) == AddField(id, w, c) && Width(blocks, k) == Width(blocks, k - 1) + w;
    }
  }

  lemma UnpackField(blocks: seq<nat>, cc: seq<nat>, k: nat)
    requires 1 <= k <= |blocks| && InShape(cc, blocks) && Width(blocks, k) <= 31
    ensures Unpack(blocks, Pack(blocks, cc, k), k) == Unpack(blocks, Pack(blocks, cc, k - 1), k - 1) + [cc[k - 1]]
  {
    var w, id := Bits(blocks[k - 1]), Pack(blocks, cc, k);
    PackBound(blocks, cc, k);
    BitsBound(blocks[k - 1]);
    Pow2Pos(w);
    DivModUnique(id, Pow2(w), Pack(blocks, cc, k - 1), cc[k - 1]);
    assert Quot(id, Pow2(w)) == Pack(blocks, cc, k - 1);
  }

  /** The packing is undone field by field, for any number of dimensions. */
  lemma {:induction false} UnpackOfPack(blocks: seq<nat>, cc: seq<nat>, k: nat)
    requires k <= |blocks| && InShape(cc, blocks) && Width(blocks, k) <= 31
    ensures Unpack(blocks, Pack(blocks, cc, k), k) == cc[..k]
  {
    if k == 0 {
    } else {
      UnpackField(blocks, cc, k);
      UnpackOfPack(blocks, cc, k - 1);
      assert cc[..k] == cc[..k - 1] + [cc[k - 1]];
    }
  }

  method GetBlockID(blocksDim: seq<nat>, cc: seq<nat>) returns (blockId: nat)
    requires |cc| == |blocksDim| && blocksDim != []
    ensures blockId == Pack(blocksDim, cc, |cc| - 1)
  {
    blockId := 0;
    for i := 0 to |blocksDim| - 1
      invariant blockId == Pack(blocksDim, cc, i)
    {
      var bits := Bits(blocksDim[i]);
      blockId := blockId * Pow2(bits) % UINT32;
      blockId := (blockId + cc[i]) % UINT32;
    }
  }

  /** Block coordinates a partition name stands for. */
  ghost function DecodeName(blocks: seq<nat>, clusterId: nat, blockId: nat): (cc: seq<nat>)
    requires blocks != []
    ensures |cc| == |blocks|
  {
    Unpack(blocks, blockId, |blocks| - 1) + [clusterId]
  }

  method DecodeBlockID(blocksDim: seq<nat>, clusterId: nat, id: nat) returns (ccs: seq<nat>)
    requires blocksDim != []
    ensures ccs == DecodeName(blocksDim, clusterId, id)
  {
    var blockId: nat := id;
    ccs := blocksDim[|blocksDim| - 1 := clusterId];
    var i := |blocksDim| - 2;
    while i >= 0
      invariant -1 <= i < |blocksDim| - 1 && |ccs| == |blocksDim|
      invariant Unpack(blocksDim, blockId, i + 1) + ccs[i + 1..] == DecodeName(blocksDim, clusterId, id)
    {
      var bits := Bits(blocksDim[i]);
      Pow2Pos(bits);
      var curr := blockId % Pow2(bits);
      ghost var tail := ccs[i + 1..];
      blockId := Quot(blockId, Pow2(bits));
      ccs := ccs[i := curr];
      assert ccs[i..] == [curr] + tail;
      i := i - 1;
    }
    assert ccs[0..] == ccs;
  }

  // -------------------------------------------------------- exchanged shapes

  /** Exchange of the last two dimensions. */
  function Exchange(s: seq<nat>): (t: seq<nat>)
    ensures |t| == |s|
  {
    if |s| < 2 then s else s[|s| - 1 := s[|s| - 2]][|s| - 2 := s[|s| - 1]]
  }

  function Exchanged(m: Metas): Metas { Metas(Exchange(m.dims), m.elemSize) }

  /** A layout whose block names fit. */
  ghost predicate FGrid(m: Metas, r: nat) {
    Layout(m, r) && WidthFits(Grid(m, r))
  }

  /** A layout that is copied column by column. */
  ghost predicate FLayout(m: Metas, r: nat) {
    FGrid(m, r) && |m.dims| <= 2
  }

  lemma ExchangedLayout(m: Metas, r: nat, cc: seq<nat>)
    requires FLayout(m, r) && InShape(cc, Grid(m, r))
    ensures Layout(Exchanged(m), r) && InShape(Exchange(cc), Grid(Exchanged(m), r))
    ensures ArrayBytes(Exchanged(m)) == ArrayBytes(m)
    ensures Sides(Exchange(m.dims), r, Exchange(cc)) == Exchange(Sides(m.dims, r, cc))
    ensures Bytes(Sides(m.dims, r, cc), m.elemSize) == Bytes(Exchange(Sides(m.dims, r, cc)), m.elemSize)
    ensures Corner(Exchange(cc), r) == Exchange(Corner(cc, r))
  {
    assert Exchange(Exchange(cc)) == cc;
    ExchangeBytes(m.dims, m.elemSize);
    ExchangeBytes(Sides(m.dims, r, cc), m.elemSize);
  }

  lemma ExchangeBytes(s: seq<nat>, e: nat)
    requires 1 <= |s| <= 2
    ensures Bytes(Exchange(s), e) == Bytes(s, e)
  {
    if |s| == 2 {
      var t := Exchange(s);
      BytesOne(s[1..], e);
      BytesOne(t[1..], e);
      MulSwap(s[0], s[1], e);
    }
  }

  lemma MulSwap(a: nat, b: nat, e: nat)
    ensures a * (b * e) == b * (a * e)
  {}

  /** Elements before `ix` in column-major order, first `k` dimensions. */
  ghost function ColumnRank(dims: seq<nat>, ix: seq<nat>, k: nat): nat
    requires k <= |dims| == |ix|
  {
    if k == 0 then 0 else ColumnRank(dims, ix, k - 1) + Prod(dims[..k - 1]) * ix[k - 1]
  }

  method GetIdFromIndexesByColumns(dims: seq<nat>, indexes: seq<nat>) returns (id: nat)
    requires |dims| == |indexes| && dims != []
    ensures id == ColumnRank(dims, indexes, |dims|)
  {
    id := indexes[0];
    var accumulator: nat := 1;
    assert dims[..0] == [] && Prod(dims[..0]) == 1;
    for i := 0 to |dims| - 1
      invariant accumulator == Prod(dims[..i])
      invariant id == ColumnRank(dims, indexes, i + 1)
    {
      ProdPrefix(dims, i);
      accumulator := accumulator * dims[i];
      id := id + accumulator * indexes[i + 1];
    }
  }

  lemma ColumnRankIsRank(dims: seq<nat>, ix: seq<nat>)
    requires 1 <= |dims| == |ix| <= 2
    ensures ColumnRank(dims, ix, |dims|) == Rank(Exchange(dims), Exchange(ix))
  {
    var d, x := Exchange(dims), Exchange(ix);
    assert dims[..0] == [] && Prod(dims[..0]) == 1;
    assert ColumnRank(dims, ix, 1) == ColumnRank(dims, ix, 0) + Prod(dims[..0]) * ix[0] == ix[0];
    if |dims| == 1 {
      RankLast(d, x);
      assert d[0..] == d && x[0..] == x;
    } else {
      ProdSingle(dims[..1]);
      ProdSingle(d[1..]);
      RankTwo(d, x);
      MulComm(dims[0], ix[1]);
      assert ColumnRank(dims, ix, 2) == ColumnRank(dims, ix, 1) + Prod(dims[..1]) * ix[1];
    }
  }

  lemma ProdSingle(s: seq<nat>)
    requires |s| == 1
    ensures Prod(s) == s[0]
  {
    assert s[1..] == [];
    assert Prod(s[1..]) == 1;
  }

  lemma RankTwo(dims: seq<nat>, ix: seq<nat>)
    requires |dims| == |ix| == 2
    ensures Rank(dims, ix) == ix[0] * Prod(dims[1..]) + ix[1]
  {
    RankLast(dims, ix);
  }

  // --------------------------------------------------------------- partitions

  ghost function FPartition(m: Metas, r: nat, cc: seq<nat>, d: seq<Byte>): Partition
    requires FLayout(m, r) && InShape(cc, Grid(m, r)) && |d| == ArrayBytes(m)
  {
    ExchangedLayout(m, r, cc);
    Partition(cc[|cc| - 1], Pack(Grid(m, r), cc, |cc| - 1), Some(ChunkOf(Exchanged(m), r, Exchange(cc), d)))
  }

  ghost predicate FReadable(m: Metas, r: nat, p: Partition)
    requires r >= 1 && m.dims != []
  {
    && p.chunk.Some? && p.chunk.value.size <= |p.chunk.value.bytes|
    && InShape(DecodeName(Grid(m, r), p.clusterId, p.blockId), Grid(m, r))
  }

  /** Where the merge puts partition `p`, as a block of the exchanged array. */
  ghost function FPlace(m: Metas, r: nat, p: Partition): Placed
    requires r >= 1 && m.dims != [] && FReadable(m, r, p)
  {
    Placed(Exchange(DecodeName(Grid(m, r), p.clusterId, p.blockId)), p.chunk.value)
  }

  ghost function FPlaces(m: Metas, r: nat, ps: seq<Partition>): (qs: seq<Placed>)
    requires r >= 1 && m.dims != []
    requires forall i :: 0 <= i < |ps| ==> FReadable(m, r, ps[i])
    ensures |qs| == |ps| && forall i :: 0 <= i < |ps| ==> qs[i] == FPlace(m, r, ps[i])
  {
    seq(|ps|, i requires 0 <= i < |ps| => FPlace(m, r, ps[i]))
  }

  /** The name of a block decodes to the block, for any number of dimensions. */
  lemma FNameDecodes(blocks: seq<nat>, cc: seq<nat>)
    requires WidthFits(blocks) && InShape(cc, blocks)
    ensures DecodeName(blocks, cc[|cc| - 1], Pack(blocks, cc, |cc| - 1)) == cc
  {
    UnpackOfPack(blocks, cc, |cc| - 1);
    assert cc == cc[..|cc| - 1] + [cc[|cc| - 1]];
  }

  /** The merge reads back the block that the partition was named after. */
  lemma FPartitionReadable(m: Metas, r: nat, cc: seq<nat>, d: seq<Byte>)
    requires FLayout(m, r) && InShape(cc, Grid(m, r)) && |d| == ArrayBytes(m)
    ensures FReadable(m, r, FPartition(m, r, cc, d))
    ensures var p := FPartition(m, r, cc, d); DecodeName(Grid(m, r), p.clusterId, p.blockId) == cc
  {
    FNameDecodes(Grid(m, r), cc);
  }

  ghost predicate FromBlock(m: Metas, r: nat, d: seq<Byte>, p: Partition)
    requires FLayout(m, r) && |d| == ArrayBytes(m)
  {
    exists cc :: InShape(cc, Grid(m, r)) && p == FPartition(m, r, cc, d)
  }

  ghost predicate AllFromBlocks(m: Metas, r: nat, d: seq<Byte>, parts: seq<Partition>)
    requires FLayout(m, r) && |d| == ArrayBytes(m)
  {
    forall i :: 0 <= i < |parts| ==> FromBlock(m, r, d, parts[i])
  }

  /** The partition of every block of `d` is in the list. */
  ghost predicate HasBlocks(m: Metas, r: nat, d: seq<Byte>, parts: seq<Partition>)
    requires FLayout(m, r) && |d| == ArrayBytes(m)
  {
    forall cc :: InShape(cc, Grid(m, r)) ==> FPartition(m, r, cc, d) in parts
  }

  ghost predicate OwnPlaces(x: Metas, r: nat, d: seq<Byte>, qs: seq<Placed>)
    requires Layout(x, r) && |d| == ArrayBytes(x)
  {
    forall i :: 0 <= i < |qs| ==> InShape(qs[i].cc, Grid(x, r)) && qs[i].chunk == ChunkOf(x, r, qs[i].cc, d)
  }

  lemma PlacesAreOwn(m: Metas, r: nat, d: seq<Byte>, parts: seq<Partition>)
    requires FLayout(m, r) && |d| == ArrayBytes(m)
    requires Layout(Exchanged(m), r) && ArrayBytes(Exchanged(m)) == ArrayBytes(m)
    requires AllFromBlocks(m, r, d, parts)
    ensures forall i :: 0 <= i < |parts| ==> FReadable(m, r, parts[i])
    ensures OwnPlaces(Exchanged(m), r, d, FPlaces(m, r, parts))
  {
    forall i | 0 <= i < |parts| ensures FReadable(m, r, parts[i]) {
      FromBlockPlace(m, r, d, parts[i]);
    }
    var qs := FPlaces(m, r, parts);
    forall i | 0 <= i < |qs|
      ensures InShape(qs[i].cc, Grid(Exchanged(m), r)) && qs[i].chunk == ChunkOf(Exchanged(m), r, qs[i].cc, d)
    {
      FromBlockPlace(m, r, d, parts[i]);
    }
  }

  lemma OwnPlacesRebuild(x: Metas, r: nat, d: seq<Byte>, qs: seq<Placed>, was: seq<Byte>)
    requires Layout(x, r) && |d| == |was| == ArrayBytes(x) && OwnPlaces(x, r, d, qs)
    requires forall o :: InShape(o, Grid(x, r)) ==> Names(qs, o)
    ensures AllMergeable(x, r, qs) && Merged(x, r, qs, was) == d
  {
    MergeRebuilds(x, r, qs, d, was);
  }

  lemma FromBlockPlace(m: Metas, r: nat, d: seq<Byte>, p: Partition)
    requires FLayout(m, r) && |d| == ArrayBytes(m) && FromBlock(m, r, d, p)
    requires Layout(Exchanged(m), r) && ArrayBytes(Exchanged(m)) == ArrayBytes(m)
    ensures FReadable(m, r, p)
    ensures var q := FPlace(m, r, p);
            InShape(q.cc, Grid(Exchanged(m), r)) && q.chunk == ChunkOf(Exchanged(m), r, q.cc, d)
  {
    var cc :| InShape(cc, Grid(m, r)) && p == FPartition(m, r, cc, d);
    FPartitionReadable(m, r, cc, d);
    ExchangedLayout(m, r, cc);
  }

  /** Column-major split then merge is the identity: when every partition comes
      from a block of `d` and every block is there, in any order and over any
      buffer, the merge accepts all of them and rebuilds `d`. */
  lemma ColumnSplitMergeIdentity(m: Metas, r: nat, d: seq<Byte>, parts: seq<Partition>, was: seq<Byte>)
    requires FLayout(m, r) && |d| == |was| == ArrayBytes(m)
    requires AllFromBlocks(m, r, d, parts)
    requires HasBlocks(m, r, d, parts)
    ensures forall i :: 0 <= i < |parts| ==> FReadable(m, r, parts[i])
    ensures Layout(Exchanged(m), r) && AllMergeable(Exchanged(m), r, FPlaces(m, r, parts))
    ensures Merged(Exchanged(m), r, FPlaces(m, r, parts), was) == d
  {
    GridOrigin(m, r);
    PlacesAreOwn(m, r, d, parts);
    forall o | InShape(o, Grid(Exchanged(m), r)) ensures Names(FPlaces(m, r, parts), o) {
      ColumnBlockNamed(m, r, d, parts, o);
    }
    OwnPlacesRebuild(Exchanged(m), r, d, FPlaces(m, r, parts), was);
  }

  /** What draining the generator yields. */
  ghost function ColumnSplit(m: Metas, r: nat, d: seq<Byte>): (ps: seq<Partition>)
    requires FLayout(m, r) && |d| == ArrayBytes(m)
    ensures |ps| == Prod(Grid(m, r))
    ensures forall k :: 0 <= k < |ps| ==> ps[k] == FPartition(m, r, BlockAt(m, r, k), d)
  {
    seq(Prod(Grid(m, r)), k requires 0 <= k < Prod(Grid(m, r)) => FPartition(m, r, BlockAt(m, r, k), d))
  }

  lemma ColumnSplitHas(m: Metas, r: nat, d: seq<Byte>, cc: seq<nat>)
    requires FLayout(m, r) && |d| == ArrayBytes(m) && InShape(cc, Grid(m, r))
    ensures FPartition(m, r, cc, d) in ColumnSplit(m, r, d)
  {
    GridPos(m, r);
    RankBound(Grid(m, r), cc);
    DigitsOfRank(Grid(m, r), cc);
    assert ColumnSplit(m, r, d)[Rank(Grid(m, r), cc)] == FPartition(m, r, cc, d);
  }

  /** The drained partitions, in any order, rebuild the array. */
  lemma ColumnDrainRebuilds(m: Metas, r: nat, d: seq<Byte>, parts: seq<Partition>, was: seq<Byte>)
    requires FLayout(m, r) && |d| == |was| == ArrayBytes(m)
    requires multiset(parts) == multiset(ColumnSplit(m, r, d))
    ensures forall i :: 0 <= i < |parts| ==> FReadable(m, r, parts[i])
    ensures Layout(Exchanged(m), r) && AllMergeable(Exchanged(m), r, FPlaces(m, r, parts))
    ensures Merged(Exchanged(m), r, FPlaces(m, r, parts), was) == d
  {
    var split := ColumnSplit(m, r, d);
    forall i | 0 <= i < |parts| ensures FromBlock(m, r, d, parts[i]) {
      assert parts[i] in multiset(parts);
      assert parts[i] in split;
      var k :| 0 <= k < |split| && split[k] == parts[i];
    }
    forall cc | InShape(cc, Grid(m, r)) ensures FPartition(m, r, cc, d) in parts {
      ColumnSplitHas(m, r, d, cc);
      assert FPartition(m, r, cc, d) in multiset(split);
      assert FPartition(m, r, cc, d) in multiset(parts);
    }
    ColumnSplitMergeIdentity(m, r, d, parts, was);
  }

  lemma GridOrigin(m: Metas, r: nat)
    requires FLayout(m, r)
    ensures Layout(Exchanged(m), r) && ArrayBytes(Exchanged(m)) == ArrayBytes(m)
  {
    GridPos(m, r);
    ExchangedLayout(m, r, Uniform(|m.dims|, 0));
  }

  lemma ColumnBlockNamed(m: Metas, r: nat, d: seq<Byte>, parts: seq<Partition>, o: seq<nat>)
    requires FLayout(m, r) && |d| == ArrayBytes(m) && InShape(o, Grid(Exchanged(m), r))
    requires forall i :: 0 <= i < |parts| ==> FReadable(m, r, parts[i])
    requires HasBlocks(m, r, d, parts)
    ensures Names(FPlaces(m, r, parts), o)
  {
    ExchangeBack(m, r, o);
    var cc := Exchange(o);
    FPartitionReadable(m, r, cc, d);
    PlaceNamed(m, r, parts, FPartition(m, r, cc, d));
  }

  lemma PlaceNamed(m: Metas, r: nat, parts: seq<Partition>, p: Partition)
    requires r >= 1 && m.dims != [] && p in parts
    requires forall i :: 0 <= i < |parts| ==> FReadable(m, r, parts[i])
    ensures FReadable(m, r, p) && Names(FPlaces(m, r, parts), FPlace(m, r, p).cc)
  {
    var i :| 0 <= i < |parts| && parts[i] == p;
    assert FPlaces(m, r, parts)[i] == FPlace(m, r, p);
  }

  lemma ExchangeBack(m: Metas, r: nat, o: seq<nat>)
    requires r >= 1 && InShape(o, Grid(Exchanged(m), r))
    ensures InShape(Exchange(o), Grid(m, r)) && Exchange(Exchange(o)) == o
  {}

  // --------------------------------------------------------------- generator

  class FortranOrderGenerator {
    const metas: Metas
    const data: array?<Byte>
    const ndims: nat
    const rowElements: nat
    const blockSize: nat
    const nblocks: nat
    const blocksDim: seq<nat>
    const blockDims: seq<nat>
    var blockCounter: nat

    ghost predicate Valid()
    {
      && FGrid(metas, rowElements)
      && (data != null ==> FLayout(metas, rowElements) && data.Length == ArrayBytes(metas))
      && ndims == |metas.dims| && blockSize == BlockBytes(metas, rowElements)
      && blocksDim == Grid(metas, rowElements) && AllPos(blocksDim) && nblocks == Prod(blocksDim)
      && blockDims == Uniform(ndims, rowElements)
    }

    constructor (metas: Metas, data: array?<Byte>, rowElements: nat)
      requires FGrid(metas, rowElements)
      requires data != null ==> FLayout(metas, rowElements) && data.Length == ArrayBytes(metas)
      ensures Valid() && blockCounter == 0
      ensures this.metas == metas && this.data == data && this.rowElements == rowElements
    {
      GridPos(metas, rowElements);
      var size := FullBlockSize(metas, rowElements);
      this.metas, this.data, this.rowElements := metas, data, rowElements;
      ndims := |metas.dims|;
      blockSize := size;
      blocksDim := BlocksDim(metas.dims, rowElements);
      nblocks := Prod(BlocksDim(metas.dims, rowElements));
      blockDims := Uniform(|metas.dims|, rowElements);
      blockCounter := 0;
    }

    /** The next block: its name and, when there is data, its bytes.  Without data any
        number of dimensions is named. */
    method GetNextPartition() returns (res: Result<Partition>)
      requires Valid() && blockCounter < nblocks
      modifies this`blockCounter
      ensures Valid() && blockCounter == old(blockCounter) + 1
      ensures data != null ==>
                res == Ok(FPartition(metas, rowElements, BlockAt(metas, rowElements, old(blockCounter)), data[..]))
      ensures data == null ==> res.Ok? && res.value.chunk.None?
      ensures data == null ==>
                DecodeName(blocksDim, res.value.clusterId, res.value.blockId)
                    == BlockAt(metas, rowElements, old(blockCounter))
    {
      var blockCcs := GetIndexes(blockCounter, blocksDim);
      var clusterId := blockCcs[ndims - 1];
      var blockId := GetBlockID(blocksDim, blockCcs);
      blockCounter := blockCounter + 1;
      if data == null {
        FNameDecodes(blocksDim, blockCcs);
        return Ok(Partition(clusterId, blockId, None));
      }
      var cut := CutColumnBlock(blockCcs);
      if cut.ModuleException? {
        return ModuleException;
      }
      res := Ok(Partition(clusterId, blockId, Some(cut.value)));
    }

    /** The bytes of one block, copied as a block of the array with its dimensions
        exchanged. */
    method CutColumnBlock(cc: seq<nat>) returns (cut: Result<Chunk>)
      requires Valid() && data != null && InShape(cc, Grid(metas, rowElements))
      ensures Layout(Exchanged(metas), rowElements) && InShape(Exchange(cc), Grid(Exchanged(metas), rowElements))
      ensures ArrayBytes(Exchanged(metas)) == ArrayBytes(metas)
      ensures cut == Ok(ChunkOf(Exchanged(metas), rowElements, Exchange(cc), data[..]))
    {
      var bound := IsBound(cc, blocksDim);
      var lo := Scale(cc, rowElements);
      var offset := GetIdFromIndexesByColumns(metas.dims, lo);
      ColumnRankIsRank(metas.dims, lo);
      ExchangedLayout(metas, rowElements, cc);
      if !bound {
        assert !AtLimit(metas, rowElements, cc);
        InnerSides(metas, rowElements, cc);
        assert Exchange(blockDims) == blockDims;
        cut := CutBlock(Exchanged(metas), rowElements, data, offset, blockDims, blockSize, Exchange(cc));
      } else {
        var boundDims, boundSize := BoundShape(metas, rowElements, blocksDim, lo, cc);
        cut := CutBlock(Exchanged(metas), rowElements, data, offset, Exchange(boundDims), boundSize, Exchange(cc));
      }
    }
  }

  /** merge_partitions of the column-major layout; it fails exactly when some
      chunk has a size that its block does not accept. */
  method MergeColumns(metas: Metas, rowElements: nat, chunks: seq<Partition>, out: array<Byte>) returns (ok: bool)
    requires FLayout(metas, rowElements) && out.Length == ArrayBytes(metas)
    requires forall i :: 0 <= i < |chunks| ==> FReadable(metas, rowElements, chunks[i])
    modifies out
    ensures Layout(Exchanged(metas), rowElements)
    ensures ok <==> AllMergeable(Exchanged(metas), rowElements, FPlaces(metas, rowElements, chunks))
    ensures ok ==> out[..] == Merged(Exchanged(metas), rowElements, FPlaces(metas, rowElements, chunks), old(out[..]))
  {
    GridOrigin(metas, rowElements);
    ghost var x, was, ps := Exchanged(metas), out[..], FPlaces(metas, rowElements, chunks);
    for i := 0 to |chunks|
      invariant AllMergeable(x, rowElements, ps[..i])
      invariant out[..] == Merged(x, rowElements, ps[..i], was)
    {
      assert ps[i] == FPlace(metas, rowElements, chunks[i]);
      ok := MergeColumn(metas, rowElements, chunks[i], out);
      if !ok {
        assert !Mergeable(x, rowElements, ps[i]);
        return;
      }
      MergedSnoc(x, rowElements, ps, i, was);
    }
    assert ps[..|chunks|] == ps;
    ok := true;
  }

  lemma MergedSnoc(x: Metas, r: nat, ps: seq<Placed>, i: nat, was: seq<Byte>)
    requires Layout(x, r) && i < |ps| && AllMergeable(x, r, ps[..i]) && Mergeable(x, r, ps[i])
    ensures AllMergeable(x, r, ps[..i + 1])
    ensures Merged(x, r, ps[..i + 1], was) == PasteBlock(x, r, Merged(x, r, ps[..i], was), ps[i].cc, ps[i].chunk)
  {
    assert ps[..i + 1] == ps[..i] + [ps[i]];
    assert ps[..i + 1][..|ps[..i + 1]| - 1] == ps[..i];
  }

  /** One chunk pasted as the block its name decodes to. */
  method MergeColumn(metas: Metas, rowElements: nat, chunk: Partition, out: array<Byte>) returns (ok: bool)
    requires FLayout(metas, rowElements) && out.Length == ArrayBytes(metas)
    requires FReadable(metas, rowElements, chunk)
    modifies out
    ensures Layout(Exchanged(metas), rowElements)
    ensures ok <==> Mergeable(Exchanged(metas), rowElements, FPlace(metas, rowElements, chunk))
    ensures ok ==> out[..] == PasteBlock(Exchanged(metas), rowElements, old(out[..]),
                                         FPlace(metas, rowElements, chunk).cc, chunk.chunk.value)
  {
    var blocksDim := BlocksDim(metas.dims, rowElements);
    var blockSize := FullBlockSize(metas, rowElements);
    var ccs := DecodeBlockID(blocksDim, chunk.clusterId, chunk.blockId);
    ghost var cc := Exchange(ccs);
    ExchangedLayout(metas, rowElements, ccs);
    var bound := IsBound(ccs, blocksDim);
    LimitExchanged(metas, rowElements, ccs);
    var lo := Scale(ccs, rowElements);
    var offset := GetIdFromIndexesByColumns(metas.dims, lo);
    ColumnRankIsRank(metas.dims, lo);
    var dimsFortran := Exchange(metas.dims);
    ByteRankIsRank(dimsFortran, Exchange(lo), metas.elemSize);
    SidesFit(dimsFortran, rowElements, cc, metas.elemSize);
    ExtentFits(dimsFortran, Sides(dimsFortran, rowElements, cc), metas.elemSize, Exchange(lo));
    var input := chunk.chunk.value;
    ghost var before := out[..];
    if !bound {
      InnerSides(Exchanged(metas), rowElements, cc);
      if input.size != blockSize {
        return false;
      }
      ok := CopyBlockToArray(dimsFortran, Uniform(|metas.dims|, rowElements), metas.elemSize, out,
                             offset * metas.elemSize, input.bytes, 0, input.size);
    } else {
      var boundDims, boundSize := BoundShape(metas, rowElements, blocksDim, lo, ccs);
      ok := CopyBlockToArray(dimsFortran, Exchange(boundDims), metas.elemSize, out,
                             offset * metas.elemSize, input.bytes, 0, input.size);
    }
    if ok {
      assert out[..] == PasteBlock(Exchanged(metas), rowElements, before, cc, input);
    }
  }

  lemma LimitExchanged(m: Metas, r: nat, cc: seq<nat>)
    requires FLayout(m, r) && InShape(cc, Grid(m, r))
    requires InShape(Exchange(cc), Grid(Exchanged(m), r))
    ensures AtLimit(m, r, cc) <==> AtLimit(Exchanged(m), r, Exchange(cc))
  {
    var x, g, h := Exchange(cc), Grid(m, r), Grid(Exchanged(m), r);
    if |cc| == 1 {
      assert x == cc && h == g;
    } else {
      assert x[0] == cc[1] && x[1] == cc[0] && h[0] == g[1] && h[1] == g[0];
    }
  }
}
