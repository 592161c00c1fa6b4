/** The stateful Z-order generators and the merge that undoes them. */
module ZorderGenerator {
  import opened Arith
  import opened Collections
  import opened MixedRadix
  import opened Boxes
  import opened Tessellation
  import opened Morton
  import opened Partitions
  import opened ZorderCurve

  /** The contents of an optional array. */
  ghost function Contents(data: array?<Byte>): Option<seq<Byte>>
    reads data
  {
    if data == null then None else Some(data[..])
  }

  /** `block_size`: the bytes of a block that is not at a limit. */
  method FullBlockSize(metas: Metas, rowElements: nat) returns (size: nat)
    ensures size == BlockBytes(metas, rowElements)
  {
    var dims := Uniform(|metas.dims|, rowElements);
    BytesProd(dims, metas.elemSize);
    size := Prod(dims) * metas.elemSize;
  }

  /** Whether `ccs` touches the end of a dimension. */
  method IsBound(ccs: seq<nat>, blocksDim: seq<nat>) returns (bound: bool)
    requires InShape(ccs, blocksDim)
    ensures bound <==> exists i :: 0 <= i < |ccs| && ccs[i] == blocksDim[i] - 1
  {
    bound := false;
    for i := 0 to |ccs|
      invariant bound <==> exists k :: 0 <= k < i && ccs[k] == blocksDim[k] - 1
    {
      if ccs[i] == blocksDim[i] - 1 { bound := true; }
    }
  }

  /** Scales block coordinates to element coordinates. */
  method Scale(ccs: seq<nat>, rowElements: nat) returns (lo: seq<nat>)
    ensures lo == Corner(ccs, rowElements)
  {
    lo := ccs;
    for i := 0 to |ccs|
      invariant |lo| == |ccs|
      invariant forall k :: 0 <= k < i ==> lo[k] == ccs[k] * rowElements
      invariant forall k :: i <= k < |ccs| ==> lo[k] == ccs[k]
    {
      lo := lo[i := lo[i] * rowElements];
    }
  }

  /** Shape and size of a block at a limit, from its scaled coordinates. */
  method BoundShape(metas: Metas, rowElements: nat, blocksDim: seq<nat>, lo: seq<nat>, ghost cc: seq<nat>)
      returns (shape: seq<nat>, size: nat)
    requires Layout(metas, rowElements) && InShape(cc, blocksDim) && blocksDim == Grid(metas, rowElements)
    requires lo == Corner(cc, rowElements)
    ensures shape == Sides(metas.dims, rowElements, cc)
    ensures size == Bytes(shape, metas.elemSize)
  {
    shape := Uniform(|metas.dims|, 0);
    size := metas.elemSize;
    for i := 0 to |metas.dims|
      invariant |shape| == |metas.dims|
      invariant forall k :: 0 <= k < i ==> shape[k] == Side(metas.dims[k], rowElements, cc[k])
      invariant size == Prod(shape[..i]) * metas.elemSize
    {
      SideFits(metas.dims[i], rowElements, cc[i]);
      DivModUnique(lo[i], rowElements, cc[i], 0);
      var side;
      if lo[i] / rowElements != blocksDim[i] - 1 {
        side := rowElements;
      } else {
        side := metas.dims[i] - (blocksDim[i] - 1) * rowElements;
      }
      ghost var before := shape[..i];
      shape := shape[i := side];
      assert shape[..i] == before;
      ProdPrefix(shape, i);
      Tessellation.Swap(Prod(shape[..i]), metas.elemSize, side);
      size := size * shape[i];
    }
    assert shape[..|shape|] == shape;
    BytesProd(shape, metas.elemSize);
    assert shape == Sides(metas.dims, rowElements, cc);
  }

  /** Copies block `cc` of the array, whose corner is `offset` elements in, into a fresh chunk.  `false` is the
      ModuleException of the copy, which never happens. */
  method CutBlock(metas: Metas, rowElements: nat, data: array<Byte>, offset: nat, shape: seq<nat>, size: nat,
                  ghost cc: seq<nat>)
      returns (res: Result<Chunk>)
    requires Layout(metas, rowElements) && InShape(cc, Grid(metas, rowElements))
    requires offset == Rank(metas.dims, Corner(cc, rowElements))
    requires shape == Sides(metas.dims, rowElements, cc) && size == Bytes(shape, metas.elemSize)
    requires data.Length == ArrayBytes(metas)
    ensures res == Ok(ChunkOf(metas, rowElements, cc, data[..]))
  {
    ghost var lo := Corner(cc, rowElements);
    ByteRankIsRank(metas.dims, lo, metas.elemSize);
    SidesFit(metas.dims, rowElements, cc, metas.elemSize);
    ExtentFits(metas.dims, shape, metas.elemSize, lo);
    var out := new Byte[size];
    var ok := Tessellate(metas.dims, shape, metas.elemSize, data, offset * metas.elemSize, out, 0, size);
    if !ok {
      return ModuleException;
    }
    forall p | 0 <= p < size
      ensures out[p] == BlockData(metas, rowElements, cc, data[..])[p]
    {
      assert out[0 + p] == data[offset * metas.elemSize + Src(metas.dims, shape, metas.elemSize, p)];
      BlockByteFits(metas, rowElements, cc, p);
    }
    assert out[..] == BlockData(metas, rowElements, cc, data[..]);
    res := Ok(Chunk(size, out[..]));
  }

  class ZorderCurveGenerator {
    const metas: Metas
    const data: array?<Byte>
    const ndims: nat
    const nreddims: nat
    const rowElements: nat
    const blockSize: nat
    const nblocks: nat
    const nclusters: nat
    const blocksDim: seq<nat>
    const clustersDim: seq<nat>
    const blockDims: seq<nat>
    var done: bool
    var boundDims: seq<nat>
    var blockCounter: nat

    ghost predicate Valid()
    {
      && ZLayout(metas, rowElements)
      && (data != null ==> data.Length == ArrayBytes(metas))
      && ndims == |metas.dims| && nreddims == (if ndims < 2 then ndims else 2)
      && blockSize == BlockBytes(metas, rowElements)
      && blocksDim == Grid(metas, rowElements) && AllPos(blocksDim) && nblocks == Prod(blocksDim)
      && clustersDim == ClustersDim(blocksDim) && AllPos(clustersDim) && nclusters == Prod(clustersDim)
      && blockDims == Uniform(ndims, rowElements)
    }

    /** `rowElements` stands for the truncated floating-point root. */
    constructor (metas: Metas, data: array?<Byte>, rowElements: nat)
      requires ZLayout(metas, rowElements)
      requires data != null ==> data.Length == ArrayBytes(metas)
      ensures Valid() && this.metas == metas && this.data == data && this.rowElements == rowElements
      ensures !done && blockCounter == 0
    {
      GridPos(metas, rowElements);
      var n := |metas.dims|;
      var size := FullBlockSize(metas, rowElements);
      var blocks: seq<nat> := Uniform(n, 0);
      var clusters: seq<nat> := Uniform(n, 0);
      var nb: nat, nc: nat := 1, 1;
      for dim := 0 to n
        invariant |blocks| == |clusters| == n
        invariant forall i :: 0 <= i < dim ==> blocks[i] == CeilDiv(metas.dims[i], rowElements)
        invariant forall i :: 0 <= i < dim ==> clusters[i] == if i < 2 then (blocks[i] + 1) / 2 else blocks[i]
        invariant nb == Prod(blocks[..dim]) && nc == Prod(clusters[..dim])
      {
        ghost var blocks0, clusters0 := blocks[..dim], clusters[..dim];
        blocks := blocks[dim := CeilDiv(metas.dims[dim], rowElements)];
        if dim < 2 {
          clusters := clusters[dim := (blocks[dim] + 1) / 2];
        } else {
          clusters := clusters[dim := blocks[dim]];
        }
        assert blocks[..dim] == blocks0 && clusters[..dim] == clusters0;
        ProdPrefix(blocks, dim);
        ProdPrefix(clusters, dim);
        nb := nb * blocks[dim];
        nc := nc * clusters[dim];
      }
      assert blocks[..n] == blocks && clusters[..n] == clusters;
      this.metas, this.data, this.rowElements := metas, data, rowElements;
      ndims := n;
      nreddims := if n < 2 then n else 2;
      blockSize := size;
      blocksDim, clustersDim := blocks, clusters;
      nblocks, nclusters := nb, nc;
      blockDims := Uniform(n, rowElements);
      boundDims := Uniform(n, 0);
      done, blockCounter := false, 0;
      new;
      assert blocksDim == Grid(metas, rowElements);
      assert clustersDim == ClustersDim(blocksDim);
    }

    method IsDone() returns (b: bool)
      modifies this`done
      ensures b == done == (old(done) || blockCounter >= nblocks)
    {
      if blockCounter >= nblocks { done := true; }
      b := done;
    }

    /** Cuts the next block: its name and, when there is data, its bytes.  None of
        the exceptions of the copy is ever raised. */
    method GetNextPartition() returns (res: Result<Partition>)
      requires Valid() && blockCounter < nblocks
      modifies this`blockCounter, this`boundDims
      ensures Valid() && blockCounter == old(blockCounter) + 1
      ensures res == Ok(ZPartition(metas, rowElements, BlockAt(metas, rowElements, old(blockCounter)), Contents(data)))
      ensures res.value.chunk.Some? ==> res.value.chunk.value.size <= BLOCK_SIZE
    {
      var blockCcs := GetIndexes(blockCounter, blocksDim);
      ghost var cc := blockCcs;
      assert cc == BlockAt(metas, rowElements, blockCounter);
      GridCoordFits(metas, rowElements, cc);
      var zorderId := ComputeZorder(blockCcs);
      var clusterId, blockId := ClusterId(zorderId), BlockId(zorderId);
      blockCounter := blockCounter + 1;
      if data == null {
        return Ok(Partition(clusterId, blockId, None));
      }
      BlockFits(metas, rowElements, cc);
      var bound := IsBound(blockCcs, blocksDim);
      var lo := Scale(blockCcs, rowElements);
      var offset := GetIdFromIndexes(metas.dims, lo);
      var cut;
      if !bound {
        assert !AtLimit(metas, rowElements, cc);
        InnerSides(metas, rowElements, cc);
        cut := CutBlock(metas, rowElements, data, offset, blockDims, blockSize, cc);
      } else {
        var boundSize;
        boundDims, boundSize := BoundShape(metas, rowElements, blocksDim, lo, cc);
        cut := CutBlock(metas, rowElements, data, offset, boundDims, boundSize, cc);
      }
      if cut.ModuleException? {
        return ModuleException;
      }
      res := Ok(Partition(clusterId, blockId, Some(cut.value)));
    }

    /** The next cluster id; after the last one, CLUSTER_END_FLAG. */
    method ComputeNextClusterId() returns (id: nat)
      requires Valid() && blockCounter <= nclusters
      modifies this`blockCounter, this`done
      ensures old(done) || old(blockCounter) == nclusters ==>
                id == CLUSTER_END_FLAG && done && blockCounter == old(blockCounter)
      ensures !old(done) && old(blockCounter) < nclusters ==>
                id == ClusterIds(blocksDim)[old(blockCounter)]
                && blockCounter == old(blockCounter) + 1 && (done <==> blockCounter == nclusters)
    {
      if done || blockCounter == nclusters {
        done := true;
        return CLUSTER_END_FLAG;
      }
      var blockCcs := GetIndexes(blockCounter, clustersDim);
      ghost var c := blockCcs;
      for i := 0 to nreddims
        invariant |blockCcs| == ndims
        invariant forall k :: 0 <= k < ndims ==> blockCcs[k] == if k < i then 2 * c[k] else c[k]
      {
        blockCcs := blockCcs[i := blockCcs[i] * 2];
      }
      assert blockCcs == Anchor(c);
      AnchorInGrid(blocksDim, c);
      GridFits(blocksDim, blockCcs);
      var zorderId := ComputeZorder(blockCcs);
      blockCounter := blockCounter + 1;
      if blockCounter == nclusters { done := true; }
      id := ClusterId(zorderId);
    }
  }

  /** A generator restricted to a list of block coordinates. */
  class ZorderCurveGeneratorFiltered {
    const base: ZorderCurveGenerator
    var coord: seq<seq<nat>>
    var done: bool

    ghost predicate Valid()
      reads this
    {
      base.Valid() && forall i :: 0 <= i < |coord| ==> InShape(coord[i], base.blocksDim)
    }

    constructor (metas: Metas, data: array?<Byte>, rowElements: nat, coord: seq<seq<nat>>)
      requires ZLayout(metas, rowElements)
      requires data != null ==> data.Length == ArrayBytes(metas)
      requires forall i :: 0 <= i < |coord| ==> InShape(coord[i], Grid(metas, rowElements))
      ensures Valid() && fresh(base) && this.coord == coord && !done
      ensures base.metas == metas && base.data == data && base.rowElements == rowElements
    {
      base := new ZorderCurveGenerator(metas, data, rowElements);
      this.coord, done := coord, false;
    }

    method IsDone() returns (b: bool)
      modifies this`done
      ensures b == done == (old(done) || coord == [])
    {
      if coord == [] { done := true; }
      b := done;
    }

    method GetNextPartition() returns (res: Result<Partition>)
      requires Valid() && coord != []
      modifies this`coord, base`blockCounter, base`boundDims
      ensures Valid() && coord == old(coord[1..])
      ensures res == Ok(ZPartition(base.metas, base.rowElements, old(coord[0]), Contents(base.data)))
      ensures InShape(old(coord[0]), Grid(base.metas, base.rowElements))
    {
      var counter := GetBlockCounter(coord[0], base.blocksDim);
      RankBound(base.blocksDim, coord[0]);
      DigitsOfRank(base.blocksDim, coord[0]);
      base.blockCounter := counter;
      assert BlockAt(base.metas, base.rowElements, counter) == coord[0];
      coord := coord[1..];
      res := base.GetNextPartition();
    }
  }

  /** merge_partitions: pastes every chunk at the block its name decodes to.  It
      fails exactly when some chunk has a size that its block does not accept. */
  method MergePartitions(metas: Metas, rowElements: nat, chunks: seq<Partition>, out: array<Byte>) returns (ok: bool)
    requires ZLayout(metas, rowElements) && out.Length == ArrayBytes(metas)
    requires forall i :: 0 <= i < |chunks| ==> Readable(metas, rowElements, chunks[i])
    modifies out
    ensures ok <==> AllMergeable(metas, rowElements, Places(metas, rowElements, chunks))
    ensures ok ==> out[..] == Merged(metas, rowElements, Places(metas, rowElements, chunks), old(out[..]))
  {
    var ndims := |metas.dims|;
    var blockSize := FullBlockSize(metas, rowElements);
    var blocksDim := BlocksDim(metas.dims, rowElements);
    var blockShape := Uniform(ndims, rowElements);
    ghost var was, ps := out[..], Places(metas, rowElements, chunks);
    for i := 0 to |chunks|
      invariant AllMergeable(metas, rowElements, ps[..i])
      invariant out[..] == Merged(metas, rowElements, ps[..i], was)
    {
      var chunk := chunks[i];
      assert Readable(metas, rowElements, chunk);
      var cc := ComputeZorderInverse(Rejoin(chunk.clusterId, chunk.blockId), ndims);
      assert ps[i] == Placed(cc, chunk.chunk.value);
      var bound := IsBound(cc, blocksDim);
      var lo := Scale(cc, rowElements);
      var offset := GetIdFromIndexes(metas.dims, lo);
      ByteRankIsRank(metas.dims, lo, metas.elemSize);
      SidesFit(metas.dims, rowElements, cc, metas.elemSize);
      ExtentFits(metas.dims, Sides(metas.dims, rowElements, cc), metas.elemSize, lo);
      var input := chunk.chunk.value;
      ghost var before := out[..];
      assert bound <==> AtLimit(metas, rowElements, cc);
      if !bound {
        InnerSides(metas, rowElements, cc);
        if input.size != blockSize {
          assert !Mergeable(metas, rowElements, ps[i]);
          return false;
        }
        ok := CopyBlockToArray(metas.dims, blockShape, metas.elemSize, out, offset * metas.elemSize, input.bytes, 0,
                               input.size);
      } else {
        var boundDims, boundSize := BoundShape(metas, rowElements, blocksDim, lo, cc);
        ok := CopyBlockToArray(metas.dims, boundDims, metas.elemSize, out, offset * metas.elemSize, input.bytes, 0,
                               input.size);
      }
      if !ok {
        assert !Mergeable(metas, rowElements, ps[i]);
        return;
      }
      assert Mergeable(metas, rowElements, ps[i]);
      assert out[..] == PasteBlock(metas, rowElements, before, cc, input);
      assert ps[..i + 1] == ps[..i] + [ps[i]];
      assert ps[..i + 1][..|ps[..i + 1]| - 1] == ps[..i];
    }
    assert ps[..|chunks|] == ps;
    ok := true;
  }
}
