/** Storing arrays as rows of a table, whole or by block coordinates, and
    reading them back.  The table holds the rows of one storage id. */
module ArrayStore {
  import opened Arith
  import opened Collections
  import opened MixedRadix
  import opened Boxes
  import opened Tessellation
  import opened Morton
  import opened Partitions
  import opened ZorderCurve
  import opened ZorderGenerator

  type Table = map<(nat, nat), Chunk>

  ghost function Name(cc: seq<nat>): (nat, nat)
    requires cc != []
  {
    (ClusterId(Zorder(cc)), BlockId(Zorder(cc)))
  }

  ghost predicate InGrid(m: Metas, r: nat, ccs: seq<seq<nat>>)
    requires r >= 1
  {
    forall i :: 0 <= i < |ccs| ==> InShape(ccs[i], Grid(m, r))
  }

  /** Every block of the grid, in generation order. */
  ghost function AllBlocks(m: Metas, r: nat): (ccs: seq<seq<nat>>)
    requires Layout(m, r)
    ensures |ccs| == Prod(Grid(m, r)) && InGrid(m, r, ccs)
    ensures forall k :: 0 <= k < |ccs| ==> ccs[k] == BlockAt(m, r, k)
  {
    seq(Prod(Grid(m, r)), k requires 0 <= k < Prod(Grid(m, r)) => BlockAt(m, r, k))
  }

  lemma AllBlocksHas(m: Metas, r: nat, cc: seq<nat>)
    requires Layout(m, r) && InShape(cc, Grid(m, r))
    ensures cc in AllBlocks(m, r)
  {
    RankBound(Grid(m, r), cc);
    GridPos(m, r);
    DigitsOfRank(Grid(m, r), cc);
    assert AllBlocks(m, r)[Rank(Grid(m, r), cc)] == cc;
  }

  /** The table after the blocks `ccs` of `d` have been written in order. */
  ghost function Stored(m: Metas, r: nat, table: Table, ccs: seq<seq<nat>>, d: seq<Byte>): Table
    requires Layout(m, r) && InGrid(m, r, ccs) && |d| == ArrayBytes(m)
  {
    if ccs == [] then table
    else
      var last := ccs[|ccs| - 1];
      assert InShape(last, Grid(m, r));
      Stored(m, r, table, ccs[..|ccs| - 1], d)[Name(last) := ChunkOf(m, r, last, d)]
  }

  lemma StoredStep(m: Metas, r: nat, table: Table, ccs: seq<seq<nat>>, n: nat, d: seq<Byte>)
    requires Layout(m, r) && InGrid(m, r, ccs) && |d| == ArrayBytes(m) && n < |ccs|
    ensures Stored(m, r, table, ccs[..n + 1], d)
        == Stored(m, r, table, ccs[..n], d)[Name(ccs[n]) := ChunkOf(m, r, ccs[n], d)]
  {
    assert ccs[..n + 1][..|ccs[..n + 1]| - 1] == ccs[..n];
  }

  /** A row is the new block exactly when its coordinates were listed, however
      often; every other row is untouched. */
  lemma {:induction false} StoredAt(m: Metas, r: nat, table: Table, ccs: seq<seq<nat>>, d: seq<Byte>, cc: seq<nat>)
    requires ZLayout(m, r) && InGrid(m, r, ccs) && |d| == ArrayBytes(m) && InShape(cc, Grid(m, r))
    ensures cc in ccs ==>
              Name(cc) in Stored(m, r, table, ccs, d) && Stored(m, r, table, ccs, d)[Name(cc)] == ChunkOf(m, r, cc, d)
    ensures cc !in ccs && Name(cc) in table ==>
              Name(cc) in Stored(m, r, table, ccs, d) && Stored(m, r, table, ccs, d)[Name(cc)] == table[Name(cc)]
    ensures cc !in ccs && Name(cc) !in table ==> Name(cc) !in Stored(m, r, table, ccs, d)
  {
    if ccs == [] {
    } else {
      var front, last := ccs[..|ccs| - 1], ccs[|ccs| - 1];
      assert InShape(last, Grid(m, r));
      StoredAt(m, r, table, front, d, cc);
      GridCoordFits(m, r, cc);
      GridCoordFits(m, r, last);
      NamesDistinct(cc, last);
      assert ccs == front + [last];
    }
  }

  /** The rows a reader finds for the blocks it wants, in order. */
  ghost function Found(table: Table, ccs: seq<seq<nat>>): (ps: seq<Placed>)
    requires forall i :: 0 <= i < |ccs| ==> ccs[i] != []
    ensures forall i :: 0 <= i < |ps| ==>
              ps[i].cc in ccs && Name(ps[i].cc) in table && ps[i].chunk == table[Name(ps[i].cc)]
  {
    if ccs == [] then []
    else
      var last := ccs[|ccs| - 1];
      var front := Found(table, ccs[..|ccs| - 1]);
      if Name(last) in table then front + [Placed(last, table[Name(last)])] else front
  }

  lemma FoundStep(table: Table, ccs: seq<seq<nat>>, n: nat)
    requires n < |ccs| && forall i :: 0 <= i < |ccs| ==> ccs[i] != []
    ensures Found(table, ccs[..n + 1]) ==
            Found(table, ccs[..n]) + if Name(ccs[n]) in table then [Placed(ccs[n], table[Name(ccs[n])])] else []
  {
    assert ccs[..n + 1][..|ccs[..n + 1]| - 1] == ccs[..n];
  }

  lemma {:induction false} FoundNames(table: Table, ccs: seq<seq<nat>>, cc: seq<nat>)
    requires forall i :: 0 <= i < |ccs| ==> ccs[i] != []
    requires cc in ccs && Name(cc) in table
    ensures Names(Found(table, ccs), cc)
  {
    var last, front := ccs[|ccs| - 1], ccs[..|ccs| - 1];
    assert ccs == front + [last];
    if cc == last {
      var ps := Found(table, ccs);
      assert ps[|ps| - 1].cc == cc;
    } else {
      FoundNames(table, front, cc);
      var i :| 0 <= i < |Found(table, front)| && Found(table, front)[i].cc == cc;
      assert Found(table, ccs)[i].cc == cc;
    }
  }

  /** Payload buffers state no more bytes than they hold. */
  ghost predicate Sound(table: Table) {
    forall k :: k in table ==> table[k].size <= |table[k].bytes|
  }

  lemma {:induction false} StoredSound(m: Metas, r: nat, table: Table, ccs: seq<seq<nat>>, d: seq<Byte>)
    requires Layout(m, r) && InGrid(m, r, ccs) && |d| == ArrayBytes(m) && Sound(table)
    ensures Sound(Stored(m, r, table, ccs, d))
  {
    if ccs == [] {
    } else {
      assert InShape(ccs[|ccs| - 1], Grid(m, r));
      StoredSound(m, r, table, ccs[..|ccs| - 1], d);
    }
  }

  /** Every block of `t` comes from `b` when listed in `coord`, else from `a`. */
  ghost predicate Overlaid(m: Metas, r: nat, t: Table, a: seq<Byte>, b: seq<Byte>, coord: seq<seq<nat>>)
    requires Layout(m, r) && |a| == |b| == ArrayBytes(m)
  {
    forall cc :: InShape(cc, Grid(m, r)) ==>
      Name(cc) in t && t[Name(cc)] == if cc in coord then ChunkOf(m, r, cc, b) else ChunkOf(m, r, cc, a)
  }

  lemma StoresOverlay(m: Metas, r: nat, table: Table, a: seq<Byte>, b: seq<Byte>, coord: seq<seq<nat>>)
    requires ZLayout(m, r) && |a| == |b| == ArrayBytes(m) && InGrid(m, r, coord)
    ensures Overlaid(m, r, Stored(m, r, Stored(m, r, table, AllBlocks(m, r), a), coord, b), a, b, coord)
  {
    forall cc | InShape(cc, Grid(m, r))
      ensures var t := Stored(m, r, Stored(m, r, table, AllBlocks(m, r), a), coord, b);
              Name(cc) in t && t[Name(cc)] == if cc in coord then ChunkOf(m, r, cc, b) else ChunkOf(m, r, cc, a)
    {
      AllBlocksHas(m, r, cc);
      StoredAt(m, r, table, AllBlocks(m, r), a, cc);
      StoredAt(m, r, Stored(m, r, table, AllBlocks(m, r), a), coord, b, cc);
    }
  }

  /** Byte `k` when the blocks `want` of the overlay are read over `was`. */
  ghost function OverlayAt(m: Metas, r: nat, a: seq<Byte>, b: seq<Byte>, coord: seq<seq<nat>>, want: seq<seq<nat>>,
                           was: seq<Byte>, k: nat): Byte
    requires Layout(m, r) && |a| == |b| == |was| == ArrayBytes(m) && k < |was|
  {
    var o := Owner(m.dims, r, m.elemSize, k);
    if o !in want then was[k] else if o in coord then b[k] else a[k]
  }

  lemma OverlaidMergeable(m: Metas, r: nat, t: Table, a: seq<Byte>, b: seq<Byte>, coord: seq<seq<nat>>,
                          want: seq<seq<nat>>)
    requires ZLayout(m, r) && |a| == |b| == ArrayBytes(m) && InGrid(m, r, want)
    requires Overlaid(m, r, t, a, b, coord)
    ensures AllMergeable(m, r, Found(t, want))
  {
    var ps := Found(t, want);
    forall i | 0 <= i < |ps| ensures Mergeable(m, r, ps[i]) {
      OwnChunkAccepted(m, r, ps[i].cc, a);
      OwnChunkAccepted(m, r, ps[i].cc, b);
    }
  }

  /** Partial store is an exact overlay.  After array `a` has been stored whole and
      then the blocks `coord` of array `b`, reading the blocks `want` over any
      buffer is accepted by the merge and gives `b` on the stored blocks, `a` on
      the other wanted blocks, and leaves the rest of the buffer alone. */
  lemma OverlayReads(m: Metas, r: nat, table: Table, a: seq<Byte>, b: seq<Byte>,
                     coord: seq<seq<nat>>, want: seq<seq<nat>>, was: seq<Byte>)
    requires ZLayout(m, r) && |a| == |b| == |was| == ArrayBytes(m)
    requires InGrid(m, r, coord) && InGrid(m, r, want)
    ensures var t := Stored(m, r, Stored(m, r, table, AllBlocks(m, r), a), coord, b);
            var ps := Found(t, want);
            && AllMergeable(m, r, ps)
            && (want != [] ==> ps != [])
            && forall k :: 0 <= k < |was| ==>
                 Merged(m, r, ps, was)[k] == OverlayAt(m, r, a, b, coord, want, was, k)
  {
    StoresOverlay(m, r, table, a, b, coord);
    OverlaidReads(m, r, Stored(m, r, Stored(m, r, table, AllBlocks(m, r), a), coord, b), a, b, coord, want, was);
  }

  lemma OverlaidReads(m: Metas, r: nat, t: Table, a: seq<Byte>, b: seq<Byte>,
                      coord: seq<seq<nat>>, want: seq<seq<nat>>, was: seq<Byte>)
    requires ZLayout(m, r) && |a| == |b| == |was| == ArrayBytes(m)
    requires InGrid(m, r, coord) && InGrid(m, r, want) && Overlaid(m, r, t, a, b, coord)
    ensures AllMergeable(m, r, Found(t, want))
    ensures want != [] ==> Found(t, want) != []
    ensures forall k :: 0 <= k < |was| ==>
              Merged(m, r, Found(t, want), was)[k] == OverlayAt(m, r, a, b, coord, want, was, k)
  {
    OverlaidMergeable(m, r, t, a, b, coord, want);
    if want != [] {
      assert InShape(want[0], Grid(m, r));
      FoundNames(t, want, want[0]);
    }
    forall k | 0 <= k < |was|
      ensures Merged(m, r, Found(t, want), was)[k] == OverlayAt(m, r, a, b, coord, want, was, k)
    {
      OverlayByte(m, r, t, a, b, coord, want, was, k);
    }
  }

  lemma OverlayByte(m: Metas, r: nat, t: Table, a: seq<Byte>, b: seq<Byte>,
                    coord: seq<seq<nat>>, want: seq<seq<nat>>, was: seq<Byte>, k: nat)
    requires ZLayout(m, r) && |a| == |b| == |was| == ArrayBytes(m) && k < |was|
    requires InGrid(m, r, coord) && InGrid(m, r, want)
    requires Overlaid(m, r, t, a, b, coord) && AllMergeable(m, r, Found(t, want))
    ensures Merged(m, r, Found(t, want), was)[k] == OverlayAt(m, r, a, b, coord, want, was, k)
  {
    var o, ps := Owner(m.dims, r, m.elemSize, k), Found(t, want);
    BlockDataAt(m, r, a, k);
    BlockDataAt(m, r, b, k);
    assert Agree(ps, o, BlockPos(m, r, k), if o in coord then b[k] else a[k]);
    MergedAt(m, r, ps, was, k, if o in coord then b[k] else a[k]);
    if o in want {
      FoundNames(t, want, o);
    }
  }

  // -------------------------------------------------------------- operations

  class ArrayDataStore {
    var table: Table

    /** Writes the whole array, one row per block. */
    method StoreNumpy(metas: Metas, data: array<Byte>, rowElements: nat)
      requires ZLayout(metas, rowElements) && data.Length == ArrayBytes(metas)
      modifies this
      ensures table == Stored(metas, rowElements, old(table), AllBlocks(metas, rowElements), data[..])
    {
      var it := new ZorderCurveGenerator(metas, data, rowElements);
      ghost var all, d, n := AllBlocks(metas, rowElements), data[..], 0;
      var isDone := it.IsDone();
      while !isDone
        invariant n == it.blockCounter && d == data[..] && fresh(it) && Over(it, metas, data, rowElements)
        invariant n <= |all| && isDone == (n == |all|) && it.done == isDone
        invariant table == Stored(metas, rowElements, old(table), all[..n], d)
        decreases |all| - n
      {
        StoredStep(metas, rowElements, old(table), all, n, d);
        PutNext(it, metas, data, rowElements);
        n := n + 1;
        isDone := it.IsDone();
      }
      assert all[..n] == all;
    }

    /** A generator of the blocks of `data`. */
    static ghost predicate Over(it: ZorderCurveGenerator, metas: Metas, data: array<Byte>, rowElements: nat) {
      it.Valid() && it.metas == metas && it.data == data && it.rowElements == rowElements
    }

    /** Puts the row of the next block. */
    method PutNext(it: ZorderCurveGenerator, metas: Metas, data: array<Byte>, rowElements: nat)
      requires Over(it, metas, data, rowElements) && it.blockCounter < |AllBlocks(metas, rowElements)|
      modifies this, it
      ensures Over(it, metas, data, rowElements) && it.blockCounter == old(it.blockCounter) + 1
          && it.done == old(it.done)
      ensures var cc := AllBlocks(metas, rowElements)[old(it.blockCounter)];
              table == old(table)[Name(cc) := ChunkOf(metas, rowElements, cc, data[..])]
    {
      var part := it.GetNextPartition();
      table := table[(part.value.clusterId, part.value.blockId) := part.value.chunk.value];
    }

    /** Writes only the listed blocks: all are cut first, then all are put. */
    method StoreNumpyByCoords(metas: Metas, data: array<Byte>, rowElements: nat, coord: seq<seq<nat>>)
      requires ZLayout(metas, rowElements) && data.Length == ArrayBytes(metas) && InGrid(metas, rowElements, coord)
      modifies this
      ensures table == Stored(metas, rowElements, old(table), coord, data[..])
    {
      var partitions := CutCoords(metas, data, rowElements, coord);
      for i := 0 to |partitions|
        invariant table == Stored(metas, rowElements, old(table), coord[..i], data[..])
      {
        var part := partitions[i];
        table := table[(part.clusterId, part.blockId) := part.chunk.value];
        StoredStep(metas, rowElements, old(table), coord, i, data[..]);
      }
      assert coord[..|partitions|] == coord;
    }

    /** The loop that drains the filtered generator. */
    static method CutCoords(metas: Metas, data: array<Byte>, rowElements: nat, coord: seq<seq<nat>>)
        returns (partitions: seq<Partition>)
      requires ZLayout(metas, rowElements) && data.Length == ArrayBytes(metas) && InGrid(metas, rowElements, coord)
      ensures |partitions| == |coord|
      ensures forall i :: 0 <= i < |partitions| ==>
                partitions[i] == ZPartition(metas, rowElements, coord[i], Some(data[..]))
    {
      var it := new ZorderCurveGeneratorFiltered(metas, data, rowElements, coord);
      partitions := [];
      var isDone := it.IsDone();
      while !isDone
        invariant fresh(it) && fresh(it.base) && it.Valid()
        invariant it.base.metas == metas && it.base.data == data && it.base.rowElements == rowElements
        invariant |partitions| + |it.coord| == |coord| && it.coord == coord[|partitions|..]
        invariant isDone == it.done == (it.coord == [])
        invariant forall i :: 0 <= i < |partitions| ==>
                  partitions[i] == ZPartition(metas, rowElements, coord[i], Some(data[..]))
        decreases |it.coord|
      {
        var part := it.GetNextPartition();
        partitions := partitions + [part.value];
        isDone := it.IsDone();
      }
    }

    /** Looks up one row per name; names without a row are skipped. */
    method FetchRows(metas: Metas, rowElements: nat, names: seq<Partition>, ghost want: seq<seq<nat>>)
        returns (partitions: seq<Partition>)
      requires ZLayout(metas, rowElements) && InGrid(metas, rowElements, want) && Sound(table)
      requires |names| == |want|
      requires forall i :: 0 <= i < |names| ==> names[i] == ZPartition(metas, rowElements, want[i], None)
      ensures forall j :: 0 <= j < |partitions| ==> Readable(metas, rowElements, partitions[j])
      ensures Places(metas, rowElements, partitions) == Found(table, want)
    {
      partitions := [];
      for i := 0 to |names|
        invariant forall j :: 0 <= j < |partitions| ==> Readable(metas, rowElements, partitions[j])
        invariant Places(metas, rowElements, partitions) == Found(table, want[..i])
      {
        var key := (names[i].clusterId, names[i].blockId);
        FoundStep(table, want, i);
        if key in table {
          var part := Partition(names[i].clusterId, names[i].blockId, Some(table[key]));
          RowPlace(metas, rowElements, want[i], part);
          ghost var before := Places(metas, rowElements, partitions);
          partitions := partitions + [part];
          assert Places(metas, rowElements, partitions) == before + [Placed(want[i], table[key])];
        }
      }
      assert want[..|names|] == want;
    }

    /** Reads the listed blocks, or every block when the list is empty.  `false`
        stands for the exception of an array with no rows, or of the merge. */
    method ReadNumpyByCoords(metas: Metas, rowElements: nat, coord: seq<seq<nat>>, save: array<Byte>) returns (ok: bool)
      requires ZLayout(metas, rowElements) && save.Length == ArrayBytes(metas)
      requires InGrid(metas, rowElements, coord) && Sound(table)
      modifies save
      ensures var want := if coord == [] then AllBlocks(metas, rowElements) else coord;
              var ps := Found(table, want);
              && (ok <==> ps != [] && AllMergeable(metas, rowElements, ps))
              && (ok ==> save[..] == Merged(metas, rowElements, ps, old(save[..])))
    {
      var clusters;
      ghost var want;
      if coord == [] {
        want := AllBlocks(metas, rowElements);
        clusters := NamesOfAll(metas, rowElements);
      } else {
        want := coord;
        clusters := NamesOfCoords(metas, rowElements, coord);
      }
      var partitions := FetchRows(metas, rowElements, clusters, want);
      if partitions == [] {
        return false;
      }
      ok := MergePartitions(metas, rowElements, partitions, save);
    }
  }

  lemma RowPlace(m: Metas, r: nat, cc: seq<nat>, p: Partition)
    requires ZLayout(m, r) && InShape(cc, Grid(m, r))
    requires (p.clusterId, p.blockId) == Name(cc) && p.chunk.Some? && p.chunk.value.size <= |p.chunk.value.bytes|
    ensures Readable(m, r, p) && Place(m, r, p) == Placed(cc, p.chunk.value)
  {
    GridCoordFits(m, r, cc);
    NameDecodes(cc);
  }

  /** Names of all blocks, from a generator without data. */
  method NamesOfAll(metas: Metas, rowElements: nat) returns (ps: seq<Partition>)
    requires ZLayout(metas, rowElements)
    ensures var want := AllBlocks(metas, rowElements);
            |ps| == |want| && forall i :: 0 <= i < |ps| ==> ps[i] == ZPartition(metas, rowElements, want[i], None)
  {
    var it := new ZorderCurveGenerator(metas, null, rowElements);
    ps := [];
    var isDone := it.IsDone();
    while !isDone
      invariant fresh(it) && it.Valid() && it.metas == metas && it.data == null && it.rowElements == rowElements
      invariant |ps| == it.blockCounter <= it.nblocks && isDone == (it.blockCounter >= it.nblocks) && it.done == isDone
      invariant forall i :: 0 <= i < |ps| ==>
                ps[i] == ZPartition(metas, rowElements, AllBlocks(metas, rowElements)[i], None)
      decreases it.nblocks - it.blockCounter
    {
      var part := it.GetNextPartition();
      ps := ps + [part.value];
      isDone := it.IsDone();
    }
  }

  method NamesOfCoords(metas: Metas, rowElements: nat, coord: seq<seq<nat>>) returns (ps: seq<Partition>)
    requires ZLayout(metas, rowElements) && InGrid(metas, rowElements, coord)
    ensures |ps| == |coord| && forall i :: 0 <= i < |ps| ==> ps[i] == ZPartition(metas, rowElements, coord[i], None)
  {
    var it := new ZorderCurveGeneratorFiltered(metas, null, rowElements, coord);
    ps := [];
    var isDone := it.IsDone();
    while !isDone
      invariant fresh(it) && fresh(it.base) && it.Valid()
      invariant it.base.metas == metas && it.base.data == null && it.base.rowElements == rowElements
      invariant |ps| + |it.coord| == |coord| && it.coord == coord[|ps|..] && isDone == it.done == (it.coord == [])
      invariant forall i :: 0 <= i < |ps| ==> ps[i] == ZPartition(metas, rowElements, coord[i], None)
      decreases |it.coord|
    {
      var part := it.GetNextPartition();
      ps := ps + [part.value];
      isDone := it.IsDone();
    }
  }

  /** get_cluster_ids: exactly the cluster ids of the blocks, from one step per
      cluster. */
  method GetClusterIds(metas: Metas, rowElements: nat) returns (clusters: set<nat>, steps: nat)
    requires ZLayout(metas, rowElements)
    ensures forall id :: id in clusters <==>
            exists cc :: InShape(cc, Grid(metas, rowElements)) && ClusterId(Zorder(cc)) == id
    ensures steps == Prod(ClustersDim(Grid(metas, rowElements)))
  {
    var it := new ZorderCurveGenerator(metas, null, rowElements);
    ghost var ids := ClusterIds(it.blocksDim);
    ClustersNoMore(it.blocksDim);
    clusters, steps := {}, 0;
    assert 0 < it.nclusters by { ProdPos(it.clustersDim); }
    var isDone := it.IsDone();
    while !isDone
      invariant fresh(it) && it.Valid() && it.metas == metas && it.rowElements == rowElements
      invariant 0 < |ids| == it.nclusters <= it.nblocks
      invariant steps == it.blockCounter <= |ids|
      invariant isDone == it.done == (steps == |ids|)
      invariant forall id :: id in clusters <==> id in ids[..steps]
      decreases |ids| - steps
    {
      var id := it.ComputeNextClusterId();
      assert ids[..steps + 1] == ids[..steps] + [id];
      clusters := clusters + {id};
      steps := steps + 1;
      isDone := it.IsDone();
    }
    assert ids[..steps] == ids;
    forall id ensures id in clusters <==>
            exists cc :: InShape(cc, Grid(metas, rowElements)) && ClusterId(Zorder(cc)) == id {
      ClusterIdsComplete(it.blocksDim, id);
    }
  }

  lemma {:induction false} ProdMono(s: seq<nat>, u: seq<nat>)
    requires |s| == |u| && forall i :: 0 <= i < |s| ==> s[i] <= u[i]
    ensures Prod(s) <= Prod(u)
  {
    BytesMono(s, u, 1);
    BytesProd(s, 1);
    BytesProd(u, 1);
  }

  lemma ClustersNoMore(blocks: seq<nat>)
    requires AllPos(blocks)
    ensures Prod(ClustersDim(blocks)) <= Prod(blocks)
  {
    ProdMono(ClustersDim(blocks), blocks);
  }
}
