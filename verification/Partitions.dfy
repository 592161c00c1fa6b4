/** What a partition of an array must hold, and what merging partitions does to
    a buffer, independently of how the generators compute either. */
module Partitions {
  import opened Arith
  import opened Collections
  import opened MixedRadix
  import opened Boxes
  import opened Tessellation

  datatype Result<+T> = Ok(value: T) | ModuleException

  /** A payload buffer: its 8-byte size prefix and the bytes after it. */
  datatype Chunk = Chunk(size: nat, bytes: seq<Byte>)
  datatype Partition = Partition(clusterId: nat, blockId: nat, chunk: Option<Chunk>)
  datatype Metas = Metas(dims: seq<nat>, elemSize: nat)

  const BLOCK_SIZE: nat := 4096

  function Uniform(n: nat, r: nat): (s: seq<nat>)
    ensures |s| == n && forall i :: 0 <= i < n ==> s[i] == r
  {
    seq(n, _ => r)
  }

  /** `row_elements ^ ndims * elem_size`. */
  ghost function BlockBytes(m: Metas, r: nat): nat {
    Bytes(Uniform(|m.dims|, r), m.elemSize)
  }

  /** A shape together with a side `r` for its blocks. */
  ghost predicate Layout(m: Metas, r: nat) {
    && m.dims != [] && AllPos(m.dims) && 1 <= m.elemSize <= BLOCK_SIZE
    && r >= 1 && BlockBytes(m, r) <= BLOCK_SIZE
  }

  ghost function ArrayBytes(m: Metas): nat { Bytes(m.dims, m.elemSize) }

  function Grid(m: Metas, r: nat): seq<nat>
    requires r >= 1
  {
    BlocksDim(m.dims, r)
  }

  lemma {:induction false} BytesMono(s: seq<nat>, u: seq<nat>, e: nat)
    requires |s| == |u| && forall i :: 0 <= i < |s| ==> s[i] <= u[i]
    ensures Bytes(s, e) <= Bytes(u, e)
  {
    if s == [] {
    } else {
      BytesMono(s[1..], u[1..], e);
      MulLe(s[0], u[0], Bytes(s[1..], e));
      MulCommLe(u[0], Bytes(s[1..], e), Bytes(u[1..], e));
    }
  }

  lemma MulCommLe(c: nat, a: nat, b: nat)
    requires a <= b
    ensures c * a <= c * b
  {}

  /** No block is larger than BLOCK_SIZE. */
  lemma BlockFits(m: Metas, r: nat, cc: seq<nat>)
    requires Layout(m, r) && InShape(cc, Grid(m, r))
    ensures Bytes(Sides(m.dims, r, cc), m.elemSize) <= BLOCK_SIZE
  {
    SidesFit(m.dims, r, cc, m.elemSize);
    BytesMono(Sides(m.dims, r, cc), Uniform(|m.dims|, r), m.elemSize);
  }

  lemma GridPos(m: Metas, r: nat)
    requires Layout(m, r)
    ensures AllPos(Grid(m, r)) && Grid(m, r) != [] && 0 < Prod(Grid(m, r))
  {
    forall i | 0 <= i < |m.dims| ensures 0 < Grid(m, r)[i] { DivCeil(0, m.dims[i], r); }
    ProdPos(Grid(m, r));
  }

  lemma BlockByteFits(m: Metas, r: nat, cc: seq<nat>, p: nat)
    requires Layout(m, r) && InShape(cc, Grid(m, r))
    requires p < Bytes(Sides(m.dims, r, cc), m.elemSize)
    ensures Shapes(m.dims, Sides(m.dims, r, cc), m.elemSize)
    ensures Start(m.dims, r, m.elemSize, cc) + Src(m.dims, Sides(m.dims, r, cc), m.elemSize, p) < ArrayBytes(m)
  {
    var b := Sides(m.dims, r, cc);
    SidesFit(m.dims, r, cc, m.elemSize);
    SrcInBlock(m.dims, b, m.elemSize, p);
    InBlockBound(m.dims, b, m.elemSize, Src(m.dims, b, m.elemSize, p));
    ExtentFits(m.dims, b, m.elemSize, Corner(cc, r));
  }

  /** The bytes of block `cc` of the array `d`, in block order. */
  ghost function BlockData(m: Metas, r: nat, cc: seq<nat>, d: seq<Byte>): (bytes: seq<Byte>)
    requires Layout(m, r) && InShape(cc, Grid(m, r)) && |d| == ArrayBytes(m)
    ensures |bytes| == Bytes(Sides(m.dims, r, cc), m.elemSize)
  {
    SidesFit(m.dims, r, cc, m.elemSize);
    seq(Bytes(Sides(m.dims, r, cc), m.elemSize),
        p requires 0 <= p < Bytes(Sides(m.dims, r, cc), m.elemSize) =>
          BlockByteFits(m, r, cc, p);
          d[Start(m.dims, r, m.elemSize, cc) + Src(m.dims, Sides(m.dims, r, cc), m.elemSize, p)])
  }

  ghost function ChunkOf(m: Metas, r: nat, cc: seq<nat>, d: seq<Byte>): Chunk
    requires Layout(m, r) && InShape(cc, Grid(m, r)) && |d| == ArrayBytes(m)
  {
    var bytes := BlockData(m, r, cc, d);
    Chunk(|bytes|, bytes)
  }

  // ------------------------------------------------------------------- merge

  /** The block is at the end of some dimension. */
  ghost predicate AtLimit(m: Metas, r: nat, cc: seq<nat>)
    requires r >= 1 && InShape(cc, Grid(m, r))
  {
    exists i :: 0 <= i < |cc| && cc[i] == Grid(m, r)[i] - 1
  }

  /** The size test of the merge, plus the bounds test of the copy under it. */
  ghost predicate SizeAccepted(m: Metas, r: nat, cc: seq<nat>, c: Chunk)
    requires r >= 1 && InShape(cc, Grid(m, r))
  {
    if AtLimit(m, r, cc) then Bytes(Sides(m.dims, r, cc), m.elemSize) <= c.size
    else c.size == BlockBytes(m, r)
  }

  lemma InnerSides(m: Metas, r: nat, cc: seq<nat>)
    requires r >= 1 && InShape(cc, Grid(m, r)) && !AtLimit(m, r, cc)
    ensures Sides(m.dims, r, cc) == Uniform(|m.dims|, r)
  {
    forall i | 0 <= i < |cc| ensures Sides(m.dims, r, cc)[i] == r {
      assert cc[i] != Grid(m, r)[i] - 1;
    }
  }

  /** Block by block, in elements: with elements beyond it in every dimension a chunk must
      have the size of a full block, no more and no less; at the end of some dimension it
      must hold at least the elements left. */
  lemma SizeExact(m: Metas, r: nat, cc: seq<nat>, c: Chunk)
    requires r >= 1 && InShape(cc, Grid(m, r))
    ensures (forall i :: 0 <= i < |cc| ==> (cc[i] + 1) * r < m.dims[i]) ==>
              (SizeAccepted(m, r, cc, c) <==> c.size == Bytes(Uniform(|m.dims|, r), m.elemSize))
    ensures (exists i :: 0 <= i < |cc| && (cc[i] + 1) * r >= m.dims[i]) ==>
              (SizeAccepted(m, r, cc, c) <==> c.size >= Bytes(Sides(m.dims, r, cc), m.elemSize))
  {
    forall i | 0 <= i < |cc| ensures cc[i] == Grid(m, r)[i] - 1 <==> (cc[i] + 1) * r >= m.dims[i] {
      LastBlock(m.dims[i], r, cc[i]);
    }
  }

  /** A block is the last of its dimension exactly when no element lies beyond it. */
  lemma LastBlock(n: nat, r: nat, k: nat)
    requires r >= 1 && k < (n + r - 1) / r
    ensures k == (n + r - 1) / r - 1 <==> (k + 1) * r >= n
  {
    DivBelow(n + r - 1, r, k + 2);
    MulDist(k + 1, 1, r);
  }

  lemma AcceptedHolds(m: Metas, r: nat, cc: seq<nat>, c: Chunk)
    requires r >= 1 && InShape(cc, Grid(m, r)) && SizeAccepted(m, r, cc, c)
    ensures Bytes(Sides(m.dims, r, cc), m.elemSize) <= c.size
  {
    if !AtLimit(m, r, cc) { InnerSides(m, r, cc); }
  }

  /** The buffer after chunk `c` has been pasted as block `cc`. */
  ghost function PasteBlock(m: Metas, r: nat, was: seq<Byte>, cc: seq<nat>, c: Chunk): (now: seq<Byte>)
    requires Layout(m, r) && InShape(cc, Grid(m, r))
    requires c.size <= |c.bytes| && SizeAccepted(m, r, cc, c)
    ensures |now| == |was|
  {
    SidesFit(m.dims, r, cc, m.elemSize);
    AcceptedHolds(m, r, cc, c);
    seq(|was|, k requires 0 <= k < |was| =>
      Pasted(m.dims, Sides(m.dims, r, cc), m.elemSize, was[k], Start(m.dims, r, m.elemSize, cc), c.bytes, 0, k))
  }

  /** A byte of the buffer changes exactly when the pasted block owns it. */
  lemma PasteBlockAt(m: Metas, r: nat, was: seq<Byte>, cc: seq<nat>, c: Chunk, k: nat)
    requires Layout(m, r) && InShape(cc, Grid(m, r))
    requires c.size <= |c.bytes| && SizeAccepted(m, r, cc, c)
    requires k < |was| == ArrayBytes(m)
    ensures Owner(m.dims, r, m.elemSize, k) != cc ==> PasteBlock(m, r, was, cc, c)[k] == was[k]
    ensures Owner(m.dims, r, m.elemSize, k) == cc ==>
              BlockPos(m, r, k) < c.size && PasteBlock(m, r, was, cc, c)[k] == c.bytes[BlockPos(m, r, k)]
  {
    OwnerIffInBlock(m.dims, r, m.elemSize, cc, k);
    AcceptedHolds(m, r, cc, c);
    if Owner(m.dims, r, m.elemSize, k) == cc {
      RelInBlock(m.dims, Sides(m.dims, r, cc), m.elemSize, k - Start(m.dims, r, m.elemSize, cc));
    }
  }

  /** Position of array byte `k` inside the block that owns it. */
  ghost function BlockPos(m: Metas, r: nat, k: nat): nat
    requires Layout(m, r) && k < ArrayBytes(m)
  {
    var cc := Owner(m.dims, r, m.elemSize, k);
    OwnerInGrid(m.dims, r, m.elemSize, k);
    SidesFit(m.dims, r, cc, m.elemSize);
    OwnerIffInBlock(m.dims, r, m.elemSize, cc, k);
    Rel(m.dims, Sides(m.dims, r, cc), m.elemSize, k - Start(m.dims, r, m.elemSize, cc))
  }

  /** A block holds, at the place of array byte `k`, that byte. */
  lemma BlockDataAt(m: Metas, r: nat, d: seq<Byte>, k: nat)
    requires Layout(m, r) && k < |d| == ArrayBytes(m)
    ensures InShape(Owner(m.dims, r, m.elemSize, k), Grid(m, r))
    ensures var bytes := BlockData(m, r, Owner(m.dims, r, m.elemSize, k), d);
            BlockPos(m, r, k) < |bytes| && bytes[BlockPos(m, r, k)] == d[k]
  {
    var cc := Owner(m.dims, r, m.elemSize, k);
    OwnerInGrid(m.dims, r, m.elemSize, k);
    OwnerIffInBlock(m.dims, r, m.elemSize, cc, k);
    RelInBlock(m.dims, Sides(m.dims, r, cc), m.elemSize, k - Start(m.dims, r, m.elemSize, cc));
  }

  /** The chunk cut out of an array always passes the tests of the merge. */
  lemma OwnChunkAccepted(m: Metas, r: nat, cc: seq<nat>, d: seq<Byte>)
    requires Layout(m, r) && InShape(cc, Grid(m, r)) && |d| == ArrayBytes(m)
    ensures SizeAccepted(m, r, cc, ChunkOf(m, r, cc, d))
  {
    if !AtLimit(m, r, cc) { InnerSides(m, r, cc); }
  }

  // ---------------------------------------------- lists of placed chunks

  datatype Placed = Placed(cc: seq<nat>, chunk: Chunk)

  ghost predicate Mergeable(m: Metas, r: nat, p: Placed)
    requires r >= 1
  {
    && InShape(p.cc, Grid(m, r)) && p.chunk.size <= |p.chunk.bytes|
    && SizeAccepted(m, r, p.cc, p.chunk)
  }

  ghost predicate AllMergeable(m: Metas, r: nat, ps: seq<Placed>)
    requires r >= 1
  {
    forall i :: 0 <= i < |ps| ==> Mergeable(m, r, ps[i])
  }

  /** The buffer after all chunks have been pasted, in order. */
  ghost function Merged(m: Metas, r: nat, ps: seq<Placed>, was: seq<Byte>): (now: seq<Byte>)
    requires Layout(m, r) && AllMergeable(m, r, ps)
    ensures |now| == |was|
  {
    if ps == [] then was
    else
      var last := ps[|ps| - 1];
      assert Mergeable(m, r, last);
      PasteBlock(m, r, Merged(m, r, ps[..|ps| - 1], was), last.cc, last.chunk)
  }

  ghost predicate Names(ps: seq<Placed>, cc: seq<nat>) {
    exists i :: 0 <= i < |ps| && ps[i].cc == cc
  }

  lemma NamesSnoc(ps: seq<Placed>, cc: seq<nat>)
    requires ps != []
    ensures Names(ps, cc) <==> Names(ps[..|ps| - 1], cc) || ps[|ps| - 1].cc == cc
  {
    var front := ps[..|ps| - 1];
    if Names(front, cc) {
      var i :| 0 <= i < |front| && front[i].cc == cc;
      assert ps[i].cc == cc;
    }
    if Names(ps, cc) && ps[|ps| - 1].cc != cc {
      var i :| 0 <= i < |ps| && ps[i].cc == cc;
      assert front[i].cc == cc;
    }
  }

  /** Every chunk placed at `o` has byte `v` at `pos`. */
  ghost predicate Agree(ps: seq<Placed>, o: seq<nat>, pos: nat, v: Byte) {
    forall i :: 0 <= i < |ps| && ps[i].cc == o ==> pos < |ps[i].chunk.bytes| && ps[i].chunk.bytes[pos] == v
  }

  /** Byte `k` after a merge: untouched when no chunk names its owner, and `v`
      when every chunk that names its owner agrees on `v`. */
  lemma {:induction false} MergedAt(m: Metas, r: nat, ps: seq<Placed>, was: seq<Byte>, k: nat, v: Byte)
    requires Layout(m, r) && AllMergeable(m, r, ps) && k < |was| == ArrayBytes(m)
    requires Agree(ps, Owner(m.dims, r, m.elemSize, k), BlockPos(m, r, k), v)
    ensures Merged(m, r, ps, was)[k] == if Names(ps, Owner(m.dims, r, m.elemSize, k)) then v else was[k]
  {
    if ps == [] {
    } else {
      var front, last := ps[..|ps| - 1], ps[|ps| - 1];
      assert Mergeable(m, r, last);
      MergedAt(m, r, front, was, k, v);
      NamesSnoc(ps, Owner(m.dims, r, m.elemSize, k));
      PasteBlockAt(m, r, Merged(m, r, front, was), last.cc, last.chunk, k);
    }
  }

  /** Merging chunks cut out of `d` over any buffer, in any order and with any
      repetitions, gives `d` on the blocks that were merged and leaves the rest. */
  lemma MergeRestores(m: Metas, r: nat, ps: seq<Placed>, d: seq<Byte>, was: seq<Byte>)
    requires Layout(m, r) && |d| == |was| == ArrayBytes(m)
    requires forall i :: 0 <= i < |ps| ==> InShape(ps[i].cc, Grid(m, r)) && ps[i].chunk == ChunkOf(m, r, ps[i].cc, d)
    ensures AllMergeable(m, r, ps)
    ensures forall k :: 0 <= k < |d| ==>
              Merged(m, r, ps, was)[k] == if Names(ps, Owner(m.dims, r, m.elemSize, k)) then d[k] else was[k]
  {
    forall i | 0 <= i < |ps| ensures Mergeable(m, r, ps[i]) { OwnChunkAccepted(m, r, ps[i].cc, d); }
    forall k | 0 <= k < |d|
      ensures Merged(m, r, ps, was)[k] == if Names(ps, Owner(m.dims, r, m.elemSize, k)) then d[k] else was[k]
    {
      BlockDataAt(m, r, d, k);
      assert Agree(ps, Owner(m.dims, r, m.elemSize, k), BlockPos(m, r, k), d[k]);
      MergedAt(m, r, ps, was, k, d[k]);
    }
  }

  /** Merging a chunk of `d` for every block rebuilds `d`. */
  lemma MergeRebuilds(m: Metas, r: nat, ps: seq<Placed>, d: seq<Byte>, was: seq<Byte>)
    requires Layout(m, r) && |d| == |was| == ArrayBytes(m)
    requires forall i :: 0 <= i < |ps| ==> InShape(ps[i].cc, Grid(m, r)) && ps[i].chunk == ChunkOf(m, r, ps[i].cc, d)
    requires forall cc :: InShape(cc, Grid(m, r)) ==> Names(ps, cc)
    ensures AllMergeable(m, r, ps) && Merged(m, r, ps, was) == d
  {
    MergeRestores(m, r, ps, d, was);
    forall k | 0 <= k < |d| ensures Merged(m, r, ps, was)[k] == d[k] {
      OwnerInGrid(m.dims, r, m.elemSize, k);
      assert Names(ps, Owner(m.dims, r, m.elemSize, k));
    }
  }
}
