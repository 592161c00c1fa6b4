/** Whole trips: an array cut into partitions and merged back, and an array stored in a
    table and read back. */
module RoundTrip {
  import opened Boxes
  import opened Collections
  import opened Tessellation
  import opened Partitions
  import opened ZorderCurve
  import opened ZorderGenerator
  import opened ArrayStore

  /** The first `n` partitions of a split have been taken, in some order. */
  ghost predicate Taken(parts: seq<Partition>, split: seq<Partition>, n: nat) {
    n <= |split| && multiset(parts) == multiset(split[..n])
  }

  lemma TakenNext(parts: seq<Partition>, split: seq<Partition>, n: nat, at: nat)
    requires Taken(parts, split, n) && n < |split| && at <= |parts|
    ensures Taken(parts[..at] + [split[n]] + parts[at..], split, n + 1)
  {
    InsertKeeps(parts, split[n], at);
    assert split[..n + 1] == split[..n] + [split[n]];
  }

  lemma TakenAll(parts: seq<Partition>, split: seq<Partition>)
    requires Taken(parts, split, |split|)
    ensures multiset(parts) == multiset(split)
  {
    assert split[..|split|] == split;
  }

  /** The next partition of a generator over `data`, put anywhere among the others. */
  method TakeNext(it: ZorderCurveGenerator, metas: Metas, rowElements: nat, data: array<Byte>, parts: seq<Partition>)
      returns (more: seq<Partition>)
    requires ArrayDataStore.Over(it, metas, data, rowElements) && it.blockCounter < it.nblocks
    requires Taken(parts, Split(metas, rowElements, data[..]), it.blockCounter)
    modifies it
    ensures ArrayDataStore.Over(it, metas, data, rowElements)
    ensures it.blockCounter == old(it.blockCounter) + 1 && it.done == old(it.done)
    ensures Taken(more, Split(metas, rowElements, data[..]), it.blockCounter)
  {
    ghost var split, n := Split(metas, rowElements, data[..]), it.blockCounter;
    var part := it.GetNextPartition();
    assert 0 <= |parts|;
    var at :| 0 <= at <= |parts|;
    TakenNext(parts, split, n, at);
    more := parts[..at] + [part.value] + parts[at..];
  }

  /** Drains a generator over `data`; the partitions may come out in any order. */
  method Drain(metas: Metas, rowElements: nat, data: array<Byte>) returns (parts: seq<Partition>)
    requires ZLayout(metas, rowElements) && data.Length == ArrayBytes(metas)
    ensures multiset(parts) == multiset(Split(metas, rowElements, data[..]))
  {
    var it := new ZorderCurveGenerator(metas, data, rowElements);
    parts := [];
    var isDone := it.IsDone();
    while !isDone
      invariant fresh(it) && ArrayDataStore.Over(it, metas, data, rowElements)
      invariant Taken(parts, Split(metas, rowElements, data[..]), it.blockCounter)
      invariant it.done == isDone == (it.blockCounter == it.nblocks)
      decreases it.nblocks - it.blockCounter
    {
      parts := TakeNext(it, metas, rowElements, data, parts);
      isDone := it.IsDone();
    }
    TakenAll(parts, Split(metas, rowElements, data[..]));
  }

  /** Split, shuffle, merge: the array is back, byte for byte, whatever the buffer held. */
  method SplitThenMerge(metas: Metas, rowElements: nat, data: array<Byte>, out: array<Byte>) returns (ok: bool)
    requires ZLayout(metas, rowElements) && data != out && data.Length == out.Length == ArrayBytes(metas)
    modifies out
    ensures ok && out[..] == data[..]
  {
    ghost var was := out[..];
    var parts := Drain(metas, rowElements, data);
    SplitMergeIdentity(metas, rowElements, data[..], parts, was);
    ok := MergePartitions(metas, rowElements, parts, out);
  }

  /** An array stored whole reads back byte for byte. */
  method StoreThenRead(store: ArrayDataStore, metas: Metas, rowElements: nat, data: array<Byte>, save: array<Byte>)
      returns (ok: bool)
    requires ZLayout(metas, rowElements) && data != save && data.Length == save.Length == ArrayBytes(metas)
    requires Sound(store.table)
    modifies store, save
    ensures ok && save[..] == data[..]
  {
    ok := OverlayThenRead(store, metas, rowElements, data, data, [], [], save);
    ReadBack(metas, rowElements, data[..], save[..]);
  }

  /** Byte `k` of an array stored whole with some blocks of another stored over it, read
      back through the blocks `want`, or all of them. */
  ghost predicate Reads(m: Metas, r: nat, a: seq<Byte>, b: seq<Byte>, coord: seq<seq<nat>>, want: seq<seq<nat>>,
                        was: seq<Byte>, now: seq<Byte>)
    requires Layout(m, r) && |a| == |b| == |was| == ArrayBytes(m)
  {
    var all := if want == [] then AllBlocks(m, r) else want;
    |now| == |was| && forall k :: 0 <= k < |now| ==> now[k] == OverlayAt(m, r, a, b, coord, all, was, k)
  }

  /** One array is stored whole, then some blocks of another; reading gives the overlay. */
  method OverlayThenRead(store: ArrayDataStore, metas: Metas, rowElements: nat, first: array<Byte>, second: array<Byte>,
                         coord: seq<seq<nat>>, want: seq<seq<nat>>, save: array<Byte>) returns (ok: bool)
    requires ZLayout(metas, rowElements) && save != first && save != second
    requires first.Length == second.Length == save.Length == ArrayBytes(metas)
    requires InGrid(metas, rowElements, coord) && InGrid(metas, rowElements, want) && Sound(store.table)
    modifies store, save
    ensures ok && Reads(metas, rowElements, first[..], second[..], coord, want, old(save[..]), save[..])
  {
    ghost var table, was := store.table, save[..];
    store.StoreNumpy(metas, first, rowElements);
    store.StoreNumpyByCoords(metas, second, rowElements, coord);
    ghost var all := AllBlocks(metas, rowElements);
    StoredSound(metas, rowElements, table, all, first[..]);
    StoredSound(metas, rowElements, Stored(metas, rowElements, table, all, first[..]), coord, second[..]);
    GridPos(metas, rowElements);
    OverlayReads(metas, rowElements, table, first[..], second[..], coord, if want == [] then all else want, was);
    ok := store.ReadNumpyByCoords(metas, rowElements, want, save);
  }

  /** With every block wanted, the overlay of an array with nothing is the array. */
  lemma ReadBack(m: Metas, r: nat, a: seq<Byte>, now: seq<Byte>)
    requires Layout(m, r) && |a| == |now| == ArrayBytes(m)
    requires exists was :: |was| == |a| && Reads(m, r, a, a, [], [], was, now)
    ensures now == a
  {
    var was :| |was| == |a| && Reads(m, r, a, a, [], [], was, now);
    forall k | 0 <= k < |now| ensures now[k] == a[k] {
      OwnerInGrid(m.dims, r, m.elemSize, k);
      AllBlocksHas(m, r, Owner(m.dims, r, m.elemSize, k));
      assert now[k] == OverlayAt(m, r, a, a, [], AllBlocks(m, r), was, k);
    }
  }
}
