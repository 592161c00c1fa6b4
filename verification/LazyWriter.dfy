/** The sequential side of a Writer: eager writes go straight to the queue, lazy
    writes wait in dirty_blocks, where a later write to a key replaces an earlier
    one. */
module LazyWriter {
  import opened Collections
  import opened Timestamps

  type Key = int
  type Value = int
  type Request = (Key, Value)

  /** The values written to key `k`, in order. */
  ghost function PerKey(q: seq<Request>, k: Key): seq<Value> {
    if q == [] then []
    else
      var last := q[|q| - 1];
      if last.0 == k then PerKey(q[..|q| - 1], k) + [last.1] else PerKey(q[..|q| - 1], k)
  }

  /** `a` is `b` with some elements left out. */
  ghost predicate Subsequence(a: seq<Value>, b: seq<Value>) {
    if a == [] then true
    else if b == [] then false
    else
      Subsequence(a, b[..|b| - 1])
      || (a[|a| - 1] == b[|b| - 1] && Subsequence(a[..|a| - 1], b[..|b| - 1]))
  }

  lemma SubsequenceGrows(a: seq<Value>, b: seq<Value>, v: Value)
    requires Subsequence(a, b)
    ensures Subsequence(a, b + [v])
    ensures Subsequence(a + [v], b + [v])
  {
    assert (b + [v])[..|b + [v]| - 1] == b && (a + [v])[..|a + [v]| - 1] == a;
  }

  lemma PerKeySnoc(q: seq<Request>, r: Request, k: Key)
    ensures PerKey(q + [r], k) == if r.0 == k then PerKey(q, k) + [r.1] else PerKey(q, k)
  {
    assert (q + [r])[..|q + [r]| - 1] == q;
  }

  /** Key `k` is up to date in the queue: its queued values are among the issued
      ones, and end with the same value. */
  ghost predicate Current(issued: seq<Value>, queued: seq<Value>) {
    Subsequence(queued, issued)
    && (issued != [] ==> queued != [] && queued[|queued| - 1] == issued[|issued| - 1])
  }

  /** Key `k` waits in dirty_blocks with its last issued value. */
  ghost predicate Behind(issued: seq<Value>, queued: seq<Value>, v: Value) {
    issued != [] && issued[|issued| - 1] == v && Subsequence(queued, issued[..|issued| - 1])
  }

  ghost predicate CoalescedAt(issued: seq<Request>, queued: seq<Request>, dirty: map<Key, Value>, k: Key) {
    if k in dirty then Behind(PerKey(issued, k), PerKey(queued, k), dirty[k])
    else Current(PerKey(issued, k), PerKey(queued, k))
  }

  ghost predicate Coalesced(issued: seq<Request>, queued: seq<Request>, dirty: map<Key, Value>) {
    forall k: Key :: CoalescedAt(issued, queued, dirty, k)
  }

  /** A write that goes to dirty_blocks. */
  lemma WriteDirty(issued: seq<Request>, queued: seq<Request>, dirty: map<Key, Value>, k: Key, v: Value)
    requires Coalesced(issued, queued, dirty)
    ensures Coalesced(issued + [(k, v)], queued, dirty[k := v])
  {
    var longer, now := issued + [(k, v)], dirty[k := v];
    forall x: Key ensures CoalescedAt(longer, queued, now, x) {
      assert CoalescedAt(issued, queued, dirty, x);
      PerKeySnoc(issued, (k, v), x);
      if x == k {
        var i := PerKey(issued, k);
        assert (i + [v])[..|i + [v]| - 1] == i;
        if k in dirty {
          SubsequenceGrows(PerKey(queued, k), i[..|i| - 1], dirty[k]);
          assert i == i[..|i| - 1] + [dirty[k]];
        }
      }
    }
  }

  /** A write that goes to the queue. */
  lemma WriteThrough(issued: seq<Request>, queued: seq<Request>, k: Key, v: Value)
    requires Coalesced(issued, queued, map[])
    ensures Coalesced(issued + [(k, v)], queued + [(k, v)], map[])
  {
    forall x: Key ensures CoalescedAt(issued + [(k, v)], queued + [(k, v)], map[], x) {
      assert CoalescedAt(issued, queued, map[], x);
      PerKeySnoc(issued, (k, v), x);
      PerKeySnoc(queued, (k, v), x);
      SubsequenceGrows(PerKey(queued, x), PerKey(issued, x), v);
    }
  }

  lemma FlushOneAt(issued: seq<Request>, queued: seq<Request>, dirty: map<Key, Value>, k: Key, x: Key)
    requires CoalescedAt(issued, queued, dirty, x) && k in dirty
    ensures CoalescedAt(issued, queued + [(k, dirty[k])], dirty - {k}, x)
  {
    PerKeySnoc(queued, (k, dirty[k]), x);
    if x == k {
      var i := PerKey(issued, k);
      SubsequenceGrows(PerKey(queued, k), i[..|i| - 1], dirty[k]);
      assert i == i[..|i| - 1] + [dirty[k]];
    }
  }

  /** A dirty block that moves to the queue. */
  lemma FlushOne(issued: seq<Request>, queued: seq<Request>, dirty: map<Key, Value>, k: Key)
    requires Coalesced(issued, queued, dirty) && k in dirty
    ensures Coalesced(issued, queued + [(k, dirty[k])], dirty - {k})
  {
    forall x: Key ensures CoalescedAt(issued, queued + [(k, dirty[k])], dirty - {k}, x) {
      FlushOneAt(issued, queued, dirty, k, x);
    }
  }

  /** Distinct places in a queue of length `n` are all of them exactly when there are `n`. */
  lemma {:induction false} AckedBelow(s: set<nat>, n: nat)
    requires forall i: nat :: i in s ==> i < n
    ensures |s| <= n && (|s| == n <==> forall i: nat :: i < n ==> i in s)
    decreases n
  {
    if n == 0 {
      assert s == {};
    } else {
      var t := s - {n - 1};
      AckedBelow(t, n - 1);
      forall i: nat | i < n - 1 ensures i in t <==> i in s {}
      if n - 1 in s {
        assert |s| == |t| + 1;
        assert (forall i: nat :: i < n ==> i in s) <==> (forall i: nat :: i < n - 1 ==> i in t);
      } else {
        assert t == s;
      }
    }
  }

  lemma SomeKey(s: set<Key>)
    requires s != {}
    ensures exists k :: k in s
  {
    assert (forall k: Key :: k !in s) ==> s == {};
  }

  // ------------------------------------------------------------- the table

  /** The table after the requests have been applied in order. */
  ghost function Table(q: seq<Request>, t: map<Key, Value>): map<Key, Value> {
    if q == [] then t else Table(q[..|q| - 1], t)[q[|q| - 1].0 := q[|q| - 1].1]
  }

  lemma {:induction false} TableAt(q: seq<Request>, t: map<Key, Value>, k: Key)
    ensures k in Table(q, t) <==> k in t || PerKey(q, k) != []
    ensures PerKey(q, k) != [] ==> Table(q, t)[k] == PerKey(q, k)[|PerKey(q, k)| - 1]
    ensures PerKey(q, k) == [] && k in t ==> Table(q, t)[k] == t[k]
  {
    if q == [] {
    } else {
      TableAt(q[..|q| - 1], t, k);
    }
  }

  /** Coalescing preserves meaning: with nothing left dirty, applying the queue in
      order gives the same table as applying every issued write. */
  lemma SameTable(issued: seq<Request>, queued: seq<Request>, t: map<Key, Value>)
    requires Coalesced(issued, queued, map[])
    ensures Table(queued, t) == Table(issued, t)
  {
    forall k: Key
      ensures k in Table(queued, t) <==> k in Table(issued, t)
      ensures k in Table(issued, t) ==> Table(queued, t)[k] == Table(issued, t)[k]
    {
      assert CoalescedAt(issued, queued, map[], k);
      TableAt(queued, t, k);
      TableAt(issued, t, k);
    }
  }

  /** What is dirty overrides the queue: before a flush, the queue followed by the
      dirty blocks already stands for every issued write. */
  lemma DirtyOverQueue(issued: seq<Request>, queued: seq<Request>, dirty: map<Key, Value>, t: map<Key, Value>)
    requires Coalesced(issued, queued, dirty)
    ensures Table(issued, t) == Table(queued, t) + dirty
  {
    forall k: Key
      ensures k in Table(issued, t) <==> k in Table(queued, t) + dirty
      ensures k in Table(issued, t) ==> (Table(queued, t) + dirty)[k] == Table(issued, t)[k]
    {
      assert CoalescedAt(issued, queued, dirty, k);
      TableAt(queued, t, k);
      TableAt(issued, t, k);
    }
  }

  // ------------------------------------------------------------- the store

  /** The numbers are places in the queue. */
  ghost predicate InQueue(q: seq<Request>, order: seq<nat>) {
    forall j :: 0 <= j < |order| ==> order[j] < |q|
  }

  /** The store after some requests, by their place in the queue, have been applied; a
      request that is retried is applied more than once. */
  ghost function Applied(q: seq<Request>, stamps: seq<int>, order: seq<nat>,
                         cells: map<Key, Cell<Value>>): map<Key, Cell<Value>>
    requires |stamps| == |q| && InQueue(q, order)
  {
    if order == [] then cells
    else
      var i := order[|order| - 1];
      Put(Applied(q, stamps, order[..|order| - 1], cells), q[i].0, Cell(stamps[i], Some(q[i].1)))
  }

  /** Request `m` is the newest write to `k` among those in `order`. */
  ghost predicate Newest(q: seq<Request>, order: seq<nat>, k: Key, m: nat)
    requires InQueue(q, order)
  {
    m in order && q[m].0 == k && forall i: nat :: i in order && q[i].0 == k ==> i <= m
  }

  /** The store holds the newest applied write to `k`, or what it held before. */
  ghost predicate HoldsNewest(q: seq<Request>, stamps: seq<int>, order: seq<nat>, was: map<Key, Cell<Value>>,
                              now: map<Key, Cell<Value>>, k: Key)
    requires |stamps| == |q| && InQueue(q, order)
  {
    || (exists m: nat :: Newest(q, order, k, m) && k in now && now[k] == Cell(stamps[m], Some(q[m].1)))
    || ((forall i: nat :: i in order ==> q[i].0 != k) && (k in now <==> k in was) && (k in was ==> now[k] == was[k]))
  }

  /** Every stored row is older than every stamp. */
  ghost predicate Older(cells: map<Key, Cell<Value>>, stamps: seq<int>) {
    forall k, i :: k in cells && 0 <= i < |stamps| ==> cells[k].ts < stamps[i]
  }

  lemma {:induction false} AppliedAt(q: seq<Request>, stamps: seq<int>, last: int, order: seq<nat>,
                                     cells: map<Key, Cell<Value>>, k: Key)
    requires |stamps| == |q| && Increasing(stamps, last) && Older(cells, stamps)
    requires InQueue(q, order)
    ensures HoldsNewest(q, stamps, order, cells, Applied(q, stamps, order, cells), k)
  {
    if order == [] {
    } else {
      AppliedAt(q, stamps, last, order[..|order| - 1], cells, k);
      AppliedStep(q, stamps, last, order, cells, Applied(q, stamps, order[..|order| - 1], cells), k);
    }
  }

  lemma AppliedStep(q: seq<Request>, stamps: seq<int>, last: int, order: seq<nat>, cells: map<Key, Cell<Value>>,
                    was: map<Key, Cell<Value>>, k: Key)
    requires |stamps| == |q| && Increasing(stamps, last) && Older(cells, stamps)
    requires order != [] && InQueue(q, order)
    requires HoldsNewest(q, stamps, order[..|order| - 1], cells, was, k)
    ensures var i := order[|order| - 1];
            HoldsNewest(q, stamps, order, cells, Put(was, q[i].0, Cell(stamps[i], Some(q[i].1))), k)
  {
    var i, front := order[|order| - 1], order[..|order| - 1];
    assert order == front + [i];
    if m: nat :| Newest(q, front, k, m) && k in was && was[k] == Cell(stamps[m], Some(q[m].1)) {
      if q[i].0 == k && i > m {
        assert stamps[m] < stamps[i];
        assert Newest(q, order, k, i);
      } else {
        assert i < m ==> stamps[i] < stamps[m];
        assert Newest(q, order, k, m);
      }
    } else if q[i].0 == k {
      assert Newest(q, order, k, i);
    }
  }

  /** Request `m` is the last write to `k` in the queue. */
  ghost predicate LastOf(q: seq<Request>, k: Key, m: nat) {
    m < |q| && q[m].0 == k && forall i :: m < i < |q| ==> q[i].0 != k
  }

  lemma {:induction false} LastOfKey(q: seq<Request>, k: Key)
    ensures PerKey(q, k) == [] ==> forall i :: 0 <= i < |q| ==> q[i].0 != k
    ensures PerKey(q, k) != [] ==> exists m: nat :: LastOf(q, k, m) && q[m].1 == PerKey(q, k)[|PerKey(q, k)| - 1]
  {
    if q == [] {
    } else if q[|q| - 1].0 == k {
      assert LastOf(q, k, |q| - 1);
    } else {
      var front := q[..|q| - 1];
      LastOfKey(front, k);
      if PerKey(q, k) != [] {
        var m: nat :| LastOf(front, k, m) && front[m].1 == PerKey(q, k)[|PerKey(q, k)| - 1];
        assert LastOf(q, k, m);
      }
    }
  }

  /** The last request of every key is among those applied. */
  ghost predicate CoversLast(q: seq<Request>, order: seq<nat>) {
    forall k: Key, m: nat :: LastOf(q, k, m) ==> m in order
  }

  lemma StoreAt(q: seq<Request>, stamps: seq<int>, last: int, order: seq<nat>, cells: map<Key, Cell<Value>>, k: Key)
    requires |stamps| == |q| && Increasing(stamps, last) && Older(cells, stamps)
    requires InQueue(q, order) && CoversLast(q, order)
    ensures var store := Applied(q, stamps, order, cells);
            if PerKey(q, k) == [] then (k in store <==> k in cells) && (k in cells ==> store[k] == cells[k])
            else k in store && store[k].value == Some(PerKey(q, k)[|PerKey(q, k)| - 1])
  {
    AppliedAt(q, stamps, last, order, cells, k);
    LastOfKey(q, k);
    if PerKey(q, k) != [] {
      var m: nat :| LastOf(q, k, m) && q[m].1 == PerKey(q, k)[|PerKey(q, k)| - 1];
      assert m in order;
      forall x: nat | Newest(q, order, k, x) ensures x == m {}
    }
  }

  /** Stamped requests may reach the store in any order and any number of times, as long
      as the last one of every key does: over rows older than the stamps, a reader sees
      what the queue stands for. */
  lemma AnyOrder(q: seq<Request>, stamps: seq<int>, last: int, order: seq<nat>, cells: map<Key, Cell<Value>>)
    requires |stamps| == |q| && Increasing(stamps, last) && Older(cells, stamps)
    requires InQueue(q, order) && CoversLast(q, order)
    ensures Values(Applied(q, stamps, order, cells)) == Table(q, Values(cells))
  {
    var seen, table := Values(Applied(q, stamps, order, cells)), Table(q, Values(cells));
    forall k: Key ensures (k in seen <==> k in table) && (k in table ==> seen[k] == table[k]) {
      StoreAt(q, stamps, last, order, cells, k);
      TableAt(q, Values(cells), k);
    }
  }

  // ------------------------------------------------------------- the writer

  class Writer {
    const maxCalls: nat              // the flush threshold
    var lazyWriteEnabled: bool
    var dirtyBlocks: map<Key, Value>
    var queued: seq<Request>         // handed to the WriterThread
    var stamps: seq<int>             // their timestamps, unless disabled
    var lastStamp: int               // of the timestamp generator
    var ncallbacks: int              // requests not acknowledged
    const disableTimestamps: bool
    ghost var issued: seq<Request>   // every write of the user
    ghost var acked: set<nat>        // places in the queue that were acknowledged

    ghost predicate Valid()
      reads this
    {
      && (!lazyWriteEnabled ==> dirtyBlocks == map[])
      && |dirtyBlocks| <= maxCalls
      && Coalesced(issued, queued, dirtyBlocks) && Stamped() && Counted()
    }

    /** The counter is the number of queued requests not acknowledged. */
    ghost predicate Counted()
      reads this
    {
      (forall i: nat :: i in acked ==> i < |queued|) && ncallbacks == |queued| - |acked|
    }

    /** Timestamps follow the order of the queue, so the last write to a key in the queue
        is the one that wins in the store. */
    ghost predicate Stamped()
      reads this
    {
      |stamps| == (if disableTimestamps then 0 else |queued|) && Increasing(stamps, lastStamp)
    }

    constructor (maxCalls: nat, disableTimestamps: bool)
      ensures Valid() && issued == [] && queued == [] && !lazyWriteEnabled && ncallbacks == 0
      ensures this.maxCalls == maxCalls && this.disableTimestamps == disableTimestamps
    {
      this.maxCalls, this.disableTimestamps := maxCalls, disableTimestamps;
      lazyWriteEnabled, dirtyBlocks, queued, issued := false, map[], [], [];
      stamps, lastStamp, ncallbacks, acked := [], 0, 0, {};
    }

    /** Stamps, counts and queues one request; the clock may show anything. */
    method QueueAsyncQuery(key: Key, value: Value)
      requires Stamped() && Counted()
      modifies this`queued, this`stamps, this`lastStamp, this`ncallbacks
      ensures Stamped() && Counted() && queued == old(queued) + [(key, value)] && ncallbacks == old(ncallbacks) + 1
      ensures old(stamps) <= stamps
    {
      if !disableTimestamps {
        var now: int := *;
        var ts := NextStamp(lastStamp, now);
        stamps, lastStamp := stamps + [ts], ts;
      }
      ncallbacks := ncallbacks + 1;
      queued := queued + [(key, value)];
    }

    /** A queued request of this writer was acknowledged, once. */
    method FinishAsyncCall(ghost i: nat)
      requires Valid() && i < |queued| && i !in acked
      modifies this`ncallbacks, this`acked
      ensures Valid() && acked == old(acked) + {i} && ncallbacks == old(ncallbacks) - 1 >= 0
    {
      AckedBelow(acked + {i}, |queued|);
      ncallbacks := ncallbacks - 1;
      acked := acked + {i};
    }

    /** True exactly when every queued request was acknowledged and nothing waits; the
        queue then stands for every issued write. */
    method IsWriteCompleted() returns (b: bool)
      requires Valid()
      ensures b <==> (forall i: nat :: i < |queued| ==> i in acked) && dirtyBlocks == map[]
      ensures b ==> forall t: map<Key, Value> :: Table(queued, t) == Table(issued, t)
    {
      AckedBelow(acked, |queued|);
      b := ncallbacks == 0 && |dirtyBlocks| == 0;
      if b {
        forall t: map<Key, Value> ensures Table(queued, t) == Table(issued, t) {
          SameTable(issued, queued, t);
        }
      }
    }

    /** With nothing dirty, whatever order the requests take to the store and however often
        each is retried, over rows older than the stamps a reader sees every issued write. */
    lemma StoreHoldsIssued(order: seq<nat>, cells: map<Key, Cell<Value>>)
      requires Valid() && dirtyBlocks == map[] && !disableTimestamps && Older(cells, stamps)
      requires InQueue(queued, order) && CoversLast(queued, order)
      ensures Values(Applied(queued, stamps, order, cells)) == Table(issued, Values(cells))
    {
      AnyOrder(queued, stamps, lastStamp, order, cells);
      SameTable(issued, queued, Values(cells));
    }

    /** Queues every dirty block once, in the order the table happens to give. */
    method FlushDirtyBlocks()
      requires Coalesced(issued, queued, dirtyBlocks) && Stamped() && Counted()
      requires !lazyWriteEnabled ==> dirtyBlocks == map[]
      modifies this`queued, this`stamps, this`lastStamp, this`ncallbacks, this`dirtyBlocks
      ensures Valid() && dirtyBlocks == map[]
      ensures old(stamps) <= stamps && ncallbacks - |queued| == old(ncallbacks - |queued|)
      ensures old(queued) <= queued && |queued| == |old(queued)| + |old(dirtyBlocks)|
      ensures forall k :: k in old(dirtyBlocks) ==> (k, old(dirtyBlocks)[k]) in queued[|old(queued)|..]
    {
      if !lazyWriteEnabled { return; }
      var todo := dirtyBlocks.Keys;
      ghost var left := dirtyBlocks;
      while todo != {}
        invariant dirtyBlocks == old(dirtyBlocks) && left.Keys == todo <= dirtyBlocks.Keys
        invariant forall k :: k in left ==> left[k] == dirtyBlocks[k]
        invariant Coalesced(issued, queued, left) && Stamped() && Counted()
        invariant old(stamps) <= stamps && ncallbacks - |queued| == old(ncallbacks - |queued|)
        invariant old(queued) <= queued && |queued| == |old(queued)| + |dirtyBlocks.Keys| - |todo|
        invariant forall k :: k in dirtyBlocks && k !in todo ==> (k, dirtyBlocks[k]) in queued[|old(queued)|..]
        decreases |todo|
      {
        SomeKey(todo);
        var k :| k in todo;
        FlushOne(issued, queued, left, k);
        ghost var batch := queued[|old(queued)|..];
        QueueAsyncQuery(k, dirtyBlocks[k]);
        assert queued[|old(queued)|..] == batch + [(k, dirtyBlocks[k])];
        left := left - {k};
        todo := todo - {k};
      }
      assert left == map[];
      assert |dirtyBlocks.Keys| == |dirtyBlocks|;
      dirtyBlocks := map[];
    }

    method WriteToCassandra(key: Key, value: Value)
      requires Valid()
      modifies this`queued, this`stamps, this`lastStamp, this`ncallbacks, this`dirtyBlocks, this`issued
      ensures Valid() && issued == old(issued) + [(key, value)]
      ensures old(stamps) <= stamps && ncallbacks - |queued| == old(ncallbacks - |queued|)
      ensures !lazyWriteEnabled ==> queued == old(queued) + [(key, value)]
      ensures lazyWriteEnabled && |old(dirtyBlocks)[key := value]| <= maxCalls ==>
                queued == old(queued) && dirtyBlocks == old(dirtyBlocks)[key := value]
      ensures lazyWriteEnabled && |old(dirtyBlocks)[key := value]| > maxCalls ==>
                dirtyBlocks == map[] && (key, value) in queued
    {
      issued := issued + [(key, value)];
      if lazyWriteEnabled {
        WriteDirty(old(issued), queued, dirtyBlocks, key, value);
        dirtyBlocks := dirtyBlocks[key := value];
        if |dirtyBlocks| > maxCalls {
          ghost var n, dirty := |queued|, dirtyBlocks;
          FlushDirtyBlocks();
          assert key in dirty && (key, dirty[key]) in queued[n..];
        }
      } else {
        WriteThrough(old(issued), queued, key, value);
        QueueAsyncQuery(key, value);
      }
    }

    method EnableLazyWrite()
      requires Valid()
      modifies this`lazyWriteEnabled
      ensures Valid() && lazyWriteEnabled
    {
      lazyWriteEnabled := true;
    }

    method DisableLazyWrite()
      requires Valid()
      modifies this`queued, this`stamps, this`lastStamp, this`ncallbacks, this`dirtyBlocks, this`lazyWriteEnabled
      ensures Valid() && !lazyWriteEnabled && dirtyBlocks == map[]
    {
      if lazyWriteEnabled {
        FlushDirtyBlocks();
        lazyWriteEnabled := false;
      }
    }

    /** The flush that precedes waiting for completion. */
    method FlushElements()
      requires Valid()
      modifies this`queued, this`stamps, this`lastStamp, this`ncallbacks, this`dirtyBlocks
      ensures Valid() && dirtyBlocks == map[]
      ensures forall t: map<Key, Value> :: Table(queued, t) == Table(issued, t)
    {
      FlushDirtyBlocks();
      forall t: map<Key, Value> ensures Table(queued, t) == Table(issued, t) {
        SameTable(issued, queued, t);
      }
    }
  }
}
