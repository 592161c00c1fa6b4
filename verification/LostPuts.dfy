/** Puts that the store ignores.  A put over a row whose timestamp the table's generator
    does not exceed is acknowledged and then lost: the next read returns the old row. */
module LostPuts {
  import opened CacheTable
  import opened Collections
  import opened Timestamps
  import opened WriterProtocol
  import opened WriterRuns

  ghost predicate Reaches(s: Sys, t: Sys) {
    exists ss, es :: IsSysRun(ss, es) && ss[0] == s && ss[|es|] == t
  }

  lemma ReachesItself(s: Sys)
    ensures Reaches(s, s)
  {
    assert IsSysRun([s], []);
  }

  /** One more event at the end of a run. */
  lemma Extended(ss: seq<Sys>, es: seq<Event>, e: Event)
    requires IsSysRun(ss, es) && Occurs(ss[|es|], e)
    ensures IsSysRun(ss + [Next(ss[|es|], e)], es + [e])
  {
    var ts, bs := ss + [Next(ss[|es|], e)], es + [e];
    forall i | 0 <= i < |bs| ensures Occurs(ts[i], bs[i]) && ts[i + 1] == Next(ts[i], bs[i]) {
      if i < |es| { assert ts[i] == ss[i] && bs[i] == es[i] && ts[i + 1] == ss[i + 1]; }
    }
  }

  lemma Then(s: Sys, t: Sys, e: Event)
    requires Reaches(s, t) && Occurs(t, e)
    ensures Reaches(s, Next(t, e))
  {
    var ss, es :| IsSysRun(ss, es) && ss[0] == s && ss[|es|] == t;
    Extended(ss, es, e);
    assert (ss + [Next(t, e)])[0] == s && (ss + [Next(t, e)])[|es + [e]|] == Next(t, e);
  }

  /** A protocol step that the store does not see. */
  lemma ThenStep(s: Sys, t: Sys, a: Action)
    requires Reaches(s, t) && !IsCall(a) && Enabled(t.p, a) && !a.Deliver?
    ensures Reaches(s, t.(p := Apply(t.p, a)))
  {
    Then(s, t, Protocol(a));
    assert Next(t, Protocol(a)) == t.(p := Apply(t.p, a));
  }

  // ------------------------------------------------- one put from end to end

  /** No request anywhere, and the user of writer `w` free to call. */
  ghost predicate AtRest(p: State, w: nat) {
    && w in p.user && p.user[w] == Idle && w in p.writerCount && p.writerCount[w] == 0 && w !in p.lazyOn
    && p.dirty == map[] && p.capacity >= 1 && p.queue == [] && p.pending == 0 && p.slots >= 1
    && p.worker == Waiting && p.flight == map[] && p.callbacks == map[]
  }

  /** `it` is the one request of the protocol, and its caller is past the push. */
  ghost predicate OnlyRequest(p: State, it: Item) {
    var w := it.writer;
    && w in p.user && p.user[w] == Idle && w in p.writerCount && p.writerCount[w] == 1 && w !in p.lazyOn
    && p.dirty == map[] && p.capacity >= 1 && p.worker == Waiting && p.callbacks == map[]
  }

  lemma QueueIt(s: Sys, t: Sys, it: Item, now: int) returns (u: Sys)
    requires Reaches(s, t) && AtRest(t.p, it.writer) && Occurs(t, PutStart(it, now))
    ensures Reaches(s, u) && u == Next(t, PutStart(it, now)).(p := u.p)
    ensures OnlyRequest(u.p, it) && u.p.queue == [it] && u.p.pending == 1 && u.p.slots >= 1 && u.p.flight == map[]
    ensures u.p.accepted == t.p.accepted + {it}
  {
    Then(s, t, PutStart(it, now));
    u := Next(t, PutStart(it, now));
    ThenStep(s, u, Push(it.writer));
    u := u.(p := Apply(u.p, Push(it.writer)));
    ThenStep(s, u, Release(it.writer));
    u := u.(p := Apply(u.p, Release(it.writer)));
  }

  lemma SendIt(s: Sys, t: Sys, it: Item) returns (u: Sys)
    requires Reaches(s, t) && OnlyRequest(t.p, it)
    requires t.p.queue == [it] && t.p.pending == 1 && t.p.slots >= 1 && t.p.flight == map[]
    ensures Reaches(s, u) && u == t.(p := u.p)
    ensures OnlyRequest(u.p, it) && u.p.queue == [] && u.p.pending == 0 && u.p.slots >= 0
    ensures u.p.flight == map[it := false] && u.p.accepted == t.p.accepted
  {
    ThenStep(s, t, Wake);
    u := t.(p := Apply(t.p, Wake));
    ThenStep(s, u, Count);
    u := u.(p := Apply(u.p, Count));
    ThenStep(s, u, Pop);
    u := u.(p := Apply(u.p, Pop));
    ThenStep(s, u, Slot);
    u := u.(p := Apply(u.p, Slot));
    ThenStep(s, u, Send);
    u := u.(p := Apply(u.p, Send));
  }

  lemma DeliverIt(s: Sys, t: Sys, it: Item) returns (u: Sys)
    requires Reaches(s, t) && OnlyRequest(t.p, it) && it in t.stamp && t.p.flight == map[it := false]
    ensures Reaches(s, u) && u == t.(p := u.p, cells := Put(t.cells, At(it), Cell(t.stamp[it], Some(it.value))))
    ensures u.p == t.p.(flight := map[it := true], applied := t.p.applied + [it])
  {
    Then(s, t, Protocol(Deliver(it)));
    u := Next(t, Protocol(Deliver(it)));
    assert u.p.flight == map[it := true];
  }

  lemma OnlyGone<V>(m: map<Item, V>, it: Item, v: V)
    requires m == map[it := v]
    ensures Without(m, it) == map[]
  {
    assert forall x :: x in m ==> x == it;
  }

  lemma AcknowledgeIt(s: Sys, t: Sys, it: Item) returns (u: Sys)
    requires Reaches(s, t) && OnlyRequest(t.p, it)
    requires t.p.queue == [] && t.p.pending == 0 && t.p.slots >= 0 && t.p.flight == map[it := true]
    ensures Reaches(s, u) && u == t.(p := u.p)
    ensures AtRest(u.p, it.writer) && u.p.accepted == t.p.accepted
  {
    OnlyGone(t.p.flight, it, true);
    ThenStep(s, t, Succeed(it));
    u := t.(p := Apply(t.p, Succeed(it)));
    ThenStep(s, u, OkThreadDone(it));
    u := u.(p := Apply(u.p, OkThreadDone(it)));
    OnlyGone(u.p.callbacks, it, OkWriter);
    ThenStep(s, u, OkWriterDone(it));
    u := u.(p := Apply(u.p, OkWriterDone(it)));
  }

  /** What a put_crow leaves once it has been acknowledged and cached. */
  ghost predicate AfterPut(t: Sys, u: Sys, it: Item, now: int)
    requires it.writer in t.clock
  {
    var ts := NextStamp(t.clock[it.writer], now);
    && u.p.accepted == t.p.accepted + {it} && it.writer in u.client && u.client[it.writer] == NoCall
    && u.clock == t.clock[it.writer := ts] && u.floor == t.floor
    && u.cells == Put(t.cells, At(it), Cell(ts, Some(it.value)))
    && u.logical == t.logical[At(it) := it.value]
    && u.cache == CacheAdd(t, it.writer, it.key, it.value) && u.cacheMax == t.cacheMax
  }

  lemma PutIt(s: Sys, t: Sys, it: Item, now: int) returns (u: Sys)
    requires Reaches(s, t) && AtRest(t.p, it.writer) && Occurs(t, PutStart(it, now))
    ensures Reaches(s, u) && AtRest(u.p, it.writer) && AfterPut(t, u, it, now)
  {
    u := QueueIt(s, t, it, now);
    u := SendIt(s, u, it);
    u := DeliverIt(s, u, it);
    u := AcknowledgeIt(s, u, it);
    u := CacheIt(s, u, it);
  }

  lemma CacheIt(s: Sys, t: Sys, it: Item) returns (u: Sys)
    requires Reaches(s, t) && AtRest(t.p, it.writer) && it.writer in t.client && t.client[it.writer] == Putting(it)
    ensures Reaches(s, u)
    ensures u == t.(client := t.client[it.writer := NoCall], cache := CacheAdd(t, it.writer, it.key, it.value))
  {
    Then(s, t, PutDone(it.writer));
    u := Next(t, PutDone(it.writer));
  }

  // ------------------------------------------------------- the put that is lost

  /** Keys above `k` have been put since `k`: in the cache, `k` is below them. */
  ghost predicate Buried(c: L.Entries<Key, Value>, k: Key, j: nat, max: nat) {
    |c| <= max && forall i :: 0 <= i < |c| ==> c[i].0 <= k + j && (c[i].0 == k ==> i >= j)
  }

  lemma {:induction false} NotCached(c: L.Entries<Key, Value>, k: Key)
    requires forall i :: 0 <= i < |c| ==> c[i].0 != k
    ensures L.Lookup(c, k) == None
  {
    if c == [] {
    } else {
      NotCached(c[1..], k);
    }
  }

  lemma Evicted(c: L.Entries<Key, Value>, k: Key, max: nat)
    requires Buried(c, k, max, max)
    ensures L.Lookup(c, k) == None
  {
    NotCached(c, k);
  }

  lemma BuriedDeeper(c: L.Entries<Key, Value>, k: Key, j: nat, v: Value, max: nat)
    requires Buried(c, k, j, max) && max >= 1
    ensures Buried(L.Added(c, k + j + 1, v, max), k, j + 1, max)
  {
    NotCached(c, k + j + 1);
    var d := L.Added(c, k + j + 1, v, max);
    forall i | 0 <= i < |d| ensures d[i].0 <= k + j + 1 && (d[i].0 == k ==> i >= j + 1) {
      if i > 0 { assert d[i] == c[i - 1]; }
    }
  }

  /** The put of `v` at `at` and `j` later puts are over, and the stored row is the old one. */
  ghost predicate Lost(s: Sys, at: Place, v: Value, j: nat) {
    && AtRest(s.p, at.0) && at.0 in s.clock && at.0 in s.client && s.client[at.0] == NoCall
    && at in s.cells && s.cells[at].value != Some(v) && Find(s.logical, at) == Some(v)
    && (forall it :: it in s.p.accepted ==> it.key <= at.1 + j)
    && (at.0 in s.cache ==> at.0 in s.cacheMax && s.cacheMax[at.0] >= 1
                            && Buried(s.cache[at.0], at.1, j, s.cacheMax[at.0]))
  }

  /** A value that the stored one beats under any rule for equal timestamps. */
  function Beaten(c: Cell<Value>): Value {
    if c.value.Some? then c.value.value - 1 else 0
  }

  ghost predicate Newer(s: Sys, at: Place) {
    at in s.cells && at.0 in s.clock && s.cells[at].ts >= NextStamp(s.clock[at.0], s.floor)
  }

  lemma PutLost(s: Sys, at: Place) returns (t: Sys)
    requires Start(s) && Newer(s, at)
    ensures Reaches(s, t) && Lost(t, at, Beaten(s.cells[at]), 0)
  {
    ReachesItself(s);
    var it := Item(at.0, 0, at.1, Beaten(s.cells[at]));
    t := PutIt(s, s, it, s.floor);
    assert At(it) == at;
    if at.0 in s.cache { assert L.Added(s.cache[at.0], at.1, it.value, s.cacheMax[at.0]) == [(at.1, it.value)]; }
  }

  /** Another put, of a key not used yet. */
  lemma PutAnother(s: Sys, t: Sys, at: Place, v: Value, j: nat) returns (u: Sys)
    requires Reaches(s, t) && Lost(t, at, v, j)
    ensures Reaches(s, u) && Lost(u, at, v, j + 1) && u.cacheMax == t.cacheMax
  {
    var it := Item(at.0, 0, at.1 + j + 1, 0);
    assert it !in t.p.accepted;
    u := PutIt(s, t, it, t.floor);
    StillLost(t, u, at, v, j, it);
  }

  lemma StillLost(t: Sys, u: Sys, at: Place, v: Value, j: nat, it: Item)
    requires Lost(t, at, v, j) && it == Item(at.0, 0, at.1 + j + 1, 0)
    requires AtRest(u.p, at.0) && AfterPut(t, u, it, t.floor)
    ensures Lost(u, at, v, j + 1)
  {
    assert At(it) != at;
    if at.0 in t.cache { BuriedDeeper(t.cache[at.0], at.1, j, 0, t.cacheMax[at.0]); }
  }

  /** Enough other puts push the key out of the cache of its table. */
  lemma {:induction false} PutOthers(s: Sys, t: Sys, at: Place, v: Value, j: nat) returns (u: Sys)
    requires Reaches(s, t) && Lost(t, at, v, 0)
    ensures Reaches(s, u) && Lost(u, at, v, j) && u.cacheMax == t.cacheMax
  {
    if j == 0 {
      u := t;
    } else {
      u := PutOthers(s, t, at, v, j - 1);
      u := PutAnother(s, u, at, v, j - 1);
    }
  }

  /** The writer is at rest, so a get that misses the cache goes on to the store at once. */
  lemma GetMissed(s: Sys, t: Sys, at: Place) returns (u: Sys)
    requires Reaches(s, t) && AtRest(t.p, at.0) && at.0 in t.client && t.client[at.0] == NoCall
    requires at.0 in t.cache ==> L.Lookup(t.cache[at.0], at.1) == None
    ensures Reaches(s, u) && u == t.(client := t.client[at.0 := Reading(at.1)])
  {
    Then(s, t, GetMiss(at.0, at.1));
    u := Next(t, GetMiss(at.0, at.1));
    assert Completed(u.p, at.0);
    Then(s, u, GetReady(at.0));
    u := Next(u, GetReady(at.0));
    assert u.client == t.client[at.0 := Reading(at.1)];
  }

  lemma GetTheOld(s: Sys, t: Sys, at: Place) returns (ss: seq<Sys>, es: seq<Event>)
    requires Reaches(s, t) && Start(s) && at.0 in t.client && t.client[at.0] == Reading(at.1)
    requires Read(t.cells, at) != Find(t.logical, at)
    ensures IsSysRun(ss, es) && ss[0] == s && es != [] && !Current(Values(s.cells), es, |es| - 1)
  {
    var ss0, es0 :| IsSysRun(ss0, es0) && ss0[0] == s && ss0[|es0|] == t;
    var e := GetRead(at.0, at.1, Read(t.cells, at));
    LogicalIsPlain(ss0, es0, |es0|);
    Extended(ss0, es0, e);
    ss, es := ss0 + [Next(t, e)], es0 + [e];
    assert es[..|es| - 1] == es0 == es0[..|es0|];
    assert es[|es| - 1] == e;
  }

  /** A stored row that is newer than its table's timestamps can hide a put: with a
      cache of any size or none, some run puts a value, sees it acknowledged, and reads
      the old row. */
  lemma LosingRun(s: Sys, at: Place) returns (ss: seq<Sys>, es: seq<Event>)
    requires Start(s) && Newer(s, at)
    ensures IsSysRun(ss, es) && ss[0] == s && es != [] && !Current(Values(s.cells), es, |es| - 1)
  {
    var v := Beaten(s.cells[at]);
    var t := PutLost(s, at);
    var max := if at.0 in t.cacheMax then t.cacheMax[at.0] else 0;
    t := PutOthers(s, t, at, v, max);
    if at.0 in t.cache { Evicted(t.cache[at.0], at.1, max); }
    t := GetMissed(s, t, at);
    ss, es := GetTheOld(s, t, at);
  }

  /** The cached, asynchronous table refines a plain map in every run exactly when every
      stored row is older than the first timestamp its table gives. */
  lemma CurrentExactly(s: Sys)
    requires Start(s)
    ensures Aged(s) <==>
              forall ss, es, i :: IsSysRun(ss, es) && ss[0] == s && 0 <= i < |es| ==> Current(Values(s.cells), es, i)
  {
    if Aged(s) {
      forall ss, es, i | IsSysRun(ss, es) && ss[0] == s && 0 <= i < |es| ensures Current(Values(s.cells), es, i) {
        GetsAreCurrent(ss, es, i);
      }
    } else {
      var at :| at in s.cells && !(at.0 in s.clock && s.cells[at].ts < NextStamp(s.clock[at.0], s.floor));
      var ss, es := LosingRun(s, at);
    }
  }
}
