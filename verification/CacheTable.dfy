/** Cached, asynchronous tables over a last-writer-wins store.  Every table is a
    Writer of the shared WriterProtocol with its own timestamp generator and an
    optional LRU cache; user calls on one table come one at a time. */
module CacheTable {
  import opened Collections
  import opened Timestamps
  import opened WriterProtocol
  import opened WriterRuns
  import L = KVCache

  type Place = (nat, Key) // table and key

  datatype ClientPc =
    | NoCall
    | Putting(it: Item)   // put_crow: write_to_cassandra under way, cache not yet updated
    | Deleting(key: Key)  // delete_crow: executed, cache not yet updated
    | Getting(key: Key)   // get_crow: missed the cache, waiting for the writer
    | Reading(key: Key)   // get_crow: saw is_write_completed, query under way

  datatype Sys = Sys(
    p: State,
    stamp: map<Item, int>,                       // timestamp set by queue_async_query
    clock: map<nat, int>,                        // TimestampGenerator::last of each table
    cells: map<Place, Cell<Value>>,                     // Cassandra
    cache: map<nat, L.Entries<Key, Value>>,      // tables with a cache
    cacheMax: map<nat, nat>,
    client: map<nat, ClientPc>,
    latest: map<Place, Cell<Value>>,                    // history: last issued operation per key
    logical: map<Place, Value>,                  // the plain map
    floor: int)                                  // the clock never shows less

  datatype Event =
    | PutStart(it: Item, now: int)
    | PutDone(w: nat)
    | Delete(w: nat, key: Key, now: int)
    | DeleteDone(w: nat)
    | GetHit(w: nat, key: Key, result: Option<Value>)
    | GetMiss(w: nat, key: Key)
    | GetReady(w: nat)
    | GetRead(w: nat, key: Key, result: Option<Value>)
    | Protocol(a: Action)                        // any protocol step that is no call
    | Redeliver(it: Item)                        // the store applies a sent request again, late

  function At(it: Item): Place { (it.writer, it.key) }

  function Read(cells: map<Place, Cell<Value>>, at: Place): Option<Value> {
    if at in cells then cells[at].value else None
  }

  function Find(m: map<Place, Value>, at: Place): Option<Value> {
    if at in m then Some(m[at]) else None
  }

  function CacheAdd(s: Sys, w: nat, k: Key, v: Value): map<nat, L.Entries<Key, Value>> {
    if w in s.cache && w in s.cacheMax then s.cache[w := L.Added(s.cache[w], k, v, s.cacheMax[w])] else s.cache
  }

  ghost predicate Occurs(s: Sys, e: Event) {
    match e
    case PutStart(it, now) =>
      it.writer in s.client && s.client[it.writer] == NoCall && it.writer in s.clock && Enabled(s.p, Accept(it))
      && now >= s.floor
    case PutDone(w) => w in s.client && s.client[w].Putting? && w in s.p.user && s.p.user[w] == Idle
    case Delete(w, k, now) => w in s.client && s.client[w] == NoCall && w in s.clock && now >= s.floor
    case DeleteDone(w) => w in s.client && s.client[w].Deleting?
    case GetHit(w, k, result) =>
      w in s.client && s.client[w] == NoCall && w in s.cache && L.Lookup(s.cache[w], k).Some?
          && result == L.Lookup(s.cache[w], k)
    case GetMiss(w, k) =>
      w in s.client && s.client[w] == NoCall && (w in s.cache ==> L.Lookup(s.cache[w], k).None?)
    case GetReady(w) => w in s.client && s.client[w].Getting? && Completed(s.p, w)
    case GetRead(w, k, result) => w in s.client && s.client[w] == Reading(k) && result == Read(s.cells, (w, k))
    case Protocol(a) => !IsCall(a) && Enabled(s.p, a) && (a.Deliver? ==> a.it in s.stamp)
    case Redeliver(it) => it in s.p.pushed && it in s.stamp
  }

  ghost function Next(s: Sys, e: Event): Sys
    requires Occurs(s, e)
  {
    match e
    case PutStart(it, now) =>
      var ts := NextStamp(s.clock[it.writer], now);
      s.(p := Apply(s.p, Accept(it)), stamp := s.stamp[it := ts], clock := s.clock[it.writer := ts],
         client := s.client[it.writer := Putting(it)],
         latest := s.latest[At(it) := Cell(ts, Some(it.value))],
         logical := s.logical[At(it) := it.value])
    case PutDone(w) =>
      s.(client := s.client[w := NoCall], cache := CacheAdd(s, w, s.client[w].it.key, s.client[w].it.value))
    case Delete(w, k, now) =>
      var ts := NextStamp(s.clock[w], now);
      s.(clock := s.clock[w := ts], client := s.client[w := Deleting(k)],
         cells := Put(s.cells, (w, k), Cell(ts, None)),
         latest := s.latest[(w, k) := Cell(ts, None)],
         logical := s.logical - {(w, k)})
    case DeleteDone(w) =>
      s.(client := s.client[w := NoCall],
         cache := if w in s.cache then s.cache[w := L.Drop(s.cache[w], s.client[w].key)] else s.cache)
    case GetHit(w, k, _) => s.(cache := s.cache[w := L.Touched(s.cache[w], k)])
    case GetMiss(w, k) => s.(client := s.client[w := Getting(k)])
    case GetReady(w) => s.(client := s.client[w := Reading(s.client[w].key)])
    case GetRead(w, k, result) =>
      s.(client := s.client[w := NoCall], cache := if result.Some? then CacheAdd(s, w, k, result.value) else s.cache)
    case Protocol(a) =>
      s.(p := Apply(s.p, a),
         cells := if a.Deliver? then Put(s.cells, At(a.it), Cell(s.stamp[a.it], Some(a.it.value))) else s.cells)
    case Redeliver(it) => s.(cells := Put(s.cells, At(it), Cell(s.stamp[it], Some(it.value))))
  }

  /** Any rows may be stored already; they are the last operations on their keys. */
  ghost predicate Start(s: Sys) {
    && Init(s.p) && s.stamp == map[] && s.latest == s.cells && s.logical == Values(s.cells)
    && (forall at :: at in s.cells ==> at.0 in s.clock)
    && s.clock.Keys == s.p.user.Keys && s.client.Keys == s.p.user.Keys
    && (forall w :: w in s.client ==> s.client[w] == NoCall)
    && s.cache.Keys == s.cacheMax.Keys <= s.p.user.Keys
    && (forall w :: w in s.cache ==> s.cache[w] == [] && s.cacheMax[w] >= 1)
  }

  /** Every stored row is older than the first timestamp that its table can give. */
  ghost predicate Aged(s: Sys) {
    forall at :: at in s.cells ==> at.0 in s.clock && s.cells[at].ts < NextStamp(s.clock[at.0], s.floor)
  }

  // -------------------------------------------------------------- invariants

  predicate EagerPc(pc: UserPc) {
    pc != Flushing && (pc.Counted? ==> !pc.flushing) && (pc.Pushed? ==> !pc.flushing)
  }

  /** Writes are eager: nothing is ever dirty. */
  ghost predicate EagerState(p: State) {
    && p.lazyOn == {} && p.dirty == map[] && p.superseded == {}
    && forall w :: w in p.user ==> EagerPc(p.user[w])
  }

  ghost predicate Wired(s: Sys) {
    && s.clock.Keys == s.p.user.Keys && s.client.Keys == s.p.user.Keys
    && s.cache.Keys == s.cacheMax.Keys <= s.p.user.Keys
    && forall w :: w in s.cacheMax ==> s.cacheMax[w] >= 1
  }

  ghost predicate Eager(s: Sys) {
    Inv(s.p) && EagerState(s.p) && Wired(s)
  }

  /** Outside put_crow the writer's user thread is idle. */
  ghost predicate Serial(s: Sys, w: nat) {
    w in s.client && w in s.p.user ==>
      && (!s.client[w].Putting? ==> s.p.user[w] == Idle)
      && (s.client[w].Reading? ==> Completed(s.p, w))
      && (s.client[w].Putting? ==>
            At(s.client[w].it).0 == w && Find(s.logical, At(s.client[w].it)) == Some(s.client[w].it.value))
      && (s.client[w].Deleting? ==> Find(s.logical, (w, s.client[w].key)) == None)
  }

  /** A write carries a timestamp no newer than the last operation on its key. */
  ghost predicate Stamped(s: Sys, it: Item) {
    && (it in s.stamp <==> it in s.p.accepted)
    && (it in s.stamp ==>
          && it.writer in s.clock && s.stamp[it] <= s.clock[it.writer]
          && At(it) in s.latest && s.stamp[it] <= s.latest[At(it)].ts
          && (s.stamp[it] == s.latest[At(it)].ts ==> s.latest[At(it)].value == Some(it.value)))
    && (it in s.p.applied ==> it in s.stamp && At(it) in s.cells && s.cells[At(it)].ts >= s.stamp[it])
  }

  ghost predicate IsLast(s: Sys, at: Place, it: Item) {
    it in s.p.accepted && it in s.stamp && At(it) == at && at in s.latest && s.stamp[it] == s.latest[at].ts
  }

  /** The store never runs ahead of the last operation, which is either in the
      store or an accepted write. */
  ghost predicate Bounded(s: Sys, at: Place) {
    && (at in s.latest ==> at.0 in s.clock && s.latest[at].ts < NextStamp(s.clock[at.0], s.floor))
    && (at in s.cells ==> at in s.latest && s.cells[at].ts <= s.latest[at].ts
                          && (s.cells[at].ts == s.latest[at].ts ==> s.cells[at] == s.latest[at]))
    && (at in s.latest ==> (at in s.cells && s.cells[at].ts >= s.latest[at].ts) || exists it :: IsLast(s, at, it))
    && Find(s.logical, at) == Read(s.latest, at)
  }

  /** Cached entries are current, except the one a call in progress is replacing. */
  ghost predicate Fresh(s: Sys, w: nat) {
    w in s.cache && w in s.client ==>
      && Distinct(L.Keys(s.cache[w]))
      && forall e :: e in s.cache[w] ==>
           (s.client[w].Putting? && s.client[w].it.key == e.0)
           || (s.client[w].Deleting? && s.client[w].key == e.0)
           || Find(s.logical, (w, e.0)) == Some(e.1)
  }

  ghost predicate SysInv(s: Sys) {
    && Eager(s)
    && (forall w :: Serial(s, w))
    && (forall it: Item :: Stamped(s, it))
    && (forall at: Place :: Bounded(s, at))
    && (forall w :: Fresh(s, w))
  }

  lemma StartInv(s: Sys)
    requires Start(s) && Aged(s)
    ensures SysInv(s)
  {
    InitInv(s.p);
  }

  // -------------------------------------------------------------- one step

  /** What a protocol step leaves alone in an eager state. */
  ghost predicate KeptByProtocol(p: State, q: State) {
    && q.user.Keys == p.user.Keys && q.accepted == p.accepted && p.acked <= q.acked
    && forall w :: w in p.user && p.user[w] == Idle ==> q.user[w] == Idle
  }

  lemma EagerProtocol(p: State, a: Action)
    requires !IsCall(a) && Enabled(p, a) && EagerState(p)
    ensures EagerState(Apply(p, a)) && KeptByProtocol(p, Apply(p, a))
  {
    forall w | w in p.user ensures EagerPc(p.user[w]) {}
    if IsUserStep(a) {
      EagerUserStep(p, a);
    }
  }

  lemma EagerUserStep(p: State, a: Action)
    requires !IsCall(a) && Enabled(p, a) && EagerState(p) && IsUserStep(a)
    ensures EagerState(Apply(p, a)) && KeptByProtocol(p, Apply(p, a))
  {
    if a.Push? || a.Release? {
      assert EagerPc(p.user[a.w]);
    }
  }

  lemma EagerAccept(p: State, it: Item)
    requires Enabled(p, Accept(it)) && EagerState(p)
    ensures EagerState(Apply(p, Accept(it))) && Apply(p, Accept(it)).user.Keys == p.user.Keys
  {}

  lemma WiredStep(s: Sys, e: Event)
    requires Wired(s) && Occurs(s, e)
    requires e.PutStart? ==> Apply(s.p, Accept(e.it)).user.Keys == s.p.user.Keys
    requires e.Protocol? ==> Apply(s.p, e.a).user.Keys == s.p.user.Keys
    ensures Wired(Next(s, e))
  {}

  lemma EagerStep(s: Sys, e: Event)
    requires Eager(s) && Occurs(s, e)
    ensures Eager(Next(s, e))
  {
    if e.PutStart? {
      InvStep(s.p, Accept(e.it));
      EagerAccept(s.p, e.it);
    } else if e.Protocol? {
      InvStep(s.p, e.a);
      EagerProtocol(s.p, e.a);
    }
    WiredStep(s, e);
    SameProtocol(s, e);
  }

  /** Only PutStart and Protocol events touch the protocol state. */
  lemma SameProtocol(s: Sys, e: Event)
    requires Occurs(s, e)
    ensures Next(s, e).p == if e.PutStart? then Apply(s.p, Accept(e.it)) else if e.Protocol?
        then Apply(s.p, e.a) else s.p
  {}

  lemma CompletedStays(p: State, a: Action, w: nat)
    requires Inv(p) && !IsCall(a) && Enabled(p, a) && w in p.user && Completed(p, w)
    requires EagerState(p)
    ensures Completed(Apply(p, a), w)
  {
    InvStep(p, a);
    EagerProtocol(p, a);
    CompletedIff(p, w);
    CompletedIff(Apply(p, a), w);
  }

  lemma SerialStep(s: Sys, e: Event, w: nat)
    requires Eager(s) && Occurs(s, e) && Serial(s, w)
    ensures Serial(Next(s, e), w)
  {
    if e.PutStart? {
      SerialPutStart(s, e.it, e.now, w);
    } else if e.Protocol? {
      SerialProtocol(s, e.a, w);
    } else {
      SerialClient(s, e, w);
    }
  }

  lemma SerialProtocol(s: Sys, a: Action, w: nat)
    requires Eager(s) && Occurs(s, Protocol(a)) && Serial(s, w)
    ensures Serial(Next(s, Protocol(a)), w)
  {
    EagerProtocol(s.p, a);
    var q := Apply(s.p, a);
    if w in s.p.user && Completed(s.p, w) { CompletedStays(s.p, a, w); }
    assert Next(s, Protocol(a)).client == s.client && Next(s, Protocol(a)).logical == s.logical
        && Next(s, Protocol(a)).p == q;
    assert KeptByProtocol(s.p, q);
  }

  lemma SerialClient(s: Sys, e: Event, w: nat)
    requires Wired(s) && Occurs(s, e) && Serial(s, w) && !e.PutStart? && !e.Protocol?
    ensures Serial(Next(s, e), w)
  {}

  lemma SerialPutStart(s: Sys, it: Item, now: int, w: nat)
    requires Eager(s) && Occurs(s, PutStart(it, now)) && Serial(s, w)
    ensures Serial(Next(s, PutStart(it, now)), w)
  {
    var n := Next(s, PutStart(it, now));
    assert n.p.user == s.p.user[it.writer := Counted(it, false)] && n.p.dirty == s.p.dirty;
    assert n.p.writerCount == Bump(s.p.writerCount, it.writer, 1);
    SerialAccept(s, n, it, w);
  }

  lemma SerialAccept(s: Sys, n: Sys, it: Item, w: nat)
    requires n.p.user == s.p.user[it.writer := Counted(it, false)] && n.p.dirty == s.p.dirty
    requires n.p.writerCount == Bump(s.p.writerCount, it.writer, 1)
    requires it.writer in s.client && n.client == s.client[it.writer := Putting(it)]
    requires n.logical == s.logical[At(it) := it.value] && it.writer in s.p.user && Serial(s, w)
    ensures Serial(n, w)
  {}

  lemma AppliedGrows(p: State, a: Action, it: Item)
    requires Enabled(p, a)
    ensures it in Apply(p, a).applied <==> it in p.applied || a == Deliver(it)
  {}

  lemma StampedStep(s: Sys, e: Event, it: Item)
    requires Eager(s) && Occurs(s, e) && Stamped(s, it) && Bounded(s, At(it))
    requires e.PutStart? ==> Stamped(s, e.it)
    ensures Stamped(Next(s, e), it)
  {
    if e.PutStart? {
      StampedPutStart(s, e.it, e.now, it);
    } else if e.Protocol? {
      StampedProtocol(s, e.a, it);
    } else {
      StampedClient(s, e, it);
    }
  }

  lemma StampedProtocol(s: Sys, a: Action, it: Item)
    requires EagerState(s.p) && Occurs(s, Protocol(a)) && Stamped(s, it)
    ensures Stamped(Next(s, Protocol(a)), it)
  {
    EagerProtocol(s.p, a);
    AppliedGrows(s.p, a, it);
    var n := Next(s, Protocol(a));
    assert n.p == Apply(s.p, a) && n.stamp == s.stamp && n.clock == s.clock && n.latest == s.latest;
    assert n.cells == if a.Deliver? then Put(s.cells, At(a.it), Cell(s.stamp[a.it], Some(a.it.value))) else s.cells;
  }

  lemma StampedClient(s: Sys, e: Event, it: Item)
    requires Wired(s) && Occurs(s, e) && Stamped(s, it) && Bounded(s, At(it)) && !e.PutStart? && !e.Protocol?
    ensures Stamped(Next(s, e), it)
  {}

  lemma StampedPutStart(s: Sys, x: Item, now: int, it: Item)
    requires Eager(s) && Occurs(s, PutStart(x, now)) && Stamped(s, it) && Bounded(s, At(it)) && Stamped(s, x)
    ensures Stamped(Next(s, PutStart(x, now)), it)
  {
    var n, ts := Next(s, PutStart(x, now)), NextStamp(s.clock[x.writer], now);
    assert n.p.accepted == s.p.accepted + {x} && n.p.applied == s.p.applied;
    StampedAccept(s, n, x, ts, it);
  }

  /** A write that takes the newest timestamp of its table. */
  lemma StampedAccept(s: Sys, n: Sys, x: Item, ts: int, it: Item)
    requires x.writer in s.clock && ts > s.clock[x.writer] && x !in s.p.accepted
    requires n.p.accepted == s.p.accepted + {x} && n.p.applied == s.p.applied && n.cells == s.cells
    requires n.stamp == s.stamp[x := ts] && n.clock == s.clock[x.writer := ts]
    requires n.latest == s.latest[At(x) := Cell(ts, Some(x.value))]
    requires Stamped(s, it) && Bounded(s, At(it)) && Stamped(s, x)
    ensures Stamped(n, it)
  {}

  lemma LastStays(s: Sys, e: Event, at: Place)
    requires Eager(s) && Occurs(s, e) && at in s.latest && at in Next(s, e).latest
    requires Next(s, e).latest[at] == s.latest[at]
    requires exists it :: IsLast(s, at, it)
    requires e.PutStart? ==> Stamped(s, e.it)
    ensures exists it :: IsLast(Next(s, e), at, it)
  {
    var it :| IsLast(s, at, it);
    if e.PutStart? {
      StampKeptByPut(s, e, it);
    } else {
      StampKept(s, e, it);
    }
    assert IsLast(Next(s, e), at, it);
  }

  lemma StampKeptByPut(s: Sys, e: Event, it: Item)
    requires Occurs(s, e) && e.PutStart? && it in s.p.accepted && it in s.stamp
    ensures var n := Next(s, e); it in n.p.accepted && it in n.stamp && n.stamp[it] == s.stamp[it]
  {
    assert e.it !in s.p.accepted;
  }

  lemma StampKept(s: Sys, e: Event, it: Item)
    requires Eager(s) && Occurs(s, e) && !e.PutStart? && it in s.p.accepted && it in s.stamp
    ensures var n := Next(s, e); it in n.p.accepted && n.stamp == s.stamp
  {
    if e.Protocol? { EagerProtocol(s.p, e.a); }
  }

  lemma BoundedStep(s: Sys, e: Event, at: Place)
    requires Eager(s) && Occurs(s, e) && Bounded(s, at)
    requires e.PutStart? ==> Stamped(s, e.it)
    requires e.Protocol? && e.a.Deliver? ==> Stamped(s, e.a.it)
    requires e.Redeliver? ==> Stamped(s, e.it)
    ensures Bounded(Next(s, e), at)
  {
    if e.PutStart? && At(e.it) == at {
      BoundedPutStart(s, e.it, e.now);
    } else if e.Delete? && (e.w, e.key) == at {
      BoundedDelete(s, e.w, e.key, e.now);
    } else {
      HistoryElsewhere(s, e, at);
      CellsElsewhere(s, e, at);
      LastKept(s, e, at);
      BoundedKept(s, Next(s, e), at);
    }
  }

  lemma LastKept(s: Sys, e: Event, at: Place)
    requires Eager(s) && Occurs(s, e) && (e.PutStart? ==> Stamped(s, e.it))
    requires (at in Next(s, e).latest <==> at in s.latest) && (at in s.latest ==> Next(s, e).latest[at] == s.latest[at])
    ensures (exists it :: IsLast(s, at, it)) ==> exists it :: IsLast(Next(s, e), at, it)
  {
    if exists it :: IsLast(s, at, it) { LastStays(s, e, at); }
  }

  lemma BoundedPutStart(s: Sys, it: Item, now: int)
    requires Eager(s) && Occurs(s, PutStart(it, now)) && Bounded(s, At(it))
    ensures Bounded(Next(s, PutStart(it, now)), At(it))
  {
    var n, ts := Next(s, PutStart(it, now)), NextStamp(s.clock[it.writer], now);
    assert it in n.p.accepted;
    BoundedAccept(s, n, it, ts);
  }

  lemma BoundedAccept(s: Sys, n: Sys, it: Item, ts: int)
    requires it.writer in s.clock && ts >= NextStamp(s.clock[it.writer], s.floor)
    requires it in n.p.accepted && n.cells == s.cells && n.floor == s.floor
    requires n.stamp == s.stamp[it := ts] && n.clock == s.clock[it.writer := ts]
    requires n.latest == s.latest[At(it) := Cell(ts, Some(it.value))] && n.logical == s.logical[At(it) := it.value]
    requires Bounded(s, At(it))
    ensures Bounded(n, At(it))
  {
    assert IsLast(n, At(it), it);
  }

  lemma BoundedDelete(s: Sys, w: nat, k: Key, now: int)
    requires Occurs(s, Delete(w, k, now)) && Bounded(s, (w, k))
    ensures Bounded(Next(s, Delete(w, k, now)), (w, k))
  {}

  lemma BoundedKept(s: Sys, n: Sys, at: Place)
    requires Bounded(s, at) && CellKept(s, n, at)
    requires (at in n.latest <==> at in s.latest) && (at in n.latest ==> n.latest[at] == s.latest[at])
    requires Find(n.logical, at) == Find(s.logical, at) && Read(n.latest, at) == Read(s.latest, at)
    requires n.floor == s.floor && (at.0 in s.clock ==> at.0 in n.clock && n.clock[at.0] >= s.clock[at.0])
    requires (exists it :: IsLast(s, at, it)) ==> exists it :: IsLast(n, at, it)
    ensures Bounded(n, at)
  {}

  lemma HistoryElsewhere(s: Sys, e: Event, at: Place)
    requires Wired(s) && Occurs(s, e)
    requires !(e.PutStart? && At(e.it) == at) && !(e.Delete? && (e.w, e.key) == at)
    ensures var n := Next(s, e);
            && (at in n.latest <==> at in s.latest) && (at in n.latest ==> n.latest[at] == s.latest[at])
            && Find(n.logical, at) == Find(s.logical, at) && Read(n.latest, at) == Read(s.latest, at)
            && n.floor == s.floor && (at.0 in s.clock ==> at.0 in n.clock && n.clock[at.0] >= s.clock[at.0])
  {}

  /** The store at a key changes only by a delivery of a write to that key. */
  ghost predicate CellKept(s: Sys, n: Sys, at: Place) {
    || ((at in n.cells <==> at in s.cells) && (at in n.cells ==> n.cells[at] == s.cells[at]))
    || (at in n.cells && at in s.latest && n.cells[at].ts <= s.latest[at].ts
        && (n.cells[at].ts == s.latest[at].ts ==> n.cells[at] == s.latest[at])
        && (at in s.cells ==> n.cells[at].ts >= s.cells[at].ts))
  }

  lemma CellsElsewhere(s: Sys, e: Event, at: Place)
    requires Wired(s) && Occurs(s, e) && Bounded(s, at)
    requires !(e.PutStart? && At(e.it) == at) && !(e.Delete? && (e.w, e.key) == at)
    requires e.Protocol? && e.a.Deliver? ==> Stamped(s, e.a.it)
    requires e.Redeliver? ==> Stamped(s, e.it)
    ensures CellKept(s, Next(s, e), at)
  {
    if e.Protocol? {
      if e.a.Deliver? { assert Next(s, e).cells == Put(s.cells, At(e.a.it),
                                    Cell(s.stamp[e.a.it], Some(e.a.it.value))); }
    }
  }

  // ----------------------------------------------------------------- reading

  /** With the writer completed, the store holds the plain map. */
  lemma ReadCorrect(s: Sys, w: nat, k: Key)
    requires SysInv(s) && w in s.p.user && Completed(s.p, w)
    ensures Read(s.cells, (w, k)) == Find(s.logical, (w, k))
  {
    var at := (w, k);
    assert Bounded(s, at);
    if exists it :: IsLast(s, at, it) {
      var it :| IsLast(s, at, it);
      LastApplied(s, at, it);
    }
  }

  /** A completed writer's last write to a key has reached the store. */
  lemma LastApplied(s: Sys, at: Place, it: Item)
    requires SysInv(s) && at.0 in s.p.user && Completed(s.p, at.0) && IsLast(s, at, it)
    ensures at in s.cells && s.cells[at].ts >= s.latest[at].ts
  {
    CompletedIff(s.p, at.0);
    assert TracedItem(s.p, it) && Stamped(s, it);
  }

  /** What add leaves in a cache. */
  lemma AddedEntries(c: L.Entries<Key, Value>, k: Key, v: Value, max: nat)
    requires Distinct(L.Keys(c)) && max >= 1
    ensures Distinct(L.Keys(L.Added(c, k, v, max)))
    ensures forall e :: e in L.Added(c, k, v, max) ==> e == (k, v) || (e in c && e.0 != k)
  {
    var d := L.Added(c, k, v, max);
    L.DropKeys(c, k);
    L.RemoveFacts(L.Keys(c), k);
    AddedDistinct(c, k, v, max);
    forall e | e in d ensures e == (k, v) || (e in c && e.0 != k) {
      L.EntryStep(c, L.Add(k, v), max, e);
      if e.0 == k { L.OnlyEntry(d, e); }
    }
  }

  lemma AddedDistinct(c: L.Entries<Key, Value>, k: Key, v: Value, max: nat)
    requires Distinct(L.Keys(c)) && max >= 1
    ensures Distinct(L.Keys(L.Added(c, k, v, max)))
  {
    L.DropKeys(c, k);
    if L.Lookup(c, k).Some? {
      L.RemoveFacts(L.Keys(c), k);
      FrontDistinct(k, v, L.Drop(c, k));
    } else {
      FrontDistinct(k, v, c);
      if |c| > 0 {
        assert L.Keys(c[..|c| - 1]) == L.Keys(c)[..|c| - 1];
        FrontDistinct(k, v, c[..|c| - 1]);
      }
    }
  }

  lemma FrontDistinct(k: Key, v: Value, c: L.Entries<Key, Value>)
    requires Distinct(L.Keys(c)) && k !in L.Keys(c)
    ensures Distinct(L.Keys([(k, v)] + c))
  {
    L.FrontDistinct(k, L.Keys(c));
    assert L.Keys([(k, v)] + c) == [k] + L.Keys(c);
  }

  lemma DroppedEntries(c: L.Entries<Key, Value>, k: Key)
    requires Distinct(L.Keys(c))
    ensures Distinct(L.Keys(L.Drop(c, k)))
    ensures forall e :: e in L.Drop(c, k) ==> e in c && e.0 != k
  {
    L.DropKeys(c, k);
    L.RemoveFacts(L.Keys(c), k);
    forall e | e in L.Drop(c, k) ensures e.0 != k {
      var i :| 0 <= i < |L.Drop(c, k)| && L.Drop(c, k)[i] == e;
      assert L.Keys(L.Drop(c, k))[i] == e.0;
    }
  }

  lemma TouchedEntries(c: L.Entries<Key, Value>, k: Key)
    requires Distinct(L.Keys(c))
    ensures Distinct(L.Keys(L.Touched(c, k)))
    ensures forall e :: e in L.Touched(c, k) ==> e in c
  {
    L.DropKeys(c, k);
    L.RemoveFacts(L.Keys(c), k);
    DroppedEntries(c, k);
    if L.Lookup(c, k).Some? {
      assert L.Keys(L.Touched(c, k)) == [k] + L.Keys(L.Drop(c, k));
    }
  }

  lemma FreshStep(s: Sys, e: Event, w: nat)
    requires SysInv(s) && Occurs(s, e)
    ensures Fresh(Next(s, e), w)
  {
    assert Fresh(s, w) && Serial(s, w);
    if e.PutDone? && e.w == w {
      FreshPutDone(s, w);
    } else if e.GetRead? && e.w == w {
      FreshGetRead(s, w, e.key, e.result);
    } else if e.DeleteDone? && e.w == w {
      FreshDeleteDone(s, w);
    } else if e.GetHit? && e.w == w {
      TouchedEntries(s.cache[w], e.key);
    } else {
      FreshElsewhere(s, e, w);
    }
  }

  lemma FreshDeleteDone(s: Sys, w: nat)
    requires Wired(s) && Fresh(s, w) && Occurs(s, DeleteDone(w))
    ensures Fresh(Next(s, DeleteDone(w)), w)
  {
    if w in s.cache { DroppedEntries(s.cache[w], s.client[w].key); }
  }

  lemma FreshElsewhere(s: Sys, e: Event, w: nat)
    requires Wired(s) && Fresh(s, w) && Occurs(s, e)
    requires (e.PutDone? || e.GetRead? || e.DeleteDone? || e.GetHit?) ==> e.w != w
    ensures Fresh(Next(s, e), w)
  {
    if e.Protocol? || e.Redeliver? || e.GetMiss? || e.GetReady? {
      FreshQuiet(s, e, w);
    }
  }

  /** Events that touch neither caches nor the plain map. */
  lemma FreshQuiet(s: Sys, e: Event, w: nat)
    requires Fresh(s, w) && Occurs(s, e) && (e.Protocol? || e.Redeliver? || e.GetMiss? || e.GetReady?)
    ensures Fresh(Next(s, e), w)
  {
    var n := Next(s, e);
    assert n.cache == s.cache && n.logical == s.logical;
  }

  lemma FreshPutDone(s: Sys, w: nat)
    requires Eager(s) && Serial(s, w) && Fresh(s, w) && Occurs(s, PutDone(w))
    ensures Fresh(Next(s, PutDone(w)), w)
  {
    if w in s.cache { FreshAdded(s, Next(s, PutDone(w)), w, s.client[w].it); }
  }

  lemma FreshAdded(s: Sys, n: Sys, w: nat, it: Item)
    requires w in s.cache && w in s.cacheMax && s.cacheMax[w] >= 1 && w in s.client && s.client[w] == Putting(it)
    requires Fresh(s, w) && w in n.client && n.client[w] == NoCall && n.logical == s.logical
    requires w in n.cache && n.cache[w] == L.Added(s.cache[w], it.key, it.value, s.cacheMax[w])
    requires Find(s.logical, (w, it.key)) == Some(it.value)
    ensures Fresh(n, w)
  {
    AddedEntries(s.cache[w], it.key, it.value, s.cacheMax[w]);
  }

  lemma FreshGetRead(s: Sys, w: nat, k: Key, result: Option<Value>)
    requires SysInv(s) && Occurs(s, GetRead(w, k, result))
    ensures Fresh(Next(s, GetRead(w, k, result)), w)
  {
    assert Fresh(s, w) && Serial(s, w);
    ReadCorrect(s, w, k);
    if w in s.cache && result.Some? {
      AddedEntries(s.cache[w], k, result.value, s.cacheMax[w]);
    }
  }

  lemma SysInvStep(s: Sys, e: Event)
    requires SysInv(s) && Occurs(s, e)
    ensures SysInv(Next(s, e))
  {
    EagerStep(s, e);
    forall w ensures Serial(Next(s, e), w) { assert Serial(s, w); SerialStep(s, e, w); }
    forall it: Item ensures Stamped(Next(s, e), it) {
      assert Stamped(s, it) && Bounded(s, At(it));
      StampedStep(s, e, it);
    }
    forall at: Place ensures Bounded(Next(s, e), at) {
      assert Bounded(s, at);
      BoundedStep(s, e, at);
    }
    forall w ensures Fresh(Next(s, e), w) { FreshStep(s, e, w); }
  }

  // ------------------------------------------------------------------- runs

  ghost predicate IsSysRun(ss: seq<Sys>, es: seq<Event>) {
    |ss| == |es| + 1
    && forall i :: 0 <= i < |es| ==> Occurs(ss[i], es[i]) && ss[i + 1] == Next(ss[i], es[i])
  }

  lemma {:induction false} SysRunInv(ss: seq<Sys>, es: seq<Event>, i: nat)
    requires IsSysRun(ss, es) && Start(ss[0]) && Aged(ss[0]) && i < |ss|
    ensures SysInv(ss[i])
  {
    if i == 0 {
      StartInv(ss[0]);
    } else {
      SysRunInv(ss, es, i - 1);
      SysInvStep(ss[i - 1], es[i - 1]);
    }
  }

  /** The plain map `base` after the puts and deletes among some events. */
  ghost function Plain(base: map<Place, Value>, es: seq<Event>): map<Place, Value> {
    if es == [] then base
    else
      var m := Plain(base, es[..|es| - 1]);
      match es[|es| - 1]
      case PutStart(it, _) => m[At(it) := it.value]
      case Delete(w, k, _) => m - {(w, k)}
      case _ => m
  }

  lemma {:induction false} LogicalIsPlain(ss: seq<Sys>, es: seq<Event>, i: nat)
    requires IsSysRun(ss, es) && Start(ss[0]) && i < |ss|
    ensures ss[i].logical == Plain(Values(ss[0].cells), es[..i])
  {
    if i == 0 {
    } else {
      LogicalIsPlain(ss, es, i - 1);
      assert es[..i][..|es[..i]| - 1] == es[..i - 1];
      LogicalStep(ss[i - 1], es[i - 1]);
    }
  }

  lemma LogicalStep(s: Sys, e: Event)
    requires Occurs(s, e)
    ensures Next(s, e).logical == match e
                                  case PutStart(it, _) => s.logical[At(it) := it.value]
                                  case Delete(w, k, _) => s.logical - {(w, k)}
                                  case _ => s.logical
  {}

  /** A get that returns gives what the plain map holds. */
  ghost predicate Current(base: map<Place, Value>, es: seq<Event>, i: nat)
    requires i < |es|
  {
    es[i].GetHit? || es[i].GetRead? ==> es[i].result == Find(Plain(base, es[..i]), (es[i].w, es[i].key))
  }

  /** The cached, asynchronous table refines a plain map: in every run over rows that are
      older than the timestamps given, whatever the cache sizes and the order of applies,
      callbacks, retries and late deliveries, each get_crow that returns gives what the
      puts and deletes issued so far leave of the stored rows in a plain map. */
  lemma GetsAreCurrent(ss: seq<Sys>, es: seq<Event>, i: nat)
    requires IsSysRun(ss, es) && Start(ss[0]) && Aged(ss[0]) && i < |es|
    ensures Current(Values(ss[0].cells), es, i)
  {
    SysRunInv(ss, es, i);
    LogicalIsPlain(ss, es, i);
    var s, e := ss[i], es[i];
    assert Occurs(s, e);
    if e.GetHit? {
      HitCorrect(s, e);
    } else if e.GetRead? {
      assert Serial(s, e.w);
      ReadCorrect(s, e.w, e.key);
    }
  }

  lemma HitCorrect(s: Sys, e: Event)
    requires SysInv(s) && Occurs(s, e) && e.GetHit?
    ensures e.result == Find(s.logical, (e.w, e.key))
  {
    L.DropKeys(s.cache[e.w], e.key);
    assert Fresh(s, e.w) && Serial(s, e.w);
  }

  /** A table that no call holds takes a delete of any key, and answers a get of it at once:
      from the cache exactly when the key is there, and otherwise by asking the store. */
  lemma GetAnswers(s: Sys, w: nat, k: Key)
    requires w in s.client && s.client[w] == NoCall && Wired(s)
    ensures forall now :: now >= s.floor ==> Occurs(s, Delete(w, k, now))
    ensures Occurs(s, GetMiss(w, k)) <==> !(w in s.cache && k in L.Keys(s.cache[w]))
    ensures (exists result :: Occurs(s, GetHit(w, k, result))) <==> w in s.cache && k in L.Keys(s.cache[w])
  {
    if w in s.cache {
      L.DropKeys(s.cache[w], k);
      if L.Lookup(s.cache[w], k).Some? { assert Occurs(s, GetHit(w, k, L.Lookup(s.cache[w], k))); }
    }
  }

  /** A call under way can go on, unless a put waits for its user thread or a get for the
      writes of the table. */
  lemma CallGoesOn(s: Sys, w: nat) returns (e: Event)
    requires SysInv(s) && w in s.client && s.client[w] != NoCall
    requires s.client[w].Putting? ==> s.p.user[w] == Idle
    requires s.client[w].Getting? ==> forall it :: it in s.p.accepted && it.writer == w ==> it in s.p.acked
    ensures Occurs(s, e) && w in Next(s, e).client && Next(s, e).client[w] != s.client[w]
  {
    match s.client[w]
    case Putting(_) => e := PutDone(w);
    case Deleting(_) => e := DeleteDone(w);
    case Getting(_) =>
      CompletedIff(s.p, w);
      e := GetReady(w);
    case Reading(k) => e := GetRead(w, k, Read(s.cells, (w, k)));
  }

  // ------------------------------------------------------------- cache contents

  /** The write that the last put_crow of table `w` made. */
  function LastPut(es: seq<Event>, w: nat): Option<Item> {
    if es == [] then None
    else
      var e := es[|es| - 1];
      if e.PutStart? && e.it.writer == w then Some(e.it) else LastPut(es[..|es| - 1], w)
  }

  /** What an event means for the cache of table `w`: a put adds its value, a hit is a
      get, a read that found a value adds it. */
  function CacheOp(es: seq<Event>, e: Event, w: nat): Option<L.Op<Key, Value>> {
    match e
    case PutDone(v) =>
      var put := LastPut(es, w);
      if v == w && put.Some? then Some(L.Add(put.value.key, put.value.value)) else None
    case GetHit(v, k, _) => if v == w then Some(L.Get(k)) else None
    case GetRead(v, k, result) => if v == w && result.Some? then Some(L.Add(k, result.value)) else None
    case _ => None
  }

  function CacheOps(es: seq<Event>, w: nat): seq<L.Op<Key, Value>> {
    if es == [] then []
    else
      var front, e := es[..|es| - 1], es[|es| - 1];
      var op := CacheOp(front, e, w);
      CacheOps(front, w) + if op.Some? then [op.value] else []
  }

  /** The put under way is the last one issued. */
  ghost predicate Remembers(s: Sys, es: seq<Event>, w: nat) {
    w in s.client && s.client[w].Putting? ==> LastPut(es, w) == Some(s.client[w].it)
  }

  lemma RemembersStep(s: Sys, es: seq<Event>, e: Event, w: nat)
    requires Occurs(s, e) && Remembers(s, es, w)
    ensures Remembers(Next(s, e), es + [e], w)
  {
    assert (es + [e])[..|es|] == es;
  }

  lemma CacheEvent(s: Sys, es: seq<Event>, e: Event, w: nat)
    requires Occurs(s, e) && Remembers(s, es, w) && w in s.cache && w in s.cacheMax && e != DeleteDone(w)
    ensures var n, op := Next(s, e), CacheOp(es, e, w);
            w in n.cache && n.cacheMax == s.cacheMax
            && n.cache[w] == if op.Some? then L.Step(s.cache[w], op.value, s.cacheMax[w]) else s.cache[w]
  {}

  lemma CacheOpsSnoc(es: seq<Event>, e: Event, w: nat, max: nat)
    ensures var op := CacheOp(es, e, w);
            L.After(CacheOps(es + [e], w), max)
            == if op.Some? then L.Step(L.After(CacheOps(es, w), max), op.value, max) else L.After(CacheOps(es, w), max)
  {
    assert (es + [e])[..|es|] == es;
    var before, op := CacheOps(es, w), CacheOp(es, e, w);
    if op.Some? {
      assert (before + [op.value])[..|before|] == before;
    } else {
      assert before + [] == before;
    }
  }

  lemma OneMore(es: seq<Event>, i: nat)
    requires i < |es|
    ensures es[..i + 1] == es[..i] + [es[i]]
  {}

  /** In every run without deletes the cache of a table is the LRU cache after its puts,
      hits and reads, for which KVCache says which entries it holds. */
  lemma {:induction false} CacheIsLru(ss: seq<Sys>, es: seq<Event>, i: nat, w: nat)
    requires IsSysRun(ss, es) && Start(ss[0]) && i < |ss| && w in ss[0].cache
    requires forall j :: 0 <= j < i ==> es[j] != DeleteDone(w)
    ensures Remembers(ss[i], es[..i], w) && ss[i].cacheMax == ss[0].cacheMax
    ensures w in ss[i].cache && ss[i].cache[w] == L.After(CacheOps(es[..i], w), ss[0].cacheMax[w])
  {
    if i == 0 {
    } else {
      CacheIsLru(ss, es, i - 1, w);
      OneMore(es, i - 1);
      RemembersStep(ss[i - 1], es[..i - 1], es[i - 1], w);
      CacheEvent(ss[i - 1], es[..i - 1], es[i - 1], w);
      CacheOpsSnoc(es[..i - 1], es[i - 1], w, ss[0].cacheMax[w]);
    }
  }
}
