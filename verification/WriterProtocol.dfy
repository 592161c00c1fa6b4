/** The asynchronous write path as a step relation: user threads that queue
    writes, the worker thread that sends them, and the driver's callbacks. */
module WriterProtocol {

  type Key = int
  type Value = int

  /** One write request.  `id` tells apart requests with equal contents. */
  datatype Item = Item(writer: nat, id: nat, key: Key, value: Value)

  const MAX_ERRORS: nat := 10

  /** Where the user thread of a Writer stands. */
  datatype UserPc =
    | Idle
    | Counted(it: Item, flushing: bool)   // Writer::ncallbacks incremented, push pending
    | Pushed(flushing: bool)              // in the queue, semaphore not yet released
    | Flushing                            // inside flush_dirty_blocks

  /** Where the worker thread stands. */
  datatype WorkerPc =
    | Waiting           // about to acquire sempending_data
    | Awake             // acquired
    | Counting          // WriterThread::ncallbacks incremented, about to try_pop
    | Popped(it: Item)  // about to acquire semmaxcallbacks
    | Slotted(it: Item) // about to hand the request to the driver

  /** Where the callback of a request stands; its slot has been released. */
  datatype CallbackPc =
    | OkThread   // about to decrement WriterThread::ncallbacks
    | OkWriter   // about to decrement Writer::ncallbacks
    | Failed     // about to increment error_count
    | RetryWait  // about to acquire a slot again
    | RetrySlotted
    | Aborting   // about to decrement WriterThread::ncallbacks and throw

  datatype State = State(
    capacity: nat,                     // of the queue
    par: nat,                          // writer_par
    user: map<nat, UserPc>,
    writerCount: map<nat, int>,        // Writer::ncallbacks
    lazyOn: set<nat>,                  // writers with lazy_write_enabled
    dirty: map<(nat, Key), Item>,      // dirty_blocks of all writers
    queue: seq<Item>,
    pending: int,                      // sempending_data
    slots: int,                        // semmaxcallbacks
    worker: WorkerPc,
    threadCount: int,                  // WriterThread::ncallbacks
    errors: nat,                       // error_count
    flight: map<Item, bool>,           // requests in the driver; true once applied
    callbacks: map<Item, CallbackPc>,
    accepted: set<Item>,
    superseded: set<Item>,
    acked: set<Item>,
    aborted: set<Item>,
    pushed: seq<Item>,                 // history: everything ever pushed
    applied: seq<Item>)                // history: requests applied by the store

  datatype Action =
    // calls of the user
    | Accept(it: Item)                 // queue_async_query of an eager write: count
    | AcceptLazy(it: Item)             // write_to_cassandra into dirty_blocks
    | EnableLazy(w: nat)
    | StartFlush(w: nat)
    | DisableLazy(w: nat)              // once the flush is over
    // steps of the protocol
    | FlushNext(it: Item)              // queue_async_query of a dirty block: count
    | EndFlush(w: nat)
    | Push(w: nat)
    | Release(w: nat)
    | Wake
    | Count
    | Pop
    | PopEmpty
    | Slot
    | Send
    | Deliver(it: Item)                // the store applies the request
    | Succeed(it: Item)                // callback entered, slot released, CASS_OK
    | Fail(it: Item)                   // callback entered, slot released, error
    | OkThreadDone(it: Item)
    | OkWriterDone(it: Item)
    | CountError(it: Item)             // retry or abort
    | RetrySlot(it: Item)
    | RetrySend(it: Item)
    | AbortDone(it: Item)

  predicate IsCall(a: Action) {
    a.Accept? || a.AcceptLazy? || a.EnableLazy? || a.StartFlush? || a.DisableLazy?
  }

  predicate HasDirty(s: State, w: nat) {
    exists p :: p in s.dirty && p.0 == w
  }

  predicate Enabled(s: State, a: Action) {
    match a
    case Accept(it) => it.writer in s.user && s.user[it.writer] == Idle && it.writer !in s.lazyOn && it !in s.accepted
    case AcceptLazy(it) => it.writer in s.user && s.user[it.writer] == Idle && it.writer in s.lazyOn
        && it !in s.accepted
    case EnableLazy(w) => w in s.user && s.user[w] == Idle
    case StartFlush(w) => w in s.user && s.user[w] == Idle && w in s.lazyOn
    case DisableLazy(w) => w in s.user && s.user[w] == Idle && !HasDirty(s, w)
    case FlushNext(it) => it.writer in s.user && s.user[it.writer] == Flushing
                          && (it.writer, it.key) in s.dirty && s.dirty[(it.writer, it.key)] == it
    case EndFlush(w) => w in s.user && s.user[w] == Flushing && !HasDirty(s, w)
    case Push(w) => w in s.user && s.user[w].Counted? && |s.queue| < s.capacity
    case Release(w) => w in s.user && s.user[w].Pushed?
    case Wake => s.worker == Waiting && s.pending > 0
    case Count => s.worker == Awake
    case Pop => s.worker == Counting && s.queue != []
    case PopEmpty => s.worker == Counting && s.queue == []
    case Slot => s.worker.Popped? && s.slots > 0
    case Send => s.worker.Slotted? && s.worker.it !in s.flight
    case Deliver(it) => it in s.flight && !s.flight[it]
    case Succeed(it) => it in s.flight && s.flight[it]
    case Fail(it) => it in s.flight
    case OkThreadDone(it) => it in s.callbacks && s.callbacks[it] == OkThread
    case OkWriterDone(it) => it in s.callbacks && s.callbacks[it] == OkWriter && it.writer in s.writerCount
    case CountError(it) => it in s.callbacks && s.callbacks[it] == Failed
    case RetrySlot(it) => it in s.callbacks && s.callbacks[it] == RetryWait && s.slots > 0
    case RetrySend(it) => it in s.callbacks && s.callbacks[it] == RetrySlotted && it !in s.flight
    case AbortDone(it) => it in s.callbacks && s.callbacks[it] == Aborting
  }

  function Bump(m: map<nat, int>, w: nat, d: int): map<nat, int> {
    if w in m then m[w := m[w] + d] else m
  }

  function Without<K, V>(m: map<K, V>, k: K): map<K, V> {
    map x | x in m && x != k :: m[x]
  }

  function Apply(s: State, a: Action): State
    requires Enabled(s, a)
  {
    match a
    case Accept(it) =>
      s.(accepted := s.accepted + {it}, writerCount := Bump(s.writerCount, it.writer, 1),
         user := s.user[it.writer := Counted(it, false)])
    case AcceptLazy(it) =>
      var p := (it.writer, it.key);
      s.(accepted := s.accepted + {it}, dirty := s.dirty[p := it],
         superseded := if p in s.dirty then s.superseded + {s.dirty[p]} else s.superseded)
    case EnableLazy(w) => s.(lazyOn := s.lazyOn + {w})
    case StartFlush(w) => s.(user := s.user[w := Flushing])
    case DisableLazy(w) => s.(lazyOn := s.lazyOn - {w})
    case FlushNext(it) =>
      s.(dirty := Without(s.dirty, (it.writer, it.key)), writerCount := Bump(s.writerCount, it.writer, 1),
         user := s.user[it.writer := Counted(it, true)])
    case EndFlush(w) => s.(user := s.user[w := Idle])
    case Push(w) =>
      s.(queue := s.queue + [s.user[w].it], pushed := s.pushed + [s.user[w].it],
         user := s.user[w := Pushed(s.user[w].flushing)])
    case Release(w) =>
      s.(pending := s.pending + 1, user := s.user[w := if s.user[w].flushing then Flushing else Idle])
    case Wake => s.(pending := s.pending - 1, worker := Awake)
    case Count => s.(threadCount := s.threadCount + 1, worker := Counting)
    case Pop => s.(queue := s.queue[1..], worker := Popped(s.queue[0]))
    case PopEmpty => s.(threadCount := s.threadCount - 1, worker := Waiting)
    case Slot => s.(slots := s.slots - 1, worker := Slotted(s.worker.it))
    case Send => s.(flight := s.flight[s.worker.it := false], worker := Waiting)
    case Deliver(it) => s.(flight := s.flight[it := true], applied := s.applied + [it])
    case Succeed(it) =>
      s.(slots := s.slots + 1, flight := Without(s.flight, it), callbacks := s.callbacks[it := OkThread])
    case Fail(it) =>
      s.(slots := s.slots + 1, flight := Without(s.flight, it), callbacks := s.callbacks[it := Failed])
    case OkThreadDone(it) =>
      s.(threadCount := s.threadCount - 1, callbacks := s.callbacks[it := OkWriter])
    case OkWriterDone(it) =>
      s.(writerCount := Bump(s.writerCount, it.writer, -1), callbacks := Without(s.callbacks, it), acked := s.acked
          + {it})
    case CountError(it) =>
      s.(errors := s.errors + 1,
         callbacks := s.callbacks[it := if s.errors + 1 > MAX_ERRORS then Aborting else RetryWait])
    case RetrySlot(it) => s.(slots := s.slots - 1, callbacks := s.callbacks[it := RetrySlotted])
    case RetrySend(it) => s.(callbacks := Without(s.callbacks, it), flight := s.flight[it := false])
    case AbortDone(it) =>
      s.(threadCount := s.threadCount - 1, callbacks := Without(s.callbacks, it), aborted := s.aborted + {it})
  }

  ghost predicate Init(s: State) {
    && s.capacity >= 1 && s.par >= 1 && s.slots == s.par && s.pending == 0
    && s.user.Keys == s.writerCount.Keys
    && (forall w :: w in s.user ==> s.user[w] == Idle && s.writerCount[w] == 0)
    && s.lazyOn == {} && s.dirty == map[] && s.queue == [] && s.worker == Waiting && s.threadCount == 0
    && s.errors == 0 && s.flight == map[] && s.callbacks == map[]
    && s.accepted == {} && s.superseded == {} && s.acked == {} && s.aborted == {}
    && s.pushed == [] && s.applied == []
  }

  // ----------------------------------------------------------- conservation

  function One(b: bool): nat { if b then 1 else 0 }

  predicate InDirty(s: State, it: Item) {
    (it.writer, it.key) in s.dirty && s.dirty[(it.writer, it.key)] == it
  }

  predicate InUser(s: State, it: Item) {
    it.writer in s.user && s.user[it.writer].Counted? && s.user[it.writer].it == it
  }

  predicate InHand(s: State, it: Item) {
    (s.worker.Popped? || s.worker.Slotted?) && s.worker.it == it
  }

  /** How many places hold `it`. */
  function Places(s: State, it: Item): nat {
    One(InDirty(s, it)) + One(it in s.superseded) + One(InUser(s, it)) + multiset(s.queue)[it] + One(InHand(s, it))
    + One(it in s.flight) + One(it in s.callbacks) + One(it in s.acked) + One(it in s.aborted)
  }

  /** Entries sit under their own writer and key. */
  ghost predicate Tidy(s: State) {
    && s.user.Keys == s.writerCount.Keys
    && (forall w :: w in s.user && s.user[w].Counted? ==> s.user[w].it.writer == w)
    && (forall p :: p in s.dirty ==> p.0 in s.user && s.dirty[p].writer == p.0 && s.dirty[p].key == p.1)
    && (forall it :: it in s.accepted ==> it.writer in s.user)
  }

  /** Every accepted write is in exactly one place, and nothing else is anywhere. */
  ghost predicate Conserved(s: State) {
    forall it: Item :: Places(s, it) == One(it in s.accepted)
  }

  lemma QueueEnds(q: seq<Item>, x: Item, it: Item)
    ensures multiset(q + [x])[it] == multiset(q)[it] + One(x == it)
    ensures q != [] ==> multiset(q)[it] == multiset(q[1..])[it] + One(q[0] == it)
  {
    if q != [] {
      assert q == [q[0]] + q[1..];
      assert multiset(q) == multiset([q[0]]) + multiset(q[1..]);
    }
  }

  lemma TidyStep(s: State, a: Action)
    requires Tidy(s) && Enabled(s, a)
    ensures Tidy(Apply(s, a))
  {
    if a.Accept? || a.AcceptLazy? || a.FlushNext? {
      TidyWriteStep(s, a);
    }
  }

  lemma TidyWriteStep(s: State, a: Action)
    requires Tidy(s) && Enabled(s, a) && (a.Accept? || a.AcceptLazy? || a.FlushNext?)
    ensures Tidy(Apply(s, a))
  {}

  lemma ConservedStep(s: State, a: Action)
    requires Tidy(s) && Conserved(s) && Enabled(s, a)
    ensures Conserved(Apply(s, a))
  {
    var s' := Apply(s, a);
    forall it: Item ensures Places(s', it) == One(it in s'.accepted) {
      assert Places(s, it) == One(it in s.accepted);
      if a.Push? {
        QueueEnds(s.queue, s.user[a.w].it, it);
      } else if a.Pop? {
        QueueEnds(s.queue, it, it);
      }
      PlacesStep(s, a, it);
    }
  }

  lemma PlacesStep(s: State, a: Action, it: Item)
    requires Tidy(s) && Enabled(s, a)
    requires Places(s, it) == One(it in s.accepted)
    requires a.Push? ==> multiset(Apply(s, a).queue)[it] == multiset(s.queue)[it] + One(s.user[a.w].it == it)
    requires a.Pop? ==> multiset(s.queue)[it] == multiset(Apply(s, a).queue)[it] + One(s.queue[0] == it)
    ensures Places(Apply(s, a), it) == One(it in Apply(s, a).accepted)
  {
    if IsCall(a) || a.FlushNext? || a.EndFlush? || a.Push? || a.Release? {
      PlacesUserStep(s, a, it);
    } else if a.Wake? || a.Count? || a.Pop? || a.PopEmpty? || a.Slot? || a.Send? {
      PlacesWorkerStep(s, a, it);
    } else if IsFlightStep(a) {
      PlacesFlightStep(s, a, it);
    } else {
      PlacesCallbackStep(s, a, it);
    }
  }

  lemma PlacesUserStep(s: State, a: Action, it: Item)
    requires Tidy(s) && Enabled(s, a)
    requires IsCall(a) || a.FlushNext? || a.EndFlush? || a.Push? || a.Release?
    requires Places(s, it) == One(it in s.accepted)
    requires a.Push? ==> multiset(Apply(s, a).queue)[it] == multiset(s.queue)[it] + One(s.user[a.w].it == it)
    ensures Places(Apply(s, a), it) == One(it in Apply(s, a).accepted)
  {
    if a.Accept? || a.AcceptLazy? || a.FlushNext? {
      PlacesWriteStep(s, a, it);
    }
  }

  lemma PlacesWriteStep(s: State, a: Action, it: Item)
    requires Tidy(s) && Enabled(s, a) && (a.Accept? || a.AcceptLazy? || a.FlushNext?)
    requires Places(s, it) == One(it in s.accepted)
    ensures Places(Apply(s, a), it) == One(it in Apply(s, a).accepted)
  {}

  lemma PlacesWorkerStep(s: State, a: Action, it: Item)
    requires Enabled(s, a)
    requires a.Wake? || a.Count? || a.Pop? || a.PopEmpty? || a.Slot? || a.Send?
    requires Places(s, it) == One(it in s.accepted)
    requires a.Pop? ==> multiset(s.queue)[it] == multiset(Apply(s, a).queue)[it] + One(s.queue[0] == it)
    ensures Places(Apply(s, a), it) == One(it in Apply(s, a).accepted)
  {}

  predicate IsFlightStep(a: Action) {
    a.Deliver? || a.Succeed? || a.Fail? || a.RetrySend?
  }

  predicate IsCallbackStep(a: Action) {
    a.OkThreadDone? || a.OkWriterDone? || a.CountError? || a.RetrySlot? || a.AbortDone?
  }

  lemma PlacesFlightStep(s: State, a: Action, it: Item)
    requires Enabled(s, a) && IsFlightStep(a)
    requires Places(s, it) == One(it in s.accepted)
    ensures Places(Apply(s, a), it) == One(it in Apply(s, a).accepted)
  {}

  lemma PlacesCallbackStep(s: State, a: Action, it: Item)
    requires Enabled(s, a) && IsCallbackStep(a)
    requires Places(s, it) == One(it in s.accepted)
    ensures Places(Apply(s, a), it) == One(it in Apply(s, a).accepted)
  {
    if a.OkWriterDone? || a.AbortDone? {
      PlacesEndStep(s, a, it);
    }
  }

  lemma PlacesEndStep(s: State, a: Action, it: Item)
    requires Enabled(s, a) && (a.OkWriterDone? || a.AbortDone?)
    requires Places(s, it) == One(it in s.accepted)
    ensures Places(Apply(s, a), it) == One(it in Apply(s, a).accepted)
  {}

  // --------------------------------------------------------------- counters

  /** Requests counted by Writer `w`: accepted, and neither waiting in
      dirty_blocks, nor replaced there, nor acknowledged. */
  ghost function Outstanding(s: State, w: nat): set<Item> {
    set it | it in s.accepted && it.writer == w && !InDirty(s, it) && it !in s.superseded && it !in s.acked
  }

  ghost predicate WriterCounts(s: State) {
    forall w :: w in s.writerCount ==> s.writerCount[w] == |Outstanding(s, w)|
  }

  /** Requests counted by WriterThread. */
  ghost predicate InThread(s: State, it: Item) {
    InHand(s, it) || it in s.flight || (it in s.callbacks && s.callbacks[it] != OkWriter)
  }

  ghost function ThreadItems(s: State): set<Item> {
    set it | it in s.accepted && InThread(s, it)
  }

  ghost predicate ThreadCounts(s: State) {
    s.threadCount == |ThreadItems(s)| + One(s.worker == Counting)
  }

  /** Requests that hold a slot of semmaxcallbacks. */
  ghost predicate HoldsSlot(s: State, it: Item) {
    (s.worker.Slotted? && s.worker.it == it) || it in s.flight || (it in s.callbacks && s.callbacks[it] == RetrySlotted)
  }

  ghost function SlotItems(s: State): set<Item> {
    set it | it in s.accepted && HoldsSlot(s, it)
  }

  ghost predicate SlotCounts(s: State) {
    s.slots >= 0 && s.slots + |SlotItems(s)| == s.par
  }

  ghost function Unreleased(s: State): set<nat> {
    set w | w in s.user && s.user[w].Pushed?
  }

  /** Every queued request has exactly one signal on its way to the worker. */
  ghost predicate Signalled(s: State) {
    && s.pending >= 0 && |s.queue| <= s.capacity
    && |s.queue| == s.pending + One(s.worker == Awake || s.worker == Counting) + |Unreleased(s)|
  }

  lemma SetPlus<T>(a: set<T>, b: set<T>, x: T)
    requires b == a + {x} && x !in a
    ensures |b| == |a| + 1
  {}

  lemma SetMinus<T>(a: set<T>, b: set<T>, x: T)
    requires b == a - {x} && x in a
    ensures |b| == |a| - 1
  {}

  /** A set that gives up `g` and takes in `t`. */
  lemma SetMoves<T>(a: set<T>, b: set<T>, g: set<T>, t: set<T>)
    requires g <= a && t !! a && b == (a - g) + t
    ensures |b| == |a| - |g| + |t|
  {
    assert a == (a - g) + g;
  }

  predicate IsUserStep(a: Action) {
    IsCall(a) || a.FlushNext? || a.EndFlush? || a.Push? || a.Release?
  }

  predicate IsWorkerStep(a: Action) {
    a.Wake? || a.Count? || a.Pop? || a.PopEmpty? || a.Slot? || a.Send?
  }

  ghost predicate IsOutstanding(s: State, it: Item) {
    it in s.accepted && !InDirty(s, it) && it !in s.superseded && it !in s.acked
  }

  /** How a step changes whether its Writer counts `x`. */
  ghost predicate CountMoves(s: State, a: Action, x: Item)
    requires Enabled(s, a)
  {
    && (IsOutstanding(Apply(s, a), x) <==>
        ((a.Accept? || a.FlushNext?) && a.it == x) || (IsOutstanding(s, x) && !(a.OkWriterDone? && a.it == x)))
    && ((a.Accept? || a.FlushNext?) && a.it == x ==> !IsOutstanding(s, x))
    && (a.OkWriterDone? && a.it == x ==> IsOutstanding(s, x))
  }

  lemma IsOutstandingStep(s: State, a: Action, x: Item)
    requires Tidy(s) && Enabled(s, a) && Places(s, x) == One(x in s.accepted)
    ensures CountMoves(s, a, x)
  {
    if IsUserStep(a) {
      IsOutstandingUserStep(s, a, x);
    } else {
      IsOutstandingDriverStep(s, a, x);
    }
  }

  lemma IsOutstandingUserStep(s: State, a: Action, x: Item)
    requires Tidy(s) && Enabled(s, a) && IsUserStep(a) && Places(s, x) == One(x in s.accepted)
    ensures CountMoves(s, a, x)
  {
    if a.Accept? || a.AcceptLazy? || a.FlushNext? {
      IsOutstandingWriteStep(s, a, x);
    }
  }

  lemma IsOutstandingWriteStep(s: State, a: Action, x: Item)
    requires Tidy(s) && Enabled(s, a) && Places(s, x) == One(x in s.accepted)
    requires a.Accept? || a.AcceptLazy? || a.FlushNext?
    ensures CountMoves(s, a, x)
  {}

  lemma IsOutstandingDriverStep(s: State, a: Action, x: Item)
    requires Enabled(s, a) && !IsUserStep(a) && Places(s, x) == One(x in s.accepted)
    ensures CountMoves(s, a, x)
  {}

  /** Requests that Writer `w` starts or stops counting in this step. */
  function Counts(a: Action, w: nat): set<Item> {
    if (a.Accept? || a.FlushNext?) && a.it.writer == w then {a.it} else {}
  }

  function Uncounts(a: Action, w: nat): set<Item> {
    if a.OkWriterDone? && a.it.writer == w then {a.it} else {}
  }

  /** Membership after a step that gives up `g` and takes in `t`. */
  ghost predicate Moved(a: set<Item>, b: set<Item>, g: set<Item>, t: set<Item>, x: Item) {
    && (x in b <==> x in t || (x in a && x !in g))
    && (x in t ==> x !in a)
    && (x in g ==> x in a)
  }

  lemma MovedCount(a: set<Item>, b: set<Item>, g: set<Item>, t: set<Item>)
    requires forall x: Item :: Moved(a, b, g, t, x)
    ensures |b| == |a| - |g| + |t|
  {
    forall x: Item ensures (x in b <==> x in t || (x in a && x !in g)) && (x in t ==> x !in a) && (x in g ==> x in a) {
      assert Moved(a, b, g, t, x);
    }
    SetMoves(a, b, g, t);
  }

  lemma OutstandingMember(s: State, a: Action, w: nat, x: Item)
    requires Tidy(s) && Conserved(s) && Enabled(s, a)
    ensures Moved(Outstanding(s, w), Outstanding(Apply(s, a), w), Uncounts(a, w), Counts(a, w), x)
  {
    assert Places(s, x) == One(x in s.accepted);
    IsOutstandingStep(s, a, x);
    OutstandingMoves(s, Apply(s, a), a, w, x);
  }

  lemma OutstandingMoves(s: State, s': State, a: Action, w: nat, x: Item)
    requires IsOutstanding(s', x) <==>
             ((a.Accept? || a.FlushNext?) && a.it == x) || (IsOutstanding(s, x) && !(a.OkWriterDone? && a.it == x))
    requires (a.Accept? || a.FlushNext?) && a.it == x ==> !IsOutstanding(s, x)
    requires a.OkWriterDone? && a.it == x ==> IsOutstanding(s, x)
    ensures Moved(Outstanding(s, w), Outstanding(s', w), Uncounts(a, w), Counts(a, w), x)
  {
    assert x in Outstanding(s', w) <==> x.writer == w && IsOutstanding(s', x);
    assert x in Outstanding(s, w) <==> x.writer == w && IsOutstanding(s, x);
  }

  lemma OutstandingStep(s: State, a: Action, w: nat)
    requires Tidy(s) && Conserved(s) && Enabled(s, a)
    ensures |Outstanding(Apply(s, a), w)| == |Outstanding(s, w)| - |Uncounts(a, w)| + |Counts(a, w)|
  {
    forall x: Item
      ensures Moved(Outstanding(s, w), Outstanding(Apply(s, a), w), Uncounts(a, w), Counts(a, w), x)
    {
      OutstandingMember(s, a, w, x);
    }
    MovedCount(Outstanding(s, w), Outstanding(Apply(s, a), w), Uncounts(a, w), Counts(a, w));
  }

  lemma WriterCountsStep(s: State, a: Action)
    requires Tidy(s) && Conserved(s) && WriterCounts(s) && Enabled(s, a)
    ensures WriterCounts(Apply(s, a))
  {
    var s' := Apply(s, a);
    forall w | w in s'.writerCount ensures s'.writerCount[w] == |Outstanding(s', w)| {
      OutstandingStep(s, a, w);
    }
  }

  lemma InThreadStep(s: State, a: Action, x: Item)
    requires Enabled(s, a) && Places(s, x) == One(x in s.accepted)
    requires a.Pop? && x == s.queue[0] ==> multiset(s.queue)[x] >= 1
    ensures x in s.accepted && InThread(s, x) ==> x in Apply(s, a).accepted
    ensures x in Apply(s, a).accepted && InThread(Apply(s, a), x) <==>
            (a.Pop? && x == s.queue[0])
            || (x in s.accepted && InThread(s, x) && !((a.OkThreadDone? || a.AbortDone?) && a.it == x))
    ensures a.Pop? && x == s.queue[0] ==> !InThread(s, x)
    ensures (a.OkThreadDone? || a.AbortDone?) && a.it == x ==> x in s.accepted && InThread(s, x)
  {
    if IsUserStep(a) {
    } else if IsWorkerStep(a) {
      InThreadWorkerStep(s, a, x);
    } else {
      InThreadDriverStep(s, a, x);
    }
  }

  lemma InThreadWorkerStep(s: State, a: Action, x: Item)
    requires Enabled(s, a) && IsWorkerStep(a) && Places(s, x) == One(x in s.accepted)
    requires a.Pop? && x == s.queue[0] ==> multiset(s.queue)[x] >= 1
    ensures x in s.accepted && InThread(Apply(s, a), x) <==>
            (a.Pop? && x == s.queue[0]) || (x in s.accepted && InThread(s, x))
    ensures a.Pop? && x == s.queue[0] ==> !InThread(s, x)
  {}

  lemma InThreadDriverStep(s: State, a: Action, x: Item)
    requires Enabled(s, a) && (IsFlightStep(a) || IsCallbackStep(a)) && Places(s, x) == One(x in s.accepted)
    ensures x in s.accepted && InThread(Apply(s, a), x) <==>
            x in s.accepted && InThread(s, x) && !((a.OkThreadDone? || a.AbortDone?) && a.it == x)
    ensures (a.OkThreadDone? || a.AbortDone?) && a.it == x ==> x in s.accepted && InThread(s, x)
  {}

  lemma ThreadItemsStep(s: State, a: Action)
    requires Conserved(s) && Enabled(s, a)
    ensures a.Pop? ==> s.queue[0] !in ThreadItems(s) && ThreadItems(Apply(s, a)) == ThreadItems(s) + {s.queue[0]}
    ensures a.OkThreadDone? || a.AbortDone? ==>
              a.it in ThreadItems(s) && ThreadItems(Apply(s, a)) == ThreadItems(s) - {a.it}
    ensures !(a.Pop? || a.OkThreadDone? || a.AbortDone?) ==> ThreadItems(Apply(s, a)) == ThreadItems(s)
  {
    forall x: Item
      ensures x in ThreadItems(Apply(s, a)) <==>
              (a.Pop? && x == s.queue[0]) || (x in ThreadItems(s) && !((a.OkThreadDone? || a.AbortDone?) && a.it == x))
      ensures a.Pop? && x == s.queue[0] ==> x !in ThreadItems(s)
      ensures (a.OkThreadDone? || a.AbortDone?) && a.it == x ==> x in ThreadItems(s)
    {
      assert Places(s, x) == One(x in s.accepted);
      InThreadStep(s, a, x);
    }
  }

  lemma ThreadCountsStep(s: State, a: Action)
    requires Tidy(s) && Conserved(s) && ThreadCounts(s) && Enabled(s, a)
    ensures ThreadCounts(Apply(s, a))
  {
    ThreadItemsStep(s, a);
    var s' := Apply(s, a);
    if a.Pop? {
      SetPlus(ThreadItems(s), ThreadItems(s'), s.queue[0]);
    } else if a.OkThreadDone? || a.AbortDone? {
      SetMinus(ThreadItems(s), ThreadItems(s'), a.it);
    }
  }

  /** The request that takes a slot in this step. */
  predicate TakesSlot(s: State, a: Action, x: Item) {
    (a.Slot? && s.worker.Popped? && s.worker.it == x) || (a.RetrySlot? && a.it == x)
  }

  predicate GivesSlot(a: Action, x: Item) {
    (a.Succeed? || a.Fail?) && a.it == x
  }

  /** How a step changes whether `x` holds a slot. */
  ghost predicate SlotMoves(s: State, a: Action, x: Item)
    requires Enabled(s, a)
  {
    && (x in Apply(s, a).accepted && HoldsSlot(Apply(s, a), x) <==>
        x in s.accepted && (TakesSlot(s, a, x) || (HoldsSlot(s, x) && !GivesSlot(a, x))))
    && (TakesSlot(s, a, x) ==> x in s.accepted && !HoldsSlot(s, x))
    && (GivesSlot(a, x) ==> x in s.accepted && HoldsSlot(s, x))
  }

  lemma HoldsSlotStep(s: State, a: Action, x: Item)
    requires Enabled(s, a) && Places(s, x) == One(x in s.accepted)
    ensures SlotMoves(s, a, x)
  {
    if IsUserStep(a) {
      HoldsSlotUserStep(s, a, x);
    } else if IsWorkerStep(a) {
      HoldsSlotWorkerStep(s, a, x);
    } else if IsFlightStep(a) {
      HoldsSlotFlightStep(s, a, x);
    } else {
      HoldsSlotCallbackStep(s, a, x);
    }
  }

  lemma HoldsSlotUserStep(s: State, a: Action, x: Item)
    requires Enabled(s, a) && IsUserStep(a) && Places(s, x) == One(x in s.accepted)
    ensures SlotMoves(s, a, x)
  {}

  lemma HoldsSlotWorkerStep(s: State, a: Action, x: Item)
    requires Enabled(s, a) && IsWorkerStep(a) && Places(s, x) == One(x in s.accepted)
    ensures SlotMoves(s, a, x)
  {}

  lemma HoldsSlotFlightStep(s: State, a: Action, x: Item)
    requires Enabled(s, a) && IsFlightStep(a) && Places(s, x) == One(x in s.accepted)
    ensures SlotMoves(s, a, x)
  {}

  lemma HoldsSlotCallbackStep(s: State, a: Action, x: Item)
    requires Enabled(s, a) && IsCallbackStep(a) && Places(s, x) == One(x in s.accepted)
    ensures SlotMoves(s, a, x)
  {}

  function SlotTakers(s: State, a: Action): set<Item> {
    if a.Slot? && s.worker.Popped? then {s.worker.it} else if a.RetrySlot? then {a.it} else {}
  }

  function SlotGivers(a: Action): set<Item> {
    if a.Succeed? || a.Fail? then {a.it} else {}
  }

  lemma SlotMember(s: State, a: Action, x: Item)
    requires Conserved(s) && Enabled(s, a)
    ensures Moved(SlotItems(s), SlotItems(Apply(s, a)), SlotGivers(a), SlotTakers(s, a), x)
  {
    assert Places(s, x) == One(x in s.accepted);
    HoldsSlotStep(s, a, x);
  }

  lemma SlotCountsStep(s: State, a: Action)
    requires Conserved(s) && SlotCounts(s) && Enabled(s, a)
    ensures SlotCounts(Apply(s, a))
  {
    forall x: Item ensures Moved(SlotItems(s), SlotItems(Apply(s, a)), SlotGivers(a), SlotTakers(s, a), x) {
      SlotMember(s, a, x);
    }
    MovedCount(SlotItems(s), SlotItems(Apply(s, a)), SlotGivers(a), SlotTakers(s, a));
  }

  lemma SignalledStep(s: State, a: Action)
    requires Tidy(s) && Signalled(s) && Enabled(s, a)
    ensures Signalled(Apply(s, a))
  {
    var s' := Apply(s, a);
    if a.Push? {
      SetPlus(Unreleased(s), Unreleased(s'), a.w);
    } else if a.Release? {
      SetMinus(Unreleased(s), Unreleased(s'), a.w);
    } else {
      UnreleasedSame(s, a);
    }
  }

  lemma UnreleasedSame(s: State, a: Action)
    requires Tidy(s) && Enabled(s, a) && !a.Push? && !a.Release?
    ensures Unreleased(Apply(s, a)) == Unreleased(s)
  {}
}
