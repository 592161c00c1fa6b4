/** What holds over every run of the asynchronous write path. */
module WriterRuns {
  import opened WriterProtocol

  // ---------------------------------------------------------------- history

  /** What the driver and the callbacks imply about the store and the errors. */
  ghost predicate TracedItem(s: State, it: Item) {
    && (it in s.applied ==> it in s.accepted)
    && (it in s.acked ==> it in s.applied)
    && (it in s.flight && s.flight[it] ==> it in s.applied)
    && (it in s.callbacks && (s.callbacks[it] == OkThread || s.callbacks[it] == OkWriter) ==> it in s.applied)
    && (it in s.callbacks && (s.callbacks[it] == RetryWait || s.callbacks[it] == RetrySlotted) ==> s.errors > 0)
    && (it in s.callbacks && s.callbacks[it] == Aborting ==> s.errors > MAX_ERRORS)
    && (it in s.aborted ==> s.errors > MAX_ERRORS)
  }

  ghost predicate Traced(s: State) {
    forall it: Item :: TracedItem(s, it)
  }

  lemma TracedItemStep(s: State, a: Action, it: Item)
    requires Enabled(s, a) && TracedItem(s, it)
    requires Places(s, it) == One(it in s.accepted)
    ensures TracedItem(Apply(s, a), it)
  {
    if IsUserStep(a) {
    } else if IsWorkerStep(a) {
    } else if IsFlightStep(a) {
      TracedFlightStep(s, a, it);
    } else {
      TracedCallbackStep(s, a, it);
    }
  }

  lemma TracedFlightStep(s: State, a: Action, it: Item)
    requires Enabled(s, a) && IsFlightStep(a) && TracedItem(s, it)
    requires Places(s, it) == One(it in s.accepted)
    ensures TracedItem(Apply(s, a), it)
  {}

  lemma TracedCallbackStep(s: State, a: Action, it: Item)
    requires Enabled(s, a) && IsCallbackStep(a) && TracedItem(s, it)
    ensures TracedItem(Apply(s, a), it)
  {
    if a.OkWriterDone? || a.AbortDone? {
      TracedEndStep(s, a, it);
    } else if a.CountError? {
      TracedErrorStep(s, a.it, it);
    }
  }

  lemma TracedEndStep(s: State, a: Action, it: Item)
    requires Enabled(s, a) && (a.OkWriterDone? || a.AbortDone?) && TracedItem(s, it)
    ensures TracedItem(Apply(s, a), it)
  {}

  lemma TracedErrorStep(s: State, x: Item, it: Item)
    requires Enabled(s, CountError(x)) && TracedItem(s, it)
    ensures TracedItem(Apply(s, CountError(x)), it)
  {}

  lemma TracedStep(s: State, a: Action)
    requires Conserved(s) && Traced(s) && Enabled(s, a)
    ensures Traced(Apply(s, a))
  {
    forall it: Item ensures TracedItem(Apply(s, a), it) {
      assert Places(s, it) == One(it in s.accepted) && TracedItem(s, it);
      TracedItemStep(s, a, it);
    }
  }

  /** No request has failed so far. */
  ghost predicate Clean(s: State) {
    s.errors == 0 && forall it :: it in s.callbacks ==> s.callbacks[it] != Failed
  }

  /** The request in the driver that the store has not applied, if any. */
  ghost function FlightPart(flight: map<Item, bool>): seq<Item> {
    if exists x :: x in flight && !flight[x] then
      var x :| x in flight && !flight[x];
      [x]
    else []
  }

  function HandPart(s: State): seq<Item> {
    if s.worker.Popped? || s.worker.Slotted? then [s.worker.it] else []
  }

  ghost predicate InOrder(s: State) {
    s.pushed == s.applied + FlightPart(s.flight) + HandPart(s) + s.queue
  }

  /** With one slot and no failure, requests pass through in queue order. */
  ghost predicate Ordered(s: State) {
    s.par == 1 && Clean(s) ==> InOrder(s)
  }

  lemma AtMostOne<T>(a: set<T>, x: T, y: T)
    requires x in a && y in a && |a| <= 1
    ensures x == y
  {
    var b := a - {x};
    assert |b| == |a| - 1 == 0;
    assert y !in b;
  }

  lemma OneHolder(s: State, x: Item, y: Item)
    requires Conserved(s) && SlotCounts(s) && s.par == 1
    requires HoldsSlot(s, x) && HoldsSlot(s, y)
    ensures x == y
  {
    assert Places(s, x) == One(x in s.accepted) && Places(s, y) == One(y in s.accepted);
    AtMostOne(SlotItems(s), x, y);
  }

  lemma FailIsNotClean(s: State, a: Action)
    requires Enabled(s, a) && a.Fail?
    ensures !Clean(Apply(s, a))
  {
    assert a.it in Apply(s, a).callbacks;
  }

  lemma RetryIsNotClean(s: State, a: Action)
    requires Traced(s) && Enabled(s, a) && a.RetrySend?
    ensures !Clean(Apply(s, a))
  {
    assert TracedItem(s, a.it);
  }

  /** A step into a failure-free state starts from one and is no failure. */
  lemma CleanBefore(s: State, a: Action)
    requires Conserved(s) && Traced(s) && Enabled(s, a) && Clean(Apply(s, a))
    ensures Clean(s) && !a.Fail? && !a.CountError? && !a.RetrySend?
  {
    if a.Fail? {
      FailIsNotClean(s, a);
    } else if a.RetrySend? {
      RetryIsNotClean(s, a);
    }
    forall it | it in s.callbacks ensures s.callbacks[it] != Failed {
      assert Places(s, it) == One(it in s.accepted);
      assert !a.CountError?;
      if a.OkThreadDone? || a.OkWriterDone? || a.RetrySlot? || a.AbortDone? || a.Succeed? {
        if it != a.it { assert it in Apply(s, a).callbacks; }
      } else if !a.Fail? && !a.RetrySend? {
        assert it in Apply(s, a).callbacks;
      }
    }
  }

  lemma FlightIs(flight: map<Item, bool>, x: Item)
    requires x in flight && !flight[x]
    requires forall y :: y in flight ==> y == x
    ensures FlightPart(flight) == [x]
  {}

  lemma OrderedStep(s: State, a: Action)
    requires Conserved(s) && SlotCounts(s) && Traced(s) && Ordered(s) && Enabled(s, a)
    ensures Ordered(Apply(s, a))
  {
    var s' := Apply(s, a);
    if s'.par == 1 && Clean(s') {
      ConstantsStep(s, a);
      CleanBefore(s, a);
      InOrderStep(s, a);
    }
  }

  lemma InOrderStep(s: State, a: Action)
    requires Conserved(s) && SlotCounts(s) && Enabled(s, a) && s.par == 1 && InOrder(s)
    requires !a.Fail? && !a.RetrySend?
    ensures InOrder(Apply(s, a))
  {
    if a.Deliver? || a.Succeed? {
      InOrderFlightStep(s, a);
    } else if a.Send? {
      InOrderSend(s);
    } else if IsUserStep(a) {
      InOrderUserStep(s, a);
    } else {
      InOrderOtherStep(s, a);
    }
  }

  lemma InOrderUserStep(s: State, a: Action)
    requires Enabled(s, a) && InOrder(s) && IsUserStep(a)
    ensures InOrder(Apply(s, a))
  {
    assert Apply(s, a).flight == s.flight;
  }

  lemma InOrderOtherStep(s: State, a: Action)
    requires Enabled(s, a) && InOrder(s) && !IsUserStep(a) && !IsFlightStep(a) && !a.Send?
    ensures InOrder(Apply(s, a))
  {
    assert Apply(s, a).flight == s.flight;
  }

  lemma InOrderSend(s: State)
    requires Conserved(s) && SlotCounts(s) && Enabled(s, Send) && s.par == 1 && InOrder(s)
    ensures InOrder(Apply(s, Send))
  {
    forall y | y in s.flight ensures y == s.worker.it { OneHolder(s, y, s.worker.it); }
    assert s.flight == map[];
    FlightIs(Apply(s, Send).flight, s.worker.it);
  }

  lemma InOrderFlightStep(s: State, a: Action)
    requires Conserved(s) && SlotCounts(s) && Enabled(s, a) && s.par == 1 && InOrder(s)
    requires a.Deliver? || a.Succeed?
    ensures InOrder(Apply(s, a))
  {
    forall y | y in s.flight ensures y == a.it { OneHolder(s, y, a.it); }
    if a.Deliver? {
      FlightIs(s.flight, a.it);
      assert FlightPart(Apply(s, a).flight) == [];
    } else {
      assert FlightPart(s.flight) == [] && FlightPart(Apply(s, a).flight) == [];
    }
  }

  // ------------------------------------------------------------------- runs

  ghost predicate Inv(s: State) {
    && Tidy(s) && Conserved(s) && WriterCounts(s) && ThreadCounts(s) && SlotCounts(s) && Signalled(s)
    && Traced(s) && Ordered(s) && s.capacity >= 1 && s.par >= 1
  }

  lemma InitInv(s: State)
    requires Init(s)
    ensures Inv(s)
  {
    forall it: Item ensures Places(s, it) == One(it in s.accepted) {}
    assert SlotItems(s) == {} && ThreadItems(s) == {} && Unreleased(s) == {};
    forall w | w in s.writerCount ensures s.writerCount[w] == |Outstanding(s, w)| {
      assert Outstanding(s, w) == {};
    }
  }

  lemma InvStep(s: State, a: Action)
    requires Inv(s) && Enabled(s, a)
    ensures Inv(Apply(s, a))
  {
    TidyStep(s, a);
    ConservedStep(s, a);
    WriterCountsStep(s, a);
    ThreadCountsStep(s, a);
    SlotCountsStep(s, a);
    SignalledStep(s, a);
    TracedStep(s, a);
    OrderedStep(s, a);
    ConstantsStep(s, a);
  }

  lemma ConstantsStep(s: State, a: Action)
    requires Enabled(s, a)
    ensures Apply(s, a).capacity == s.capacity && Apply(s, a).par == s.par
  {}

  /** Action by action, `acts` leads through the states `ss`. */
  ghost predicate IsRun(ss: seq<State>, acts: seq<Action>) {
    |ss| == |acts| + 1
    && forall i :: 0 <= i < |acts| ==> Enabled(ss[i], acts[i]) && ss[i + 1] == Apply(ss[i], acts[i])
  }

  lemma {:induction false} RunInv(ss: seq<State>, acts: seq<Action>, i: nat)
    requires IsRun(ss, acts) && i < |ss| && Inv(ss[0])
    ensures Inv(ss[i])
  {
    if i == 0 {
    } else {
      RunInv(ss, acts, i - 1);
      InvStep(ss[i - 1], acts[i - 1]);
    }
  }

  /** Conservation of writes: in every state of every run each accepted write is
      in exactly one of: dirty, superseded, a user's hand, the queue, the worker's
      hand, the driver, a callback, acknowledged, aborted. */
  lemma WritesConserved(ss: seq<State>, acts: seq<Action>, i: nat, it: Item)
    requires IsRun(ss, acts) && i < |ss| && Init(ss[0])
    ensures Places(ss[i], it) == if it in ss[i].accepted then 1 else 0
  {
    InitInv(ss[0]);
    RunInv(ss, acts, i);
  }

  /** `is_write_completed` of writer `w`. */
  predicate Completed(s: State, w: nat) {
    w in s.writerCount && s.writerCount[w] == 0 && !HasDirty(s, w)
  }

  /** A writer reports completion exactly when every write it accepted has been
      acknowledged or was replaced while dirty, retries and aborts included. */
  lemma CompletedIff(s: State, w: nat)
    requires Inv(s) && w in s.user
    ensures Completed(s, w) <==> forall it :: it in s.accepted && it.writer == w ==> it in s.acked || it in s.superseded
  {
    if Completed(s, w) {
      assert Outstanding(s, w) == {};
      forall it | it in s.accepted && it.writer == w ensures it in s.acked || it in s.superseded {
        assert !InDirty(s, it);
        assert it !in Outstanding(s, w);
      }
    }
    if forall it :: it in s.accepted && it.writer == w ==> it in s.acked || it in s.superseded {
      assert Outstanding(s, w) == {};
      if HasDirty(s, w) {
        var p :| p in s.dirty && p.0 == w;
        assert Places(s, s.dirty[p]) == One(s.dirty[p] in s.accepted);
        assert InDirty(s, s.dirty[p]);
      }
    }
  }

  /** In every reachable state (`RunInv`) at most writer_par requests hold a slot, and
      the driver never has more. */
  lemma FlightBounded(s: State)
    requires Inv(s)
    ensures s.slots + |SlotItems(s)| == s.par && |s.flight| <= s.par
  {
    assert s.flight.Keys <= SlotItems(s) by {
      forall it | it in s.flight ensures it in SlotItems(s) { assert Places(s, it) == One(it in s.accepted); }
    }
    SetMoves(SlotItems(s), SlotItems(s) - s.flight.Keys, s.flight.Keys, {});
    assert |s.flight.Keys| == |s.flight|;
  }

  /** In every run, every wake-up of the worker finds an item to pop: try_pop never
      comes back empty. */
  lemma WakeFindsItem(ss: seq<State>, acts: seq<Action>, i: nat)
    requires IsRun(ss, acts) && i < |ss| && Init(ss[0])
    ensures ss[i].worker == Awake || ss[i].worker == Counting ==> ss[i].queue != []
    ensures !Enabled(ss[i], PopEmpty)
  {
    InitInv(ss[0]);
    RunInv(ss, acts, i);
    AwakeHasItem(ss[i]);
  }

  lemma AwakeHasItem(s: State)
    requires Signalled(s)
    ensures s.worker == Awake || s.worker == Counting ==> s.queue != []
    ensures !Enabled(s, PopEmpty)
  {}

  /** With writer_par 1, in every run without failures the store has applied a prefix
      of the queue order. */
  lemma OneSlotKeepsOrder(ss: seq<State>, acts: seq<Action>, i: nat)
    requires IsRun(ss, acts) && i < |ss| && Init(ss[0]) && ss[0].par == 1
    requires forall j :: 0 <= j < |acts| ==> !acts[j].Fail?
    ensures ss[i].applied <= ss[i].pushed
  {
    InitInv(ss[0]);
    RunInv(ss, acts, i);
    NoFailNoError(ss, acts, i);
    SameSlots(ss, acts, i);
  }

  lemma {:induction false} SameSlots(ss: seq<State>, acts: seq<Action>, i: nat)
    requires IsRun(ss, acts) && i < |ss|
    ensures ss[i].par == ss[0].par
  {
    if i == 0 {
    } else {
      SameSlots(ss, acts, i - 1);
      ConstantsStep(ss[i - 1], acts[i - 1]);
    }
  }

  /** The two reads of wait_writes_completion: the queue was seen empty, nothing
      was pushed since, and then the counter was seen zero. */
  lemma {:induction false} QuiescenceSound(ss: seq<State>, acts: seq<Action>)
    requires IsRun(ss, acts) && Inv(ss[0]) && ss[0].queue == []
    requires forall i :: 0 <= i < |acts| ==> !acts[i].Push?
    requires ss[|acts|].threadCount == 0
    ensures var s := ss[|acts|];
            s.queue == [] && s.worker != Counting
            && forall it :: !InHand(s, it) && it !in s.flight && (it in s.callbacks ==> s.callbacks[it] == OkWriter)
  {
    RunInv(ss, acts, |acts|);
    NoPushKeepsEmpty(ss, acts, |acts|);
    var s := ss[|acts|];
    assert ThreadItems(s) == {};
    forall it
      ensures !InHand(s, it) && it !in s.flight && (it in s.callbacks ==> s.callbacks[it] == OkWriter)
    {
      assert Places(s, it) == One(it in s.accepted);
      assert it !in ThreadItems(s);
    }
  }

  lemma {:induction false} NoPushKeepsEmpty(ss: seq<State>, acts: seq<Action>, i: nat)
    requires IsRun(ss, acts) && i < |ss| && ss[0].queue == []
    requires forall i :: 0 <= i < |acts| ==> !acts[i].Push?
    ensures ss[i].queue == []
  {
    if i == 0 {
    } else {
      NoPushKeepsEmpty(ss, acts, i - 1);
      assert Enabled(ss[i - 1], acts[i - 1]) && !acts[i - 1].Push?;
    }
  }

  // --------------------------------------------------------------- termination

  ghost function Sum<K>(m: map<K, nat>): nat {
    if m == map[] then 0
    else
      var k :| k in m;
      assert (m - {k}).Keys == m.Keys - {k};
      m[k] + Sum(m - {k})
  }

  lemma {:induction false} SumRemove<K>(m: map<K, nat>, k: K)
    requires k in m
    ensures Sum(m) == m[k] + Sum(m - {k})
    decreases |m|
  {
    var j :| j in m && Sum(m) == m[j] + Sum(m - {j});
    if j == k {
    } else {
      assert (m - {j}).Keys == m.Keys - {j} && (m - {k}).Keys == m.Keys - {k};
      SumRemove(m - {j}, k);
      SumRemove(m - {k}, j);
      assert m - {j} - {k} == m - {k} - {j};
    }
  }

  lemma SumUpdate<K>(m: map<K, nat>, n: map<K, nat>, k: K)
    requires k in m && n.Keys == m.Keys
    requires forall x :: x in m && x != k ==> n[x] == m[x]
    ensures Sum(n) == Sum(m) - m[k] + n[k]
  {
    SumRemove(m, k);
    SumRemove(n, k);
    assert m - {k} == n - {k};
  }

  function CallbackWeight(pc: CallbackPc): nat {
    match pc
    case RetryWait => 6
    case RetrySlotted => 5
    case Failed => 2
    case OkThread => 2
    case OkWriter => 1
    case Aborting => 1
  }

  /** How many steps a request still has ahead of it, failures aside. */
  function ItemWeight(s: State, it: Item): nat {
    if InDirty(s, it) then 13
    else if InUser(s, it) then 12
    else if InHand(s, it) then (if s.worker.Popped? then 6 else 5)
    else if it in s.flight then (if s.flight[it] then 3 else 4)
    else if it in s.callbacks then CallbackWeight(s.callbacks[it])
    else if it in s.queue then 7
    else 0
  }

  function UserWeight(pc: UserPc): nat {
    match pc
    case Idle => 0
    case Flushing => 1
    case Counted(_, flushing) => if flushing then 1 else 0
    case Pushed(flushing) => if flushing then 5 else 4
  }

  function WorkerWeight(pc: WorkerPc): nat {
    if pc == Awake then 2 else if pc == Counting then 1 else 0
  }

  function Budget(s: State): nat {
    if s.errors < MAX_ERRORS then MAX_ERRORS - s.errors else 0
  }

  ghost function ItemWeights(s: State): map<Item, nat> {
    map it | it in s.accepted :: ItemWeight(s, it)
  }

  ghost function UserWeights(s: State): map<nat, nat> {
    map w | w in s.user :: UserWeight(s.user[w])
  }

  ghost function Measure(s: State): int {
    Overhead(s) + Sum(ItemWeights(s)) + Sum(UserWeights(s))
  }

  /** The request that a protocol step moves. */
  predicate Moves(s: State, a: Action, x: Item) {
    match a
    case FlushNext(it) => x == it
    case Push(w) => w in s.user && s.user[w].Counted? && x == s.user[w].it
    case Pop => s.queue != [] && x == s.queue[0]
    case Slot => s.worker.Popped? && x == s.worker.it
    case Send => s.worker.Slotted? && x == s.worker.it
    case Deliver(it) => x == it
    case Succeed(it) => x == it
    case Fail(it) => x == it
    case OkThreadDone(it) => x == it
    case OkWriterDone(it) => x == it
    case CountError(it) => x == it
    case RetrySlot(it) => x == it
    case RetrySend(it) => x == it
    case AbortDone(it) => x == it
    case _ => false
  }

  /** What a step may add to the weight of the request it moves. */
  function Raise(s: State, a: Action): int {
    match a
    case Push(_) => -5
    case CountError(_) => if s.errors + 1 > MAX_ERRORS then -1 else 4
    case _ => -1
  }

  lemma StillQueued(q: seq<Item>, x: Item)
    requires q != [] && x != q[0]
    ensures x in q <==> x in q[1..]
  {
    assert q == [q[0]] + q[1..];
  }

  lemma RestUnmoved(s: State, a: Action, x: Item)
    requires Tidy(s) && Enabled(s, a) && !IsCall(a) && !Moves(s, a, x) && Places(s, x) == One(x in s.accepted)
    ensures ItemWeight(Apply(s, a), x) == ItemWeight(s, x)
  {
    if a.Pop? { StillQueued(s.queue, x); }
    if IsUserStep(a) {
      RestUnmovedUser(s, a, x);
    } else if IsFlightStep(a) {
      RestUnmovedFlight(s, a, x);
    }
  }

  lemma RestUnmovedUser(s: State, a: Action, x: Item)
    requires Tidy(s) && Enabled(s, a) && !IsCall(a) && IsUserStep(a) && !Moves(s, a, x)
        && Places(s, x) == One(x in s.accepted)
    ensures ItemWeight(Apply(s, a), x) == ItemWeight(s, x)
  {}

  lemma RestUnmovedFlight(s: State, a: Action, x: Item)
    requires Enabled(s, a) && IsFlightStep(a) && !Moves(s, a, x)
    ensures ItemWeight(Apply(s, a), x) == ItemWeight(s, x)
  {}

  lemma MovedFalls(s: State, a: Action, x: Item)
    requires Tidy(s) && Enabled(s, a) && !IsCall(a) && Moves(s, a, x) && Places(s, x) == One(x in s.accepted)
    requires a.Pop? ==> multiset(s.queue)[x] >= 1
    ensures x in s.accepted
    ensures ItemWeight(Apply(s, a), x) <= ItemWeight(s, x) + Raise(s, a)
  {
    if IsUserStep(a) {
      MovedFallsUser(s, a, x);
    } else if IsWorkerStep(a) {
      MovedFallsWorker(s, a, x);
    } else if IsFlightStep(a) {
      MovedFallsFlight(s, a, x);
    } else {
      MovedFallsCallback(s, a, x);
    }
  }

  lemma MovedFallsUser(s: State, a: Action, x: Item)
    requires Tidy(s) && Enabled(s, a) && !IsCall(a) && IsUserStep(a) && Moves(s, a, x)
        && Places(s, x) == One(x in s.accepted)
    ensures x in s.accepted && ItemWeight(Apply(s, a), x) <= ItemWeight(s, x) + Raise(s, a)
  {}

  lemma MovedFallsWorker(s: State, a: Action, x: Item)
    requires Enabled(s, a) && IsWorkerStep(a) && Moves(s, a, x) && Places(s, x) == One(x in s.accepted)
    requires a.Pop? ==> multiset(s.queue)[x] >= 1
    ensures x in s.accepted && ItemWeight(Apply(s, a), x) <= ItemWeight(s, x) + Raise(s, a)
  {}

  lemma MovedFallsFlight(s: State, a: Action, x: Item)
    requires Enabled(s, a) && IsFlightStep(a) && Moves(s, a, x) && Places(s, x) == One(x in s.accepted)
    ensures x in s.accepted && ItemWeight(Apply(s, a), x) <= ItemWeight(s, x) + Raise(s, a)
  {}

  lemma MovedFallsCallback(s: State, a: Action, x: Item)
    requires Enabled(s, a) && IsCallbackStep(a) && Moves(s, a, x) && Places(s, x) == One(x in s.accepted)
    ensures x in s.accepted && ItemWeight(Apply(s, a), x) <= ItemWeight(s, x) + Raise(s, a)
  {}

  /** Only the request that moves changes weight. */
  ghost predicate RestSame(s: State, s': State, a: Action) {
    s'.accepted == s.accepted
    && forall x: Item :: x in s.accepted && !Moves(s, a, x) ==> ItemWeights(s')[x] == ItemWeights(s)[x]
  }

  lemma RestSameStep(s: State, a: Action)
    requires Tidy(s) && Conserved(s) && Enabled(s, a) && !IsCall(a)
    ensures RestSame(s, Apply(s, a), a)
  {
    SameAccepted(s, a);
    forall x: Item | x in s.accepted && !Moves(s, a, x)
      ensures ItemWeights(Apply(s, a))[x] == ItemWeights(s)[x]
    {
      assert Places(s, x) == One(x in s.accepted);
      RestUnmoved(s, a, x);
    }
  }

  lemma MoverFalls(s: State, a: Action, x: Item)
    requires Tidy(s) && Conserved(s) && Enabled(s, a) && !IsCall(a) && Moves(s, a, x)
    ensures x in s.accepted && ItemWeight(Apply(s, a), x) <= ItemWeight(s, x) + Raise(s, a)
  {
    assert Places(s, x) == One(x in s.accepted);
    if a.Pop? { assert x in s.queue; }
    MovedFalls(s, a, x);
  }

  lemma SumOfRest(s: State, s': State, a: Action, x: Item)
    requires RestSame(s, s', a) && Moves(s, a, x) && x in s.accepted
    ensures Sum(ItemWeights(s')) == Sum(ItemWeights(s)) - ItemWeight(s, x) + ItemWeight(s', x)
  {
    OneMover(s, a, x);
    SumUpdate(ItemWeights(s), ItemWeights(s'), x);
  }

  /** Total weight of requests: changes only by the request that moves. */
  lemma ItemSumStep(s: State, a: Action)
    requires Tidy(s) && Conserved(s) && Enabled(s, a) && !IsCall(a)
    ensures (forall x: Item :: !Moves(s, a, x)) ==> Sum(ItemWeights(Apply(s, a))) == Sum(ItemWeights(s))
    ensures (exists x: Item :: Moves(s, a, x)) ==> Sum(ItemWeights(Apply(s, a))) <= Sum(ItemWeights(s)) + Raise(s, a)
  {
    RestSameStep(s, a);
    ItemSumSame(s, Apply(s, a), a);
    if exists x: Item :: Moves(s, a, x) {
      var x: Item :| Moves(s, a, x);
      MoverFalls(s, a, x);
      SumOfRest(s, Apply(s, a), a, x);
    }
  }

  lemma ItemSumSame(s: State, s': State, a: Action)
    requires RestSame(s, s', a)
    ensures (forall x: Item :: !Moves(s, a, x)) ==> Sum(ItemWeights(s')) == Sum(ItemWeights(s))
  {
    if forall x: Item :: !Moves(s, a, x) {
      assert ItemWeights(s') == ItemWeights(s);
    }
  }

  lemma SameAccepted(s: State, a: Action)
    requires Enabled(s, a) && !IsCall(a)
    ensures Apply(s, a).accepted == s.accepted
  {}

  lemma OneMover(s: State, a: Action, x: Item)
    requires Moves(s, a, x)
    ensures forall y: Item :: Moves(s, a, y) ==> y == x
  {}

  predicate MovesUser(a: Action) {
    a.FlushNext? || a.EndFlush? || a.Push? || a.Release?
  }

  function UserOf(a: Action): nat
    requires MovesUser(a)
  {
    if a.FlushNext? then a.it.writer else a.w
  }

  lemma UserWeightsMove(s: State, a: Action)
    requires Enabled(s, a) && !IsCall(a) && MovesUser(a)
    ensures var m, n, w := UserWeights(s), UserWeights(Apply(s, a)), UserOf(a);
            && w in m && n == m[w := n[w]]
            && n[w] + (if a.EndFlush? then 1 else if a.Release? then 4 else 0) == m[w] + if a.Push? then 4 else 0
  {}

  lemma UserSumStep(s: State, a: Action)
    requires Enabled(s, a) && !IsCall(a)
    ensures !MovesUser(a) ==> Sum(UserWeights(Apply(s, a))) == Sum(UserWeights(s))
    ensures a.FlushNext? ==> Sum(UserWeights(Apply(s, a))) == Sum(UserWeights(s))
    ensures a.EndFlush? ==> Sum(UserWeights(Apply(s, a))) == Sum(UserWeights(s)) - 1
    ensures a.Push? ==> Sum(UserWeights(Apply(s, a))) == Sum(UserWeights(s)) + 4
    ensures a.Release? ==> Sum(UserWeights(Apply(s, a))) == Sum(UserWeights(s)) - 4
  {
    if MovesUser(a) {
      UserWeightsMove(s, a);
      SumUpdate(UserWeights(s), UserWeights(Apply(s, a)), UserOf(a));
    } else {
      assert Apply(s, a).user == s.user;
    }
  }

  /** Whether a step moves some request. */
  lemma MoverExists(s: State, a: Action)
    requires Enabled(s, a) && !IsCall(a)
    ensures a.EndFlush? || a.Release? || a.Wake? || a.Count? || a.PopEmpty? ==> forall x: Item :: !Moves(s, a, x)
    ensures !(a.EndFlush? || a.Release? || a.Wake? || a.Count? || a.PopEmpty?) ==> exists x: Item :: Moves(s, a, x)
  {
    if a.Push? {
      assert Moves(s, a, s.user[a.w].it);
    } else if a.Pop? {
      assert Moves(s, a, s.queue[0]);
    } else if a.Slot? || a.Send? {
      assert Moves(s, a, s.worker.it);
    } else if !(a.EndFlush? || a.Release? || a.Wake? || a.Count? || a.PopEmpty?) {
      assert Moves(s, a, a.it);
    }
  }

  /** Every protocol step strictly decreases the measure. */
  lemma MeasureFalls(s: State, a: Action)
    requires Inv(s) && Enabled(s, a) && !IsCall(a)
    ensures 0 <= Measure(Apply(s, a)) < Measure(s)
  {
    InvStep(s, a);
    MoverExists(s, a);
    ItemSumStep(s, a);
    UserSumStep(s, a);
    OverheadStep(s, a);
  }

  /** The part of the measure that is not about requests or users. */
  ghost function Overhead(s: State): int {
    20 * Budget(s) + 3 * s.pending + WorkerWeight(s.worker)
  }

  lemma OverheadStep(s: State, a: Action)
    requires Enabled(s, a) && !IsCall(a)
    ensures a.Release? ==> Overhead(Apply(s, a)) == Overhead(s) + 3
    ensures a.Wake? || a.Count? || a.Pop? || a.PopEmpty? ==> Overhead(Apply(s, a)) == Overhead(s) - 1
    ensures a.CountError? ==> Overhead(Apply(s, a)) == Overhead(s) - if s.errors + 1 > MAX_ERRORS then 0 else 20
    ensures !(a.Release? || a.Wake? || a.Count? || a.Pop? || a.PopEmpty? || a.CountError?) ==>
              Overhead(Apply(s, a)) == Overhead(s)
  {}

  /** No endless run: between two calls of the user there are no more protocol
      steps than the measure allows. */
  lemma {:induction false} RunBounded(ss: seq<State>, acts: seq<Action>)
    requires IsRun(ss, acts) && Inv(ss[0])
    requires forall i :: 0 <= i < |acts| ==> !IsCall(acts[i])
    ensures |acts| + Measure(ss[|acts|]) <= Measure(ss[0])
    ensures |acts| <= Measure(ss[0])
  {
    RunInv(ss, acts, |acts|);
    if acts == [] {
    } else {
      var n := |acts| - 1;
      RunBounded(ss[..|acts|], acts[..n]);
      RunInv(ss, acts, n);
      MeasureFalls(ss[n], acts[n]);
    }
  }

  // ----------------------------------------------------------------- progress

  /** All queues are empty and nobody is in the middle of anything. */
  ghost predicate Settled(s: State) {
    && s.queue == [] && s.pending == 0 && s.slots == s.par && s.worker == Waiting && s.threadCount == 0
    && s.flight == map[] && s.callbacks == map[]
    && (forall w :: w in s.user ==> s.user[w] == Idle)
    && (forall it :: it in s.accepted ==> InDirty(s, it) || it in s.superseded || it in s.acked || it in s.aborted)
  }

  predicate IsProgress(s: State, a: Action) {
    Enabled(s, a) && !IsCall(a) && !a.Fail?
  }

  /** Everything but the users and the queue is at rest. */
  ghost predicate DriverIdle(s: State) {
    s.callbacks == map[] && s.flight == map[] && s.worker == Waiting
  }

  /** Unless everything is settled some protocol step other than a failure is
      possible (callbacks run on as many threads as they need). */
  lemma Progress(s: State) returns (a: Action)
    requires Inv(s) && !Settled(s)
    ensures IsProgress(s, a)
  {
    if DriverIdle(s) {
      NoSlotsHeld(s);
      NoThreadItems(s);
      a := UserProgress(s);
    } else if it :| it in s.callbacks && s.callbacks[it] != RetryWait {
      assert Places(s, it) == One(it in s.accepted);
      a := CallbackProgress(s, it);
    } else {
      a := DriverProgress(s);
    }
  }

  lemma CallbackProgress(s: State, it: Item) returns (a: Action)
    requires Tidy(s) && it in s.callbacks && s.callbacks[it] != RetryWait
    requires Places(s, it) == One(it in s.accepted)
    ensures IsProgress(s, a)
  {
    match s.callbacks[it]
    case OkThread => a := OkThreadDone(it);
    case OkWriter => a := OkWriterDone(it);
    case Failed => a := CountError(it);
    case RetrySlotted => a := RetrySend(it);
    case Aborting => a := AbortDone(it);
  }

  lemma DriverProgress(s: State) returns (a: Action)
    requires Conserved(s) && SlotCounts(s) && Signalled(s) && s.par >= 1 && !DriverIdle(s)
    requires forall it :: it in s.callbacks ==> s.callbacks[it] == RetryWait
    ensures IsProgress(s, a)
  {
    if it :| it in s.flight {
      a := if s.flight[it] then Succeed(it) else Deliver(it);
    } else if s.worker.Slotted? {
      assert Places(s, s.worker.it) == One(s.worker.it in s.accepted);
      a := Send;
    } else {
      assert SlotItems(s) == {};
      if it :| it in s.callbacks {
        a := RetrySlot(it);
      } else {
        a := if s.worker.Popped? then Slot else if s.worker == Awake then Count else Pop;
      }
    }
  }

  lemma NoSlotsHeld(s: State)
    requires SlotCounts(s) && DriverIdle(s)
    ensures s.slots == s.par
  {
    assert SlotItems(s) == {};
  }

  lemma NoThreadItems(s: State)
    requires ThreadCounts(s) && DriverIdle(s)
    ensures s.threadCount == 0
  {
    assert ThreadItems(s) == {};
  }

  lemma UserProgress(s: State) returns (a: Action)
    requires Tidy(s) && Conserved(s) && Signalled(s) && s.capacity >= 1 && !Settled(s)
    requires DriverIdle(s) && s.slots == s.par && s.threadCount == 0
    ensures IsProgress(s, a)
  {
    if s.pending > 0 {
      a := Wake;
    } else if w :| w in s.user && s.user[w].Pushed? {
      a := Release(w);
    } else {
      assert Unreleased(s) == {};
      assert s.queue == [];
      if w :| w in s.user && s.user[w].Counted? {
        a := Push(w);
      } else if w :| w in s.user && s.user[w] == Flushing {
        a := FlushProgress(s, w);
      } else {
        AllSettled(s);
        assert false;
      }
    }
  }

  lemma FlushProgress(s: State, w: nat) returns (a: Action)
    requires Tidy(s) && w in s.user && s.user[w] == Flushing
    ensures IsProgress(s, a)
  {
    if HasDirty(s, w) {
      var p :| p in s.dirty && p.0 == w;
      a := FlushNext(s.dirty[p]);
    } else {
      a := EndFlush(w);
    }
  }

  lemma AllSettled(s: State)
    requires Conserved(s) && DriverIdle(s) && s.slots == s.par && s.threadCount == 0 && s.pending == 0 && s.queue == []
    requires forall w :: w in s.user ==> s.user[w] == Idle
    ensures Settled(s)
  {
    forall it | it in s.accepted ensures InDirty(s, it) || it in s.superseded || it in s.acked || it in s.aborted {
      assert Places(s, it) == One(it in s.accepted);
    }
  }

  /** At rest, a writer reports completion exactly when it left nothing dirty and no
      write of its was given up. */
  lemma SettledCompleted(s: State, w: nat)
    requires Inv(s) && Settled(s) && w in s.user
    ensures Completed(s, w) <==> !HasDirty(s, w) && forall it :: it in s.aborted ==> it.writer != w
  {
    CompletedIff(s, w);
    forall it: Item ensures it in s.aborted ==> it in s.accepted && it !in s.acked && it !in s.superseded {
      assert Places(s, it) == One(it in s.accepted);
    }
    forall it: Item | it.writer == w && InDirty(s, it) ensures HasDirty(s, w) {
      assert (w, it.key) in s.dirty && (w, it.key).0 == w;
    }
  }

  /** Every maximal run, whatever failed on the way, ends settled, and then each writer
      has completed exactly when it left nothing dirty and had no write given up. */
  lemma MaximalRun(ss: seq<State>, acts: seq<Action>)
    requires IsRun(ss, acts) && Init(ss[0])
    requires forall a :: !IsProgress(ss[|acts|], a)
    ensures var s := ss[|acts|];
            && Settled(s)
            && forall w :: w in s.user ==>
                 (Completed(s, w) <==> !HasDirty(s, w) && forall it :: it in s.aborted ==> it.writer != w)
  {
    InitInv(ss[0]);
    RunInv(ss, acts, |acts|);
    var s := ss[|acts|];
    if !Settled(s) {
      var a := Progress(s);
    }
    forall w | w in s.user
      ensures Completed(s, w) <==> !HasDirty(s, w) && forall it :: it in s.aborted ==> it.writer != w
    {
      SettledCompleted(s, w);
    }
  }

  /** Every maximal failure-free run ends settled, with every counter at zero and
      every write acknowledged, apart from those the user left or replaced in
      dirty_blocks. */
  lemma MaximalCleanRun(ss: seq<State>, acts: seq<Action>)
    requires IsRun(ss, acts) && Init(ss[0])
    requires forall i :: 0 <= i < |acts| ==> !acts[i].Fail?
    requires forall a :: !IsProgress(ss[|acts|], a)
    ensures var s := ss[|acts|];
            && Settled(s)
            && (forall it :: it in s.accepted ==> InDirty(s, it) || it in s.superseded || it in s.acked)
            && forall w :: w in s.writerCount ==> s.writerCount[w] == 0
  {
    MaximalRun(ss, acts);
    InitInv(ss[0]);
    RunInv(ss, acts, |acts|);
    NoFailNoError(ss, acts, |acts|);
    var s := ss[|acts|];
    forall w | w in s.writerCount ensures s.writerCount[w] == 0 {
      forall it ensures it !in Outstanding(s, w) {}
      assert Outstanding(s, w) == {};
    }
  }

  lemma {:induction false} NoFailNoError(ss: seq<State>, acts: seq<Action>, i: nat)
    requires IsRun(ss, acts) && i < |ss| && Init(ss[0])
    requires forall i :: 0 <= i < |acts| ==> !acts[i].Fail?
    ensures Clean(ss[i]) && ss[i].aborted == {}
  {
    if i == 0 {
    } else {
      NoFailNoError(ss, acts, i - 1);
      InitInv(ss[0]);
      RunInv(ss, acts, i - 1);
      var s, a := ss[i - 1], acts[i - 1];
      assert Enabled(s, a) && !a.Fail?;
      assert Traced(s);
      CleanStep(s, a);
    }
  }

  lemma CleanStep(s: State, a: Action)
    requires Traced(s) && Enabled(s, a) && Clean(s) && s.aborted == {} && !a.Fail?
    ensures Clean(Apply(s, a)) && Apply(s, a).aborted == {}
  {
    if a.AbortDone? {
      NoCleanAbort(s, a);
    }
  }

  lemma NoCleanAbort(s: State, a: Action)
    requires Traced(s) && Enabled(s, a) && a.AbortDone?
    ensures s.errors > 0
  {
    assert TracedItem(s, a.it);
  }

  // ------------------------------------------------------------------- aborts

  lemma AbortedStep(s: State, a: Action, next: State)
    requires Enabled(s, a) && next == Apply(s, a)
    ensures s.aborted <= next.aborted
  {}

  lemma {:induction false} AbortedStays(ss: seq<State>, acts: seq<Action>, i: nat, j: nat)
    requires IsRun(ss, acts) && i <= j < |ss|
    ensures ss[i].aborted <= ss[j].aborted
  {
    if i == j {
    } else {
      AbortedStays(ss, acts, i, j - 1);
      AbortedStep(ss[j - 1], acts[j - 1], ss[j]);
      assert ss[i].aborted <= ss[j - 1].aborted <= ss[j].aborted;
    }
  }

  /** Once a write has been given up, its writer never reports completion again. */
  lemma AbortIsFinal(ss: seq<State>, acts: seq<Action>, i: nat, j: nat, it: Item)
    requires IsRun(ss, acts) && Init(ss[0]) && i <= j < |ss| && it in ss[i].aborted
    ensures !Completed(ss[j], it.writer)
  {
    InitInv(ss[0]);
    RunInv(ss, acts, j);
    AbortedStays(ss, acts, i, j);
    var s := ss[j];
    assert Places(s, it) == One(it in s.accepted);
    CompletedIff(s, it.writer);
  }

  /** One more step at the end of a run. */
  lemma Extend(ss: seq<State>, acts: seq<Action>, a: Action) returns (ts: seq<State>, bs: seq<Action>)
    requires IsRun(ss, acts) && Enabled(ss[|acts|], a)
    ensures IsRun(ts, bs) && ts[0] == ss[0] && |bs| == |acts| + 1 && ts[|bs|] == Apply(ss[|acts|], a)
  {
    ts, bs := ss + [Apply(ss[|acts|], a)], acts + [a];
    forall i | 0 <= i < |bs| ensures Enabled(ts[i], bs[i]) && ts[i + 1] == Apply(ts[i], bs[i]) {
      if i < |acts| { assert ts[i] == ss[i] && bs[i] == acts[i] && ts[i + 1] == ss[i + 1]; }
    }
  }

  /** The request is in the driver, and nothing else happens there. */
  ghost predicate OnlyInFlight(s: State, it: Item, errors: nat) {
    it in s.flight && s.callbacks == map[] && s.slots >= 0 && s.errors == errors
  }

  /** Any write of any writer can be put into the driver. */
  lemma QueueOne(s0: State, it: Item) returns (ss: seq<State>, acts: seq<Action>)
    requires Init(s0) && it.writer in s0.user
    ensures IsRun(ss, acts) && ss[0] == s0
    ensures var s := ss[|acts|];
            s.queue == [it] && s.worker == Waiting && s.pending == 1 && s.slots >= 1 && s.errors == 0
            && s.flight == map[] && s.callbacks == map[]
  {
    ss, acts := [s0], [];
    ss, acts := Extend(ss, acts, Accept(it));
    ss, acts := Extend(ss, acts, Push(it.writer));
    ss, acts := Extend(ss, acts, Release(it.writer));
  }

  lemma SendOne(ss0: seq<State>, acts0: seq<Action>, it: Item) returns (ss: seq<State>, acts: seq<Action>)
    requires IsRun(ss0, acts0)
    requires var s := ss0[|acts0|];
             s.queue == [it] && s.worker == Waiting && s.pending == 1 && s.slots >= 1 && s.errors == 0
             && s.flight == map[] && s.callbacks == map[]
    ensures IsRun(ss, acts) && ss[0] == ss0[0] && OnlyInFlight(ss[|acts|], it, 0)
  {
    ss, acts := Extend(ss0, acts0, Wake);
    ss, acts := Extend(ss, acts, Count);
    ss, acts := Extend(ss, acts, Pop);
    ss, acts := Extend(ss, acts, Slot);
    ss, acts := Extend(ss, acts, Send);
  }

  lemma RetryOnce(ss0: seq<State>, acts0: seq<Action>, it: Item, n: nat) returns (ss: seq<State>, acts: seq<Action>)
    requires IsRun(ss0, acts0) && OnlyInFlight(ss0[|acts0|], it, n) && n < MAX_ERRORS
    ensures IsRun(ss, acts) && ss[0] == ss0[0] && OnlyInFlight(ss[|acts|], it, n + 1)
  {
    ss, acts := Extend(ss0, acts0, Fail(it));
    ss, acts := Extend(ss, acts, CountError(it));
    ss, acts := Extend(ss, acts, RetrySlot(it));
    ss, acts := Extend(ss, acts, RetrySend(it));
  }

  /** Any write can be given up: it fails until the error budget is spent. */
  lemma AbortReachable(s0: State, it: Item) returns (ss: seq<State>, acts: seq<Action>)
    requires Init(s0) && it.writer in s0.user
    ensures IsRun(ss, acts) && ss[0] == s0 && it in ss[|acts|].aborted
  {
    ss, acts := QueueOne(s0, it);
    ss, acts := SendOne(ss, acts, it);
    for n := 0 to MAX_ERRORS
      invariant IsRun(ss, acts) && ss[0] == s0 && OnlyInFlight(ss[|acts|], it, n)
    {
      ss, acts := RetryOnce(ss, acts, it, n);
    }
    ss, acts := Extend(ss, acts, Fail(it));
    ss, acts := Extend(ss, acts, CountError(it));
    ss, acts := Extend(ss, acts, AbortDone(it));
  }
}
