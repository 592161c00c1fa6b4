/** Which write of a key gives way to which: the order of issue, over every run of the
    asynchronous write path. */
module WriteOrder {
  import opened WriterProtocol
  import opened WriterRuns

  type Place = (nat, Key) // writer and key

  function At(it: Item): Place { (it.writer, it.key) }

  /** A call that issues a write, eager or lazy. */
  predicate Issues(a: Action) { a.Accept? || a.AcceptLazy? }

  predicate IssuesAt(a: Action, p: Place) { Issues(a) && At(a.it) == p }

  // ------------------------------------------------- what the past steps tell

  /** The last switch of writer `w`, if any, was to lazy writes. */
  predicate SwitchedOn(acts: seq<Action>, w: nat) {
    if acts == [] then false
    else
      var a := acts[|acts| - 1];
      a == EnableLazy(w) || (a != DisableLazy(w) && SwitchedOn(acts[..|acts| - 1], w))
  }

  ghost predicate IssuedIn(acts: seq<Action>, it: Item, j: nat) {
    j < |acts| && Issues(acts[j]) && acts[j].it == it
  }

  ghost predicate EverIssued(acts: seq<Action>, it: Item) {
    exists j: nat :: IssuedIn(acts, it, j)
  }

  /** Step `j` issued `it` lazily, and no flush has taken it since. */
  ghost predicate Kept(acts: seq<Action>, it: Item, j: nat) {
    j < |acts| && acts[j] == AcceptLazy(it) && forall m :: j < m < |acts| ==> acts[m] != FlushNext(it)
  }

  ghost predicate EverKept(acts: seq<Action>, it: Item) {
    exists j: nat :: Kept(acts, it, j)
  }

  /** Besides, nothing has been issued at its place since. */
  ghost predicate Waits(acts: seq<Action>, it: Item, j: nat) {
    Kept(acts, it, j) && forall m :: j < m < |acts| ==> !IssuesAt(acts[m], At(it))
  }

  ghost predicate EverWaits(acts: seq<Action>, it: Item) {
    exists j: nat :: Waits(acts, it, j)
  }

  /** Step `k` issued another write at the place of `it`, which step `j` had issued and
      no flush had taken. */
  ghost predicate Replaced(acts: seq<Action>, it: Item, j: nat, k: nat) {
    k < |acts| && Kept(acts[..k], it, j) && acts[k].AcceptLazy? && At(acts[k].it) == At(it)
  }

  ghost predicate EverReplaced(acts: seq<Action>, it: Item) {
    exists j: nat, k: nat :: Replaced(acts, it, j, k)
  }

  /** `x` was issued before `y`. */
  ghost predicate Before(acts: seq<Action>, x: Item, y: Item) {
    exists j: nat, k: nat :: IssuedIn(acts, x, j) && IssuedIn(acts, y, k) && j < k
  }

  /** Step `j` began a flush of writer `w`, which has issued nothing since. */
  ghost predicate Flushed(acts: seq<Action>, w: nat, j: nat) {
    j < |acts| && acts[j] == StartFlush(w) && forall m :: j < m < |acts| ==> !IssuesOf(acts[m], w)
  }

  predicate IssuesOf(a: Action, w: nat) { Issues(a) && a.it.writer == w }

  ghost predicate EverFlushed(acts: seq<Action>, w: nat) {
    exists j: nat :: Flushed(acts, w, j)
  }

  lemma FlushedStep(acts: seq<Action>, a: Action, w: nat)
    ensures EverFlushed(acts + [a], w) ==> a == StartFlush(w) || (EverFlushed(acts, w) && !IssuesOf(a, w))
  {
    var longer := acts + [a];
    if j: nat :| Flushed(longer, w, j) {
      if j < |acts| {
        assert longer[|acts|] == a;
        forall m | j <= m < |acts| ensures acts[m] == longer[m] {}
        assert Flushed(acts, w, j);
      }
    }
  }

  lemma IssuedStep(acts: seq<Action>, a: Action, it: Item)
    ensures EverIssued(acts + [a], it) <==> EverIssued(acts, it) || (Issues(a) && a.it == it)
  {
    var longer := acts + [a];
    if j: nat :| IssuedIn(longer, it, j) {
      if j < |acts| { assert IssuedIn(acts, it, j); }
    }
    if j: nat :| IssuedIn(acts, it, j) { assert IssuedIn(longer, it, j); }
    if Issues(a) && a.it == it { assert IssuedIn(longer, it, |acts|); }
  }

  lemma KeptStep(acts: seq<Action>, a: Action, it: Item)
    ensures EverKept(acts + [a], it) <==> a == AcceptLazy(it) || (EverKept(acts, it) && a != FlushNext(it))
  {
    var longer := acts + [a];
    if a == AcceptLazy(it) {
      assert Kept(longer, it, |acts|);
    } else if j: nat :| Kept(longer, it, j) {
      assert longer[|acts|] == a;
      forall m | j <= m < |acts| ensures acts[m] == longer[m] {}
      assert Kept(acts, it, j);
    }
    if a != FlushNext(it) {
      if j: nat :| Kept(acts, it, j) { assert Kept(longer, it, j); }
    }
  }

  lemma WaitsStep(acts: seq<Action>, a: Action, it: Item)
    ensures EverWaits(acts + [a], it) <==>
            a == AcceptLazy(it) || (EverWaits(acts, it) && a != FlushNext(it) && !IssuesAt(a, At(it)))
  {
    var longer := acts + [a];
    if a == AcceptLazy(it) {
      assert Waits(longer, it, |acts|);
    } else if j: nat :| Waits(longer, it, j) {
      assert longer[|acts|] == a;
      forall m | j < m < |acts| ensures acts[m] != FlushNext(it) && !IssuesAt(acts[m], At(it)) {
        assert longer[m] == acts[m];
      }
      assert Waits(acts, it, j);
    }
    if a != FlushNext(it) && !IssuesAt(a, At(it)) {
      if j: nat :| Waits(acts, it, j) { assert Waits(longer, it, j); }
    }
  }

  lemma ReplacedStep(acts: seq<Action>, a: Action, it: Item)
    ensures EverReplaced(acts + [a], it) <==>
            EverReplaced(acts, it) || (a.AcceptLazy? && At(a.it) == At(it) && EverKept(acts, it))
  {
    var longer := acts + [a];
    if j: nat, k: nat :| Replaced(longer, it, j, k) {
      if k < |acts| {
        assert longer[..k] == acts[..k];
        assert Replaced(acts, it, j, k);
      } else {
        assert longer[..k] == acts;
      }
    }
    if j: nat, k: nat :| Replaced(acts, it, j, k) {
      assert longer[..k] == acts[..k];
      assert Replaced(longer, it, j, k);
    }
    if a.AcceptLazy? && At(a.it) == At(it) {
      if j: nat :| Kept(acts, it, j) {
        assert longer[..|acts|] == acts;
        assert Replaced(longer, it, j, |acts|);
      }
    }
  }

  lemma BeforeGrows(acts: seq<Action>, a: Action, x: Item, y: Item)
    requires Before(acts, x, y)
    ensures Before(acts + [a], x, y)
  {
    var j: nat, k: nat :| IssuedIn(acts, x, j) && IssuedIn(acts, y, k) && j < k;
    assert IssuedIn(acts + [a], x, j) && IssuedIn(acts + [a], y, k);
  }

  lemma NewestLast(acts: seq<Action>, a: Action, x: Item)
    requires Issues(a) && EverIssued(acts, x)
    ensures Before(acts + [a], x, a.it)
  {
    var j: nat :| IssuedIn(acts, x, j);
    assert IssuedIn(acts + [a], x, j) && IssuedIn(acts + [a], a.it, |acts|);
  }

  // ------------------------------------------------------------ single steps

  ghost function DirtyAt(s: State, p: Place): set<Item> { if p in s.dirty then {s.dirty[p]} else {} }

  /** What a step does to the dirty block of a place. */
  ghost function DirtyAfter(s: State, a: Action, p: Place): set<Item> {
    if a.AcceptLazy? && At(a.it) == p then {a.it}
    else if a.FlushNext? && At(a.it) == p then {}
    else DirtyAt(s, p)
  }

  lemma DirtyStep(s: State, a: Action, p: Place)
    requires Enabled(s, a)
    ensures DirtyAt(Apply(s, a), p) == DirtyAfter(s, a, p)
    ensures a.FlushNext? ==> DirtyAt(s, At(a.it)) == {a.it}
  {}

  lemma DirtyIn(s: State, it: Item)
    ensures InDirty(s, it) <==> it in DirtyAt(s, At(it))
  {}

  lemma SupersededStep(s: State, a: Action)
    requires Enabled(s, a)
    ensures Apply(s, a).superseded == s.superseded + if a.AcceptLazy? then DirtyAt(s, At(a.it)) else {}
  {}

  lemma AcceptedStep(s: State, a: Action)
    requires Enabled(s, a)
    ensures Apply(s, a).accepted == s.accepted + if Issues(a) then {a.it} else {}
  {}

  lemma LazyStep(s: State, a: Action, w: nat)
    requires Enabled(s, a) && (HasDirty(s, w) ==> w in s.lazyOn)
    ensures w in Apply(s, a).lazyOn <==> a == EnableLazy(w) || (a != DisableLazy(w) && w in s.lazyOn)
    ensures HasDirty(Apply(s, a), w) ==> w in Apply(s, a).lazyOn
  {
    if HasDirty(Apply(s, a), w) {
      var p :| p in Apply(s, a).dirty && p.0 == w;
      assert p in s.dirty || a.AcceptLazy?;
    }
  }

  // ------------------------------------------------------ writers and writes

  /** Inside a flush, or past one that left nothing dirty. */
  ghost predicate Draining(s: State, w: nat) {
    w in s.user && match s.user[w]
                   case Idle => !HasDirty(s, w)
                   case Flushing => true
                   case Counted(_, flushing) => flushing
                   case Pushed(flushing) => flushing
  }

  lemma DrainingStep(s: State, a: Action, w: nat)
    requires Tidy(s) && Enabled(s, a)
    requires a == StartFlush(w) || (Draining(s, w) && !IssuesOf(a, w))
    ensures Draining(Apply(s, a), w)
  {
    var n := Apply(s, a);
    if HasDirty(n, w) {
      var p :| p in n.dirty && p.0 == w;
      assert p in s.dirty;
    }
  }

  /** A writer is lazy exactly after a switch to lazy writes, only a lazy writer has dirty
      blocks, and a flush leaves none. */
  ghost predicate ToldWriter(s: State, acts: seq<Action>, w: nat) {
    && (w in s.lazyOn <==> SwitchedOn(acts, w)) && (HasDirty(s, w) ==> w in s.lazyOn)
    && (EverFlushed(acts, w) ==> Draining(s, w))
  }

  /** What has been accepted, what is dirty and what was superseded. */
  ghost predicate ToldItem(s: State, acts: seq<Action>, it: Item) {
    && (it in s.accepted <==> EverIssued(acts, it))
    && (InDirty(s, it) <==> EverWaits(acts, it))
    && (EverKept(acts, it) ==> InDirty(s, it) || it in s.superseded)
    && (it in s.superseded <==> EverReplaced(acts, it))
  }

  lemma ToldWriterStep(s: State, acts: seq<Action>, a: Action, w: nat)
    requires Tidy(s) && Enabled(s, a) && ToldWriter(s, acts, w)
    ensures ToldWriter(Apply(s, a), acts + [a], w)
  {
    LazyStep(s, a, w);
    FlushedStep(acts, a, w);
    if EverFlushed(acts + [a], w) { DrainingStep(s, a, w); }
    assert (acts + [a])[..|acts|] == acts;
  }

  lemma ToldItemStep(s: State, acts: seq<Action>, a: Action, it: Item)
    requires Tidy(s) && Enabled(s, a) && ToldWriter(s, acts, it.writer) && ToldItem(s, acts, it)
    ensures ToldItem(Apply(s, a), acts + [a], it)
  {
    var n := Apply(s, a);
    IssuedStep(acts, a, it);
    KeptStep(acts, a, it);
    WaitsStep(acts, a, it);
    ReplacedStep(acts, a, it);
    AcceptedStep(s, a);
    DirtyStep(s, a, At(it));
    SupersededStep(s, a);
    DirtyIn(s, it);
    DirtyIn(n, it);
    EagerElsewhere(s, a, it);
    if a.AcceptLazy? && it in DirtyAt(s, At(a.it)) { OtherPlace(s, a, it); }
  }

  /** No eager write is issued at a place with a dirty block. */
  lemma EagerElsewhere(s: State, a: Action, it: Item)
    requires Enabled(s, a) && (HasDirty(s, it.writer) ==> it.writer in s.lazyOn)
    ensures InDirty(s, it) && IssuesAt(a, At(it)) ==> a.AcceptLazy?
  {}

  lemma OtherPlace(s: State, a: Action, it: Item)
    requires Tidy(s) && a.AcceptLazy? && it in DirtyAt(s, At(a.it))
    ensures At(a.it) == At(it)
  {}

  // -------------------------------------------------------- order of the queue

  /** Everything pushed at the place of `it` was issued before it. */
  ghost predicate PushedBefore(s: State, acts: seq<Action>, it: Item) {
    forall u :: 0 <= u < |s.pushed| && At(s.pushed[u]) == At(it) ==> Before(acts, s.pushed[u], it)
  }

  /** What was pushed at one place is in the order of issue. */
  ghost predicate PushedOrder(s: State, acts: seq<Action>) {
    forall u, v :: 0 <= u < v < |s.pushed| && At(s.pushed[u]) == At(s.pushed[v]) ==>
      Before(acts, s.pushed[u], s.pushed[v])
  }

  /** A request on its way to the queue comes after all pushed at its place, and a dirty
      block after both. */
  ghost predicate PendingOrder(s: State, acts: seq<Action>) {
    && (forall w :: w in s.user && s.user[w].Counted? ==> PushedBefore(s, acts, s.user[w].it))
    && (forall p :: p in s.dirty ==> PushedBefore(s, acts, s.dirty[p]))
    && (forall p :: p in s.dirty && p.0 in s.user && s.user[p.0].Counted? && At(s.user[p.0].it) == p ==>
          Before(acts, s.user[p.0].it, s.dirty[p]))
  }

  ghost predicate QueueOrder(s: State, acts: seq<Action>) {
    PushedOrder(s, acts) && PendingOrder(s, acts) && forall x :: x in s.pushed ==> x in s.accepted
  }

  lemma OrderGrows(s: State, acts: seq<Action>, a: Action)
    requires QueueOrder(s, acts)
    ensures QueueOrder(s, acts + [a])
  {
    var longer := acts + [a];
    forall u, v | 0 <= u < v < |s.pushed| && At(s.pushed[u]) == At(s.pushed[v])
      ensures Before(longer, s.pushed[u], s.pushed[v])
    {
      BeforeGrows(acts, a, s.pushed[u], s.pushed[v]);
    }
    forall it | PushedBefore(s, acts, it) ensures PushedBefore(s, longer, it) { PushedGrows(s, acts, a, it); }
    forall p | p in s.dirty && p.0 in s.user && s.user[p.0].Counted? && At(s.user[p.0].it) == p
      ensures Before(longer, s.user[p.0].it, s.dirty[p])
    {
      BeforeGrows(acts, a, s.user[p.0].it, s.dirty[p]);
    }
  }

  lemma PushedGrows(s: State, acts: seq<Action>, a: Action, it: Item)
    requires PushedBefore(s, acts, it)
    ensures PushedBefore(s, acts + [a], it)
  {
    forall u | 0 <= u < |s.pushed| && At(s.pushed[u]) == At(it) ensures Before(acts + [a], s.pushed[u], it) {
      BeforeGrows(acts, a, s.pushed[u], it);
    }
  }

  lemma NewIssue(s: State, acts: seq<Action>, a: Action)
    requires (forall x :: ToldItem(s, acts, x)) && Issues(a) && forall x :: x in s.pushed ==> x in s.accepted
    ensures PushedBefore(s, acts + [a], a.it)
  {
    forall u | 0 <= u < |s.pushed| && At(s.pushed[u]) == At(a.it) ensures Before(acts + [a], s.pushed[u], a.it) {
      assert s.pushed[u] in s.pushed && ToldItem(s, acts, s.pushed[u]);
      NewestLast(acts, a, s.pushed[u]);
    }
  }

  lemma OrderIssue(s: State, acts: seq<Action>, a: Action)
    requires Tidy(s) && Told(s, acts) && Enabled(s, a) && Issues(a)
    ensures QueueOrder(Apply(s, a), acts + [a])
  {
    OrderGrows(s, acts, a);
    NewIssue(s, acts, a);
    var n, longer := Apply(s, a), acts + [a];
    assert ToldWriter(s, acts, a.it.writer);
    forall it | PushedBefore(s, longer, it) ensures PushedBefore(n, longer, it) {}
    assert PushedOrder(n, longer);
  }

  lemma OrderFlush(s: State, acts: seq<Action>, it: Item)
    requires QueueOrder(s, acts) && Enabled(s, FlushNext(it))
    ensures QueueOrder(Apply(s, FlushNext(it)), acts)
  {
    var n := Apply(s, FlushNext(it));
    forall x | PushedBefore(s, acts, x) ensures PushedBefore(n, acts, x) {}
    assert PushedOrder(n, acts);
  }

  lemma OrderPush(s: State, acts: seq<Action>, w: nat)
    requires Tidy(s) && QueueOrder(s, acts) && Enabled(s, Push(w)) && s.user[w].it in s.accepted
    ensures QueueOrder(Apply(s, Push(w)), acts)
  {
    var n, it := Apply(s, Push(w)), s.user[w].it;
    forall u, v | 0 <= u < v < |n.pushed| && At(n.pushed[u]) == At(n.pushed[v])
      ensures Before(acts, n.pushed[u], n.pushed[v])
    {
      assert PushedBefore(s, acts, it);
    }
    forall p | p in n.dirty ensures PushedBefore(n, acts, n.dirty[p]) {
      assert PushedBefore(s, acts, s.dirty[p]);
    }
    forall v | v in n.user && n.user[v].Counted? ensures PushedBefore(n, acts, n.user[v].it) {
      assert PushedBefore(s, acts, s.user[v].it);
    }
  }

  lemma OrderElse(s: State, acts: seq<Action>, a: Action)
    requires QueueOrder(s, acts) && Enabled(s, a) && !Issues(a) && !a.FlushNext? && !a.Push?
    ensures QueueOrder(Apply(s, a), acts)
  {
    NothingQueued(s, a);
    var n := Apply(s, a);
    forall x | PushedBefore(s, acts, x) ensures PushedBefore(n, acts, x) {}
    assert PushedOrder(n, acts);
  }

  lemma NothingQueued(s: State, a: Action)
    requires Enabled(s, a) && !Issues(a) && !a.FlushNext? && !a.Push?
    ensures var n := Apply(s, a);
            && n.pushed == s.pushed && n.dirty == s.dirty && n.accepted == s.accepted
            && forall w :: w in n.user && n.user[w].Counted? ==> w in s.user && n.user[w] == s.user[w]
  {}

  // --------------------------------------------------------------------- runs

  ghost predicate Told(s: State, acts: seq<Action>) {
    && (forall w :: ToldWriter(s, acts, w))
    && (forall it :: ToldItem(s, acts, it))
    && QueueOrder(s, acts)
  }

  lemma OrderStep(s: State, acts: seq<Action>, a: Action)
    requires Tidy(s) && Conserved(s) && Told(s, acts) && Enabled(s, a)
    ensures QueueOrder(Apply(s, a), acts + [a])
  {
    OrderGrows(s, acts, a);
    if Issues(a) {
      OrderIssue(s, acts, a);
    } else if a.FlushNext? {
      OrderFlush(s, acts + [a], a.it);
    } else if a.Push? {
      assert Places(s, s.user[a.w].it) == One(s.user[a.w].it in s.accepted);
      OrderPush(s, acts + [a], a.w);
    } else {
      OrderElse(s, acts + [a], a);
    }
  }

  lemma ToldStep(s: State, acts: seq<Action>, a: Action)
    requires Tidy(s) && Conserved(s) && Told(s, acts) && Enabled(s, a)
    ensures Told(Apply(s, a), acts + [a])
  {
    forall w: nat ensures ToldWriter(Apply(s, a), acts + [a], w) {
      assert ToldWriter(s, acts, w);
      ToldWriterStep(s, acts, a, w);
    }
    forall it: Item ensures ToldItem(Apply(s, a), acts + [a], it) {
      assert ToldWriter(s, acts, it.writer) && ToldItem(s, acts, it);
      ToldItemStep(s, acts, a, it);
    }
    OrderStep(s, acts, a);
  }

  lemma StartTold(s: State)
    requires Init(s)
    ensures Told(s, [])
  {}

  lemma OneMore(acts: seq<Action>, i: nat)
    requires i < |acts|
    ensures acts[..i + 1] == acts[..i] + [acts[i]]
  {}

  lemma StepReady(ss: seq<State>, acts: seq<Action>, i: nat)
    requires IsRun(ss, acts) && i < |acts| && Init(ss[0])
    ensures Tidy(ss[i]) && Conserved(ss[i]) && Enabled(ss[i], acts[i]) && ss[i + 1] == Apply(ss[i], acts[i])
  {
    InitInv(ss[0]);
    RunInv(ss, acts, i);
  }

  lemma {:induction false} RunTold(ss: seq<State>, acts: seq<Action>, i: nat)
    requires IsRun(ss, acts) && i < |ss| && Init(ss[0])
    ensures Told(ss[i], acts[..i])
  {
    if i == 0 {
      StartTold(ss[0]);
    } else {
      RunTold(ss, acts, i - 1);
      StepReady(ss, acts, i - 1);
      OneMore(acts, i - 1);
      ToldStep(ss[i - 1], acts[..i - 1], acts[i - 1]);
    }
  }

  /** In every run a write is dirty exactly when it was the last one issued at its place,
      lazily, and no flush has taken it; only a writer switched to lazy writes has any. */
  lemma DirtyExactly(ss: seq<State>, acts: seq<Action>, i: nat, it: Item)
    requires IsRun(ss, acts) && i < |ss| && Init(ss[0])
    ensures InDirty(ss[i], it) <==> EverWaits(acts[..i], it)
    ensures InDirty(ss[i], it) ==> SwitchedOn(acts[..i], it.writer)
  {
    RunTold(ss, acts, i);
    assert ToldItem(ss[i], acts[..i], it) && ToldWriter(ss[i], acts[..i], it.writer);
    if InDirty(ss[i], it) { assert HasDirty(ss[i], it.writer); }
  }

  /** In every run a write is superseded exactly when a later lazy write of the same writer
      and key was issued while it waited: the newer value always replaces the older. */
  lemma SupersededExactly(ss: seq<State>, acts: seq<Action>, i: nat, it: Item)
    requires IsRun(ss, acts) && i < |ss| && Init(ss[0])
    ensures it in ss[i].superseded <==> EverReplaced(acts[..i], it)
  {
    RunTold(ss, acts, i);
    assert ToldItem(ss[i], acts[..i], it);
  }

  /** The writes of one key enter the queue in the order in which they were issued, lazy
      and eager ones alike, however the writer is switched between the two. */
  lemma QueueKeepsOrder(ss: seq<State>, acts: seq<Action>, i: nat, u: nat, v: nat)
    requires IsRun(ss, acts) && i < |ss| && Init(ss[0])
    requires u < v < |ss[i].pushed| && At(ss[i].pushed[u]) == At(ss[i].pushed[v])
    ensures Before(acts[..i], ss[i].pushed[u], ss[i].pushed[v])
  {
    RunTold(ss, acts, i);
  }

  /** A write is issued at most once. */
  lemma IssuedOnce(ss: seq<State>, acts: seq<Action>, j: nat, k: nat)
    requires IsRun(ss, acts) && Init(ss[0]) && j < k < |acts| && Issues(acts[j]) && Issues(acts[k])
    ensures acts[j].it != acts[k].it
  {
    RunTold(ss, acts, k);
    assert ToldItem(ss[k], acts[..k], acts[j].it);
    assert IssuedIn(acts[..k], acts[j].it, j);
  }

  /** When a writer reports completion, the last write issued of each of its keys, lazy or
      eager, has been acknowledged: no newest value is lost. */
  lemma LastWriteAcked(ss: seq<State>, acts: seq<Action>, i: nat, j: nat, it: Item)
    requires IsRun(ss, acts) && i < |ss| && Init(ss[0]) && Completed(ss[i], it.writer)
    requires IssuedIn(acts[..i], it, j) && forall m :: j < m < i ==> !IssuesAt(acts[m], At(it))
    ensures it in ss[i].acked
  {
    InitInv(ss[0]);
    RunInv(ss, acts, i);
    RunTold(ss, acts, i);
    assert ToldItem(ss[i], acts[..i], it);
    CompletedIff(ss[i], it.writer);
    if it in ss[i].superseded {
      var j': nat, k: nat :| Replaced(acts[..i], it, j', k);
      LaterIssue(acts, i, it, j', k);
      if j < j' { IssuedOnce(ss, acts, j, j'); } else if j' < j { IssuedOnce(ss, acts, j', j); }
    }
  }

  lemma LaterIssue(acts: seq<Action>, i: nat, it: Item, j: nat, k: nat)
    requires i <= |acts| && Replaced(acts[..i], it, j, k)
    ensures j < k < i && acts[j] == AcceptLazy(it) && IssuesAt(acts[k], At(it))
  {
    assert acts[..i][..k][j] == acts[j] && acts[..i][k] == acts[k];
  }

  // ------------------------------------------------------------------ flushes

  /** In every run a writer is lazy exactly after a switch to lazy writes. */
  lemma LazyExactly(ss: seq<State>, acts: seq<Action>, i: nat, w: nat)
    requires IsRun(ss, acts) && i < |ss| && Init(ss[0])
    ensures w in ss[i].lazyOn <==> SwitchedOn(acts[..i], w)
  {
    RunTold(ss, acts, i);
    assert ToldWriter(ss[i], acts[..i], w);
  }

  /** flush_dirty_blocks leaves nothing dirty: when the call has returned and nothing was
      issued since it began, the writer has no dirty block. */
  lemma FlushDrains(ss: seq<State>, acts: seq<Action>, i: nat, w: nat)
    requires IsRun(ss, acts) && i < |ss| && Init(ss[0]) && EverFlushed(acts[..i], w)
    ensures w in ss[i].user && (ss[i].user[w] == Idle ==> !HasDirty(ss[i], w))
  {
    RunTold(ss, acts, i);
    assert ToldWriter(ss[i], acts[..i], w);
  }

  /** Two lazy writes of one key and a flush: only the newer one is queued. */
  lemma CoalescedRun(s0: State, x: Item, y: Item) returns (ss: seq<State>, acts: seq<Action>)
    requires Init(s0) && x.writer in s0.user && At(x) == At(y) && x != y
    ensures IsRun(ss, acts) && ss[0] == s0
    ensures var s := ss[|acts|];
            && s.superseded == {x} && s.pushed == s.queue == [y] && s.dirty == map[] && s.lazyOn == {}
            && x.writer in s.user && s.user[x.writer] == Idle
  {
    ss, acts := BothDirty(s0, x, y);
    ss, acts := OneTaken(ss, acts, x, y);
    ss, acts := Extend(ss, acts, Push(x.writer));
    ss, acts := Extend(ss, acts, Release(x.writer));
    ss, acts := Extend(ss, acts, EndFlush(x.writer));
    ss, acts := Extend(ss, acts, DisableLazy(x.writer));
  }

  lemma OneTaken(ss0: seq<State>, acts0: seq<Action>, x: Item, y: Item) returns (ss: seq<State>, acts: seq<Action>)
    requires IsRun(ss0, acts0) && At(x) == At(y)
    requires var s := ss0[|acts0|]; x.writer in s.user && s.user[x.writer] == Idle && s.dirty == map[At(y) := y]
    requires ss0[|acts0|].lazyOn == {x.writer}
    ensures IsRun(ss, acts) && ss[0] == ss0[0]
    ensures var s, n := ss0[|acts0|], ss[|acts|];
            && n == s.(dirty := map[], user := s.user[x.writer := Counted(y, true)], writerCount := n.writerCount)
  {
    ss, acts := Extend(ss0, acts0, StartFlush(x.writer));
    ss, acts := Extend(ss, acts, FlushNext(y));
    assert ss[|acts|].dirty == map[];
  }

  lemma BothDirty(s0: State, x: Item, y: Item) returns (ss: seq<State>, acts: seq<Action>)
    requires Init(s0) && x.writer in s0.user && At(x) == At(y) && x != y
    ensures IsRun(ss, acts) && ss[0] == s0
    ensures var s := ss[|acts|];
            s == s0.(lazyOn := {x.writer}, dirty := map[At(y) := y], accepted := {x, y}, superseded := {x})
  {
    ss, acts := [s0], [];
    ss, acts := Extend(ss, acts, EnableLazy(x.writer));
    ss, acts := Extend(ss, acts, AcceptLazy(x));
    ss, acts := Extend(ss, acts, AcceptLazy(y));
  }
}
