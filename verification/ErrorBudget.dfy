/** The error budget that all requests share: how many failures there were, and how many
    writes they cost. */
module ErrorBudget {
  import opened WriterProtocol
  import opened WriterRuns

  /** Failed requests among the steps. */
  function Failures(acts: seq<Action>): nat {
    if acts == [] then 0
    else (if acts[|acts| - 1].Fail? then 1 else 0) + Failures(acts[..|acts| - 1])
  }

  /** Requests whose failure has not been counted yet. */
  ghost function Uncounted(s: State): set<Item> {
    set it | it in s.callbacks && s.callbacks[it] == Failed
  }

  /** Requests given up, or about to be. */
  ghost function GivenUp(s: State): set<Item> {
    s.aborted + set it | it in s.callbacks && s.callbacks[it] == Aborting
  }

  function Excess(n: nat): nat { if n > MAX_ERRORS then n - MAX_ERRORS else 0 }

  /** Every failure was counted or waits to be, and every one counted beyond the budget
      costs one write. */
  ghost predicate Budgeted(s: State, failures: nat) {
    s.errors + |Uncounted(s)| == failures && |GivenUp(s)| == Excess(s.errors)
  }

  predicate TouchesCallbacks(a: Action) {
    a.Succeed? || a.Fail? || a.RetrySend? || IsCallbackStep(a)
  }

  lemma QuietStep(s: State, a: Action)
    requires Enabled(s, a) && !TouchesCallbacks(a)
    ensures Apply(s, a).callbacks == s.callbacks && Apply(s, a).aborted == s.aborted
  {}

  lemma UncountedStep(s: State, a: Action)
    requires Conserved(s) && Enabled(s, a)
    ensures a.Fail? ==> a.it !in Uncounted(s) && Uncounted(Apply(s, a)) == Uncounted(s) + {a.it}
    ensures a.CountError? ==> a.it in Uncounted(s) && Uncounted(Apply(s, a)) == Uncounted(s) - {a.it}
    ensures !a.Fail? && !a.CountError? ==> Uncounted(Apply(s, a)) == Uncounted(s)
  {
    if a.Fail? || a.Succeed? {
      assert Places(s, a.it) == One(a.it in s.accepted);
      UncountedNew(s, a);
    } else if !TouchesCallbacks(a) {
      QuietStep(s, a);
    } else {
      UncountedOld(s, a);
    }
  }

  lemma UncountedNew(s: State, a: Action)
    requires Enabled(s, a) && (a.Fail? || a.Succeed?) && Places(s, a.it) == One(a.it in s.accepted)
    ensures a.Fail? ==> a.it !in Uncounted(s) && Uncounted(Apply(s, a)) == Uncounted(s) + {a.it}
    ensures a.Succeed? ==> Uncounted(Apply(s, a)) == Uncounted(s)
  {}

  lemma UncountedOld(s: State, a: Action)
    requires Enabled(s, a) && TouchesCallbacks(a) && !a.Fail? && !a.Succeed?
    ensures a.CountError? ==> a.it in Uncounted(s) && Uncounted(Apply(s, a)) == Uncounted(s) - {a.it}
    ensures !a.CountError? ==> Uncounted(Apply(s, a)) == Uncounted(s)
  {}

  lemma GivenUpStep(s: State, a: Action)
    requires Conserved(s) && Enabled(s, a)
    ensures a.CountError? && s.errors + 1 > MAX_ERRORS ==>
              a.it !in GivenUp(s) && GivenUp(Apply(s, a)) == GivenUp(s) + {a.it}
    ensures !(a.CountError? && s.errors + 1 > MAX_ERRORS) ==> GivenUp(Apply(s, a)) == GivenUp(s)
  {
    if a.Fail? || a.Succeed? || a.CountError? {
      assert Places(s, a.it) == One(a.it in s.accepted);
      GivenUpNew(s, a);
    } else if TouchesCallbacks(a) {
      GivenUpOld(s, a);
    } else {
      QuietStep(s, a);
    }
  }

  lemma GivenUpNew(s: State, a: Action)
    requires Enabled(s, a) && (a.Fail? || a.Succeed? || a.CountError?)
    requires Places(s, a.it) == One(a.it in s.accepted)
    ensures a.CountError? && s.errors + 1 > MAX_ERRORS ==>
              a.it !in GivenUp(s) && GivenUp(Apply(s, a)) == GivenUp(s) + {a.it}
    ensures !(a.CountError? && s.errors + 1 > MAX_ERRORS) ==> GivenUp(Apply(s, a)) == GivenUp(s)
  {}

  lemma GivenUpOld(s: State, a: Action)
    requires Enabled(s, a) && TouchesCallbacks(a) && !(a.Fail? || a.Succeed? || a.CountError?)
    ensures GivenUp(Apply(s, a)) == GivenUp(s)
  {}

  lemma ErrorsStep(s: State, a: Action)
    requires Enabled(s, a)
    ensures Apply(s, a).errors == s.errors + if a.CountError? then 1 else 0
  {}

  lemma BudgetedStep(s: State, a: Action, failures: nat)
    requires Conserved(s) && Enabled(s, a) && Budgeted(s, failures)
    ensures Budgeted(Apply(s, a), failures + if a.Fail? then 1 else 0)
  {
    UncountedStep(s, a);
    GivenUpStep(s, a);
    ErrorsStep(s, a);
    var n := Apply(s, a);
    if a.Fail? {
      SetPlus(Uncounted(s), Uncounted(n), a.it);
    } else if a.CountError? {
      SetMinus(Uncounted(s), Uncounted(n), a.it);
      if s.errors + 1 > MAX_ERRORS { SetPlus(GivenUp(s), GivenUp(n), a.it); }
    }
  }

  lemma StartBudgeted(s: State)
    requires Init(s)
    ensures Budgeted(s, 0)
  {
    assert Uncounted(s) == {} && GivenUp(s) == {};
  }

  lemma OneMore(acts: seq<Action>, i: nat)
    requires i < |acts|
    ensures Failures(acts[..i + 1]) == Failures(acts[..i]) + if acts[i].Fail? then 1 else 0
  {
    assert acts[..i + 1][..i] == acts[..i];
  }

  lemma RunConserved(ss: seq<State>, acts: seq<Action>, i: nat)
    requires IsRun(ss, acts) && i < |acts| && Init(ss[0])
    ensures Conserved(ss[i]) && Enabled(ss[i], acts[i]) && ss[i + 1] == Apply(ss[i], acts[i])
  {
    InitInv(ss[0]);
    RunInv(ss, acts, i);
  }

  /** In every run: the errors counted and the failures not counted yet are the failures,
      and every error beyond the budget of ten has given up one write. */
  lemma {:induction false} BudgetExact(ss: seq<State>, acts: seq<Action>, i: nat)
    requires IsRun(ss, acts) && i < |ss| && Init(ss[0])
    ensures Budgeted(ss[i], Failures(acts[..i]))
  {
    if i == 0 {
      StartBudgeted(ss[0]);
    } else {
      BudgetExact(ss, acts, i - 1);
      OneMore(acts, i - 1);
      RunConserved(ss, acts, i - 1);
      BudgetedStep(ss[i - 1], acts[i - 1], Failures(acts[..i - 1]));
    }
  }

  /** A run with at most ten failures gives up nothing. */
  lemma FewFailures(ss: seq<State>, acts: seq<Action>, i: nat)
    requires IsRun(ss, acts) && i < |ss| && Init(ss[0]) && Failures(acts[..i]) <= MAX_ERRORS
    ensures ss[i].aborted == {}
  {
    BudgetExact(ss, acts, i);
    assert GivenUp(ss[i]) == {};
  }

  /** A run that has come to rest has given up exactly one write for every failure beyond
      ten. */
  lemma SettledCost(ss: seq<State>, acts: seq<Action>)
    requires IsRun(ss, acts) && Init(ss[0]) && Settled(ss[|acts|])
    ensures |ss[|acts|].aborted| == Excess(Failures(acts))
  {
    BudgetExact(ss, acts, |acts|);
    var s := ss[|acts|];
    assert acts[..|acts|] == acts;
    assert Uncounted(s) == {} && GivenUp(s) == s.aborted;
  }
}
