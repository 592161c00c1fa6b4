/** The prefetching iterator: a producer thread fills a bounded queue with the rows
    of every token range, a consumer takes them out one call at a time. */
module Prefetch {
  type Row = nat
  type Results = seq<seq<Row>> // what the query of each token range returns

  const MAX_TRIES: nat := 10

  datatype Producer =
    | Fetching(range: nat, tries: nat) // the query of a range is under way
    | Pushing(range: nat, row: nat)    // rows before `row` of the range are pushed
    | Completing                       // about to set completed
    | Aborting                         // about to abort the queue
    | Finished

  datatype Consumer =
    | Outside                          // no call under way
    | Called                           // about to read completed
    | SawCompleted                     // about to look whether the queue is empty
    | AtPop                            // about to call pop
    | Popping(seen: nat)               // pop noted the abort counter
    | Waiting(seen: nat)               // pop found the queue empty
    | Caught                           // pop threw

  datatype State = State(
    producer: Producer,
    consumer: Consumer,
    queue: seq<Row>,
    completed: bool,
    aborts: nat,          // the queue's abort counter
    sent: seq<Row>,       // history: rows pushed
    returned: seq<Row>,   // history: rows that calls returned
    ended: bool,          // history: a call returned NULL
    gaveUp: bool,         // history: a query failed too often
    sawFalse: bool)       // history: the last read of completed gave false

  datatype Event =
    | FetchOk | FetchFail | Push | RangeDone | Complete | Abort
    | Call | ReadCompleted | ReadEmpty | BeginPop | Sleep | Take | Throw | CheckEmpty

  function Flat(rs: Results): seq<Row> {
    if rs == [] then [] else Flat(rs[..|rs| - 1]) + rs[|rs| - 1]
  }

  /** The range after the first `i`, or the end. */
  function Advance(rs: Results, i: nat): Producer {
    if i < |rs| then Fetching(i, 0) else Completing
  }

  function Start(rs: Results): State {
    State(Advance(rs, 0), Outside, [], false, 0, [], [], false, false, false)
  }

  predicate Enabled(rs: Results, cap: nat, s: State, e: Event) {
    match e
    case FetchOk => s.producer.Fetching?
    case FetchFail => s.producer.Fetching?
    case Push => s.producer.Pushing? && s.producer.range < |rs| && s.producer.row < |rs[s.producer.range]|
        && |s.queue| < cap
    case RangeDone => s.producer.Pushing? && s.producer.range < |rs| && s.producer.row == |rs[s.producer.range]|
    case Complete => s.producer.Completing?
    case Abort => s.producer.Aborting?
    case Call => s.consumer.Outside?
    case ReadCompleted => s.consumer.Called?
    case ReadEmpty => s.consumer.SawCompleted?
    case BeginPop => s.consumer.AtPop?
    case Sleep => s.consumer.Popping? && s.queue == []
    case Take => (s.consumer.Popping? || s.consumer.Waiting?) && s.queue != []
    case Throw => s.consumer.Waiting? && s.consumer.seen != s.aborts
    case CheckEmpty => s.consumer.Caught?
  }

  function Next(rs: Results, cap: nat, s: State, e: Event): State
    requires Enabled(rs, cap, s, e)
  {
    match e
    case FetchOk => s.(producer := Pushing(s.producer.range, 0))
    case FetchFail =>
      if s.producer.tries + 1 > MAX_TRIES then s.(producer := Completing, gaveUp := true)
      else s.(producer := Fetching(s.producer.range, s.producer.tries + 1))
    case Push =>
      var row := rs[s.producer.range][s.producer.row];
      s.(producer := Pushing(s.producer.range, s.producer.row + 1), queue := s.queue + [row], sent := s.sent + [row])
    case RangeDone => s.(producer := Advance(rs, s.producer.range + 1))
    case Complete => s.(producer := Aborting, completed := true)
    case Abort => s.(producer := Finished, aborts := s.aborts + 1)
    case Call => s.(consumer := Called)
    case ReadCompleted => s.(consumer := if s.completed then SawCompleted else AtPop, sawFalse := !s.completed)
    case ReadEmpty => if s.queue == [] then s.(consumer := Outside, ended := true) else s.(consumer := AtPop)
    case BeginPop => s.(consumer := Popping(s.aborts))
    case Sleep => s.(consumer := Waiting(s.consumer.seen))
    case Take => s.(consumer := Outside, queue := s.queue[1..], returned := s.returned + [s.queue[0]])
    case Throw => s.(consumer := Caught)
    case CheckEmpty => if s.queue == [] then s.(consumer := Outside, ended := true) else s.(consumer := Called)
  }

  // ---------------------------------------------------------------- invariant

  /** What the producer has pushed, by where it stands. */
  ghost predicate Sending(rs: Results, s: State) {
    match s.producer
    case Fetching(i, tries) => i < |rs| && tries <= MAX_TRIES && s.sent == Flat(rs[..i]) && !s.gaveUp
    case Pushing(i, j) => i < |rs| && j <= |rs[i]| && s.sent == Flat(rs[..i]) + rs[i][..j] && !s.gaveUp
    case _ => s.gaveUp || s.sent == Flat(rs)
  }

  ghost predicate Flags(s: State) {
    && s.completed == (s.producer.Aborting? || s.producer.Finished?)
    && s.aborts == (if s.producer.Finished? then 1 else 0)
    && (s.consumer.SawCompleted? ==> s.completed)
    && (s.consumer.Popping? || s.consumer.Waiting? ==> s.consumer.seen <= s.aborts)
    && (s.consumer.Caught? ==> s.aborts == 1)
    && (s.ended ==> s.completed && s.queue == [])
    && (!s.sawFalse && (s.consumer.AtPop? || s.consumer.Popping? || s.consumer.Waiting?) ==> s.queue != [])
  }

  ghost predicate Inv(rs: Results, cap: nat, s: State) {
    && s.returned + s.queue == s.sent && s.sent <= Flat(rs)
    && |s.queue| <= cap
    && Sending(rs, s) && Flags(s)
  }

  lemma {:induction false} FlatPrefix(rs: Results, i: nat)
    requires i <= |rs|
    ensures Flat(rs[..i]) <= Flat(rs)
  {
    if i == |rs| {
      assert rs[..i] == rs;
    } else {
      FlatPrefix(rs[..|rs| - 1], i);
      assert rs[..|rs| - 1][..i] == rs[..i];
    }
  }

  lemma FlatStep(rs: Results, i: nat)
    requires i < |rs|
    ensures Flat(rs[..i + 1]) == Flat(rs[..i]) + rs[i]
    ensures Flat(rs[..i]) + rs[i] <= Flat(rs)
  {
    assert rs[..i + 1][..i] == rs[..i];
    FlatPrefix(rs, i + 1);
  }

  lemma StartInv(rs: Results, cap: nat)
    ensures Inv(rs, cap, Start(rs))
  {
    assert rs[..0] == [];
  }

  lemma ProducerStep(rs: Results, cap: nat, s: State, e: Event)
    requires Inv(rs, cap, s) && Enabled(rs, cap, s, e)
    requires e.FetchOk? || e.FetchFail? || e.Push? || e.RangeDone? || e.Complete? || e.Abort?
    ensures Inv(rs, cap, Next(rs, cap, s, e))
  {
    if e.Push? {
      var i, j := s.producer.range, s.producer.row;
      FlatStep(rs, i);
      assert rs[i][..j] + [rs[i][j]] == rs[i][..j + 1];
      assert Flat(rs[..i]) + rs[i][..j + 1] <= Flat(rs[..i]) + rs[i];
    } else if e.RangeDone? {
      var i := s.producer.range;
      FlatStep(rs, i);
      assert rs[i][..|rs[i]|] == rs[i];
      if i + 1 == |rs| { assert rs[..i + 1] == rs; }
    }
  }

  lemma ConsumerStep(rs: Results, cap: nat, s: State, e: Event)
    requires Inv(rs, cap, s) && Enabled(rs, cap, s, e)
    requires !(e.FetchOk? || e.FetchFail? || e.Push? || e.RangeDone? || e.Complete? || e.Abort?)
    ensures Inv(rs, cap, Next(rs, cap, s, e))
  {
    if e.Take? {
      assert s.returned + s.queue == s.returned + [s.queue[0]] + s.queue[1..];
    }
  }

  lemma InvStep(rs: Results, cap: nat, s: State, e: Event)
    requires Inv(rs, cap, s) && Enabled(rs, cap, s, e)
    ensures Inv(rs, cap, Next(rs, cap, s, e))
  {
    if e.FetchOk? || e.FetchFail? || e.Push? || e.RangeDone? || e.Complete? || e.Abort? {
      ProducerStep(rs, cap, s, e);
    } else {
      ConsumerStep(rs, cap, s, e);
    }
  }

  // --------------------------------------------------------------------- runs

  ghost predicate IsRun(rs: Results, cap: nat, s: State, es: seq<Event>)
    decreases |es|
  {
    es == [] || (Enabled(rs, cap, s, es[0]) && IsRun(rs, cap, Next(rs, cap, s, es[0]), es[1..]))
  }

  ghost function After(rs: Results, cap: nat, s: State, es: seq<Event>): State
    requires IsRun(rs, cap, s, es)
    decreases |es|
  {
    if es == [] then s else After(rs, cap, Next(rs, cap, s, es[0]), es[1..])
  }

  lemma {:induction false} RunInv(rs: Results, cap: nat, s: State, es: seq<Event>)
    requires Inv(rs, cap, s) && IsRun(rs, cap, s, es)
    ensures Inv(rs, cap, After(rs, cap, s, es))
    decreases |es|
  {
    if es == [] {
    } else {
      InvStep(rs, cap, s, es[0]);
      RunInv(rs, cap, Next(rs, cap, s, es[0]), es[1..]);
    }
  }

  /** Failed queries of the range under way, `n` of them before the run. */
  function Failures(n: nat, es: seq<Event>): nat
    decreases |es|
  {
    if es == [] then n
    else Failures(if es[0].FetchFail? then n + 1 else if es[0].RangeDone? then 0 else n, es[1..])
  }

  /** Ranges finished, `n` of them before the run. */
  function RangesDone(n: nat, es: seq<Event>): nat
    decreases |es|
  {
    if es == [] then n else RangesDone(if es[0].RangeDone? then n + 1 else n, es[1..])
  }

  /** `fails` queries of the range after the first `done` have failed, and the producer
      has given up exactly when those are too many. */
  ghost predicate Counted(rs: Results, s: State, fails: nat, done: nat) {
    && (s.producer.Fetching? ==> s.producer.range == done && s.producer.tries == fails)
    && (s.producer.Pushing? ==> s.producer.range == done)
    && (s.gaveUp <==> fails > MAX_TRIES)
    && (s.gaveUp ==> !s.producer.Fetching? && !s.producer.Pushing? && done < |rs| && s.sent == Flat(rs[..done]))
    && (!s.gaveUp && !s.producer.Fetching? && !s.producer.Pushing? ==> done == |rs| && s.sent == Flat(rs))
  }

  lemma CountedStep(rs: Results, cap: nat, s: State, e: Event, fails: nat, done: nat)
    requires Inv(rs, cap, s) && Enabled(rs, cap, s, e) && Counted(rs, s, fails, done)
    ensures Counted(rs, Next(rs, cap, s, e),
                    if e.FetchFail? then fails + 1 else if e.RangeDone? then 0 else fails,
                    if e.RangeDone? then done + 1 else done)
  {
    InvStep(rs, cap, s, e);
  }

  lemma {:induction false} RunCounted(rs: Results, cap: nat, s: State, es: seq<Event>, fails: nat, done: nat)
    requires Inv(rs, cap, s) && IsRun(rs, cap, s, es) && Counted(rs, s, fails, done)
    ensures Counted(rs, After(rs, cap, s, es), Failures(fails, es), RangesDone(done, es))
    decreases |es|
  {
    if es == [] {
    } else {
      var e := es[0];
      InvStep(rs, cap, s, e);
      CountedStep(rs, cap, s, e, fails, done);
      RunCounted(rs, cap, Next(rs, cap, s, e), es[1..],
                 if e.FetchFail? then fails + 1 else if e.RangeDone? then 0 else fails,
                 if e.RangeDone? then done + 1 else done);
    }
  }

  /** The producer gives up exactly when more than ten queries of one range have failed. */
  lemma GivesUpExactly(rs: Results, cap: nat, es: seq<Event>)
    requires IsRun(rs, cap, Start(rs), es)
    ensures After(rs, cap, Start(rs), es).gaveUp <==> Failures(0, es) > MAX_TRIES
  {
    StartInv(rs, cap);
    assert rs == [] ==> Flat(rs) == [];
    RunCounted(rs, cap, Start(rs), es, 0, 0);
  }

  lemma {:induction false} NoFailures(es: seq<Event>)
    requires FetchFail !in es
    ensures Failures(0, es) == 0
    decreases |es|
  {
    if es == [] {
    } else {
      NoFailures(es[1..]);
    }
  }

  /** In every interleaving the rows returned so far are a prefix of the rows of all
      ranges, in order and without repeats.  NULL comes only after all the rows of the
      ranges that were finished; those are all ranges unless more than ten queries of one
      range failed, and in particular when none failed. */
  lemma DeliveredInOrder(rs: Results, cap: nat, es: seq<Event>)
    requires IsRun(rs, cap, Start(rs), es)
    ensures var s := After(rs, cap, Start(rs), es);
            && s.returned <= Flat(rs) && |s.queue| <= cap && (s.gaveUp <==> Failures(0, es) > MAX_TRIES)
            && (s.ended ==>
                  && RangesDone(0, es) <= |rs| && s.returned == s.sent == Flat(rs[..RangesDone(0, es)])
                  && (Failures(0, es) <= MAX_TRIES <==> RangesDone(0, es) == |rs|)
                  && (!s.gaveUp || FetchFail !in es ==> s.returned == Flat(rs)))
  {
    StartInv(rs, cap);
    RunInv(rs, cap, Start(rs), es);
    RunCounted(rs, cap, Start(rs), es, 0, 0);
    var s := After(rs, cap, Start(rs), es);
    if FetchFail !in es { NoFailures(es); }
    if s.ended {
      assert s.returned + [] == s.returned;
      assert rs[..|rs|] == rs;
    }
  }

  /** Once a call has returned NULL no later call returns a row. */
  lemma {:induction false} NullIsFinal(rs: Results, cap: nat, s: State, es: seq<Event>)
    requires Inv(rs, cap, s) && s.ended && IsRun(rs, cap, s, es)
    ensures After(rs, cap, s, es).ended && After(rs, cap, s, es).returned == s.returned
    decreases |es|
  {
    if es == [] {
    } else {
      InvStep(rs, cap, s, es[0]);
      NullIsFinal(rs, cap, Next(rs, cap, s, es[0]), es[1..]);
    }
  }

  // ----------------------------------------------------------------- progress

  function Work(rs: Results): (n: nat)
    ensures n >= 3
  {
    if rs == [] then 3 else |rs[0]| + MAX_TRIES + 4 + Work(rs[1..])
  }

  function ProducerLeft(rs: Results, p: Producer): int {
    match p
    case Fetching(i, tries) => if i < |rs| then Work(rs[i..]) - tries else 0
    case Pushing(i, j) => if i < |rs| then Work(rs[i + 1..]) + |rs[i]| - j + 1 else 0
    case Completing => 2
    case Aborting => 1
    case Finished => 0
  }

  /** A pop that began before the abort can still throw and start the call again. */
  function ConsumerLeft(c: Consumer, aborts: nat): nat {
    match c
    case Outside => 0
    case Called => 5
    case SawCompleted => 4
    case AtPop => 3
    case Popping(seen) => if seen == aborts then 2 else 9
    case Waiting(seen) => if seen == aborts then 1 else 8
    case Caught => 7
  }

  function Measure(rs: Results, s: State): int {
    10 * ProducerLeft(rs, s.producer) + ConsumerLeft(s.consumer, s.aborts)
  }

  /** Every step but the start of a call brings the end nearer. */
  lemma MeasureFalls(rs: Results, cap: nat, s: State, e: Event)
    requires Inv(rs, cap, s) && Enabled(rs, cap, s, e) && !e.Call?
    ensures 0 <= Measure(rs, Next(rs, cap, s, e)) < Measure(rs, s)
  {
    var p := s.producer;
    if p.Fetching? || p.Pushing? {
      assert rs[p.range..][1..] == rs[p.range + 1..];
      assert Work(rs[p.range..]) == |rs[p.range]| + MAX_TRIES + 4 + Work(rs[p.range + 1..]);
    }
  }

  /** A run in which no new call starts is no longer than the measure: no call retries
      for ever. */
  lemma {:induction false} CallsEnd(rs: Results, cap: nat, s: State, es: seq<Event>)
    requires Inv(rs, cap, s) && IsRun(rs, cap, s, es) && Call !in es
    ensures |es| <= Measure(rs, s)
    decreases |es|
  {
    if es != [] {
      MeasureFalls(rs, cap, s, es[0]);
      InvStep(rs, cap, s, es[0]);
      CallsEnd(rs, cap, Next(rs, cap, s, es[0]), es[1..]);
    } else {
      MeasureNonNegative(rs, cap, s);
    }
  }

  lemma MeasureNonNegative(rs: Results, cap: nat, s: State)
    requires Inv(rs, cap, s)
    ensures Measure(rs, s) >= 0
  {
    var p := s.producer;
    if p.Fetching? {
      assert Work(rs[p.range..]) == |rs[p.range]| + MAX_TRIES + 4 + Work(rs[p.range..][1..]);
    }
  }

  ghost predicate Stuck(rs: Results, cap: nat, s: State) {
    forall e :: !Enabled(rs, cap, s, e)
  }

  /** A call is lost in exactly one situation: its pop began on an empty queue after
      the producer had already aborted the queue.  Such a call read completed before it
      was set. */
  lemma StuckExactly(rs: Results, cap: nat, s: State)
    requires cap >= 1 && Inv(rs, cap, s)
    ensures Stuck(rs, cap, s) <==> s.producer.Finished? && s.queue == [] && s.consumer == Waiting(1)
    ensures Stuck(rs, cap, s) ==> s.sawFalse
  {
    if Stuck(rs, cap, s) {
      assert !Enabled(rs, cap, s, Call) && !Enabled(rs, cap, s, ReadCompleted) && !Enabled(rs, cap, s, ReadEmpty)
          && !Enabled(rs, cap, s, BeginPop) && !Enabled(rs, cap, s, CheckEmpty);
      assert !Enabled(rs, cap, s, Sleep) && !Enabled(rs, cap, s, Take) && !Enabled(rs, cap, s, Throw);
      assert !Enabled(rs, cap, s, FetchOk) && !Enabled(rs, cap, s, Push) && !Enabled(rs, cap, s, RangeDone)
          && !Enabled(rs, cap, s, Complete) && !Enabled(rs, cap, s, Abort);
    } else {
      var e :| Enabled(rs, cap, s, e);
    }
  }

  /** Whether the call under way has caught the exception of a pop; `b` before the run. */
  function Threw(b: bool, es: seq<Event>): bool
    decreases |es|
  {
    if es == [] then b else Threw(es[0].Throw? || (b && !es[0].Call?), es[1..])
  }

  /** After the exception a call returns NULL, or there are rows for it. */
  ghost predicate AfterThrow(s: State, threw: bool) {
    threw ==> s.aborts == 1 && (s.consumer.Outside? || s.consumer.Caught? || s.queue != [])
  }

  lemma {:induction false} RunThrew(rs: Results, cap: nat, s: State, es: seq<Event>, b: bool)
    requires Inv(rs, cap, s) && IsRun(rs, cap, s, es) && AfterThrow(s, b)
    ensures AfterThrow(After(rs, cap, s, es), Threw(b, es))
    decreases |es|
  {
    if es == [] {
    } else {
      InvStep(rs, cap, s, es[0]);
      RunThrew(rs, cap, Next(rs, cap, s, es[0]), es[1..], es[0].Throw? || (b && !es[0].Call?));
    }
  }

  /** A call whose pop was woken by the abort is never lost: it returns NULL or a row. */
  lemma LostNeverThrew(rs: Results, cap: nat, es: seq<Event>)
    requires cap >= 1 && IsRun(rs, cap, Start(rs), es) && Stuck(rs, cap, After(rs, cap, Start(rs), es))
    ensures !Threw(false, es)
  {
    StartInv(rs, cap);
    RunInv(rs, cap, Start(rs), es);
    RunThrew(rs, cap, Start(rs), es, false);
    StuckExactly(rs, cap, After(rs, cap, Start(rs), es));
  }

  lemma {:induction false} RunSnoc(rs: Results, cap: nat, s: State, es: seq<Event>, e: Event)
    requires IsRun(rs, cap, s, es) && Enabled(rs, cap, After(rs, cap, s, es), e)
    ensures IsRun(rs, cap, s, es + [e])
    ensures After(rs, cap, s, es + [e]) == Next(rs, cap, After(rs, cap, s, es), e)
    decreases |es|
  {
    if es == [] {
      assert [e][1..] == [] && es + [e] == [e];
    } else {
      RunSnoc(rs, cap, Next(rs, cap, s, es[0]), es[1..], e);
      assert (es + [e])[1..] == es[1..] + [e];
    }
  }

  /** The state that a run from the start leads to. */
  ghost predicate Reaches(rs: Results, cap: nat, es: seq<Event>, s: State) {
    IsRun(rs, cap, Start(rs), es) && After(rs, cap, Start(rs), es) == s
  }

  /** Between two calls, with nothing queued and rows still to come. */
  ghost predicate Calm(s: State, p: Producer) {
    s.producer == p && s.consumer.Outside? && s.queue == [] && !s.completed && s.aborts == 0 && !s.ended && !s.gaveUp
  }

  lemma One(rs: Results, cap: nat, es: seq<Event>, s: State, e: Event) returns (fs: seq<Event>, t: State)
    requires Reaches(rs, cap, es, s) && Enabled(rs, cap, s, e)
    ensures t == Next(rs, cap, s, e) && Reaches(rs, cap, fs, t)
  {
    RunSnoc(rs, cap, Start(rs), es, e);
    fs, t := es + [e], Next(rs, cap, s, e);
  }

  /** Eleven failed queries of the first range make the producer give up. */
  lemma GiveUpRun(rs: Results, cap: nat) returns (es: seq<Event>)
    requires rs != []
    ensures IsRun(rs, cap, Start(rs), es)
    ensures After(rs, cap, Start(rs), es).gaveUp && After(rs, cap, Start(rs), es).sent == []
  {
    var s := Start(rs);
    es := [];
    for i := 0 to MAX_TRIES
      invariant Reaches(rs, cap, es, s) && s == Start(rs).(producer := Fetching(0, i))
    {
      es, s := One(rs, cap, es, s, FetchFail);
    }
    es, s := One(rs, cap, es, s, FetchFail);
  }

  /** One row is pushed and taken. */
  lemma PassRow(rs: Results, cap: nat, es: seq<Event>, s: State, i: nat, j: nat) returns (fs: seq<Event>, t: State)
    requires cap >= 1 && i < |rs| && j < |rs[i]| && Reaches(rs, cap, es, s) && Calm(s, Pushing(i, j))
    ensures Reaches(rs, cap, fs, t) && Calm(t, Pushing(i, j + 1))
  {
    fs, t := One(rs, cap, es, s, Push);
    fs, t := One(rs, cap, fs, t, Call);
    fs, t := One(rs, cap, fs, t, ReadCompleted);
    fs, t := One(rs, cap, fs, t, BeginPop);
    fs, t := One(rs, cap, fs, t, Take);
  }

  /** All rows of a range are pushed and taken. */
  lemma PassRange(rs: Results, cap: nat, es: seq<Event>, s: State, i: nat) returns (fs: seq<Event>, t: State)
    requires cap >= 1 && i < |rs| && Reaches(rs, cap, es, s) && Calm(s, Fetching(i, 0))
    ensures Reaches(rs, cap, fs, t) && Calm(t, Advance(rs, i + 1))
  {
    fs, t := One(rs, cap, es, s, FetchOk);
    for j := 0 to |rs[i]|
      invariant Reaches(rs, cap, fs, t) && Calm(t, Pushing(i, j))
    {
      fs, t := PassRow(rs, cap, fs, t, i, j);
    }
    fs, t := One(rs, cap, fs, t, RangeDone);
  }

  /** That situation can arise whatever the ranges return: every row is delivered, and
      then a call that read completed too early waits for ever instead of returning
      NULL. */
  lemma LostWakeup(rs: Results, cap: nat) returns (es: seq<Event>)
    requires cap >= 1
    ensures IsRun(rs, cap, Start(rs), es)
    ensures var s := After(rs, cap, Start(rs), es);
            Stuck(rs, cap, s) && s.sawFalse && s.returned == Flat(rs) && !s.ended
  {
    var s := Start(rs);
    es := [];
    for i := 0 to |rs|
      invariant Reaches(rs, cap, es, s) && Calm(s, Advance(rs, i))
    {
      es, s := PassRange(rs, cap, es, s, i);
    }
    es, s := LateCall(rs, cap, es, s);
    StartInv(rs, cap);
    RunInv(rs, cap, Start(rs), es);
    StuckExactly(rs, cap, s);
    assert s.returned + [] == s.returned;
  }

  lemma LateCall(rs: Results, cap: nat, es: seq<Event>, s: State) returns (fs: seq<Event>, t: State)
    requires Reaches(rs, cap, es, s) && Calm(s, Completing)
    ensures Reaches(rs, cap, fs, t) && t.producer.Finished? && t.queue == [] && t.consumer == Waiting(1) && !t.ended
        && !t.gaveUp
  {
    fs, t := One(rs, cap, es, s, Call);
    fs, t := One(rs, cap, fs, t, ReadCompleted);
    fs, t := One(rs, cap, fs, t, Complete);
    fs, t := One(rs, cap, fs, t, Abort);
    fs, t := One(rs, cap, fs, t, BeginPop);
    fs, t := One(rs, cap, fs, t, Sleep);
  }
}
