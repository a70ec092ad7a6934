/** The running service: any number of workers, the stats reporter and the health endpoint share the
    counters, each locked call being one step, in any interleaving. */
module System {
  import opened Bytes
  import opened Stats
  import Config
  import Mesh
  import Pipeline
  import PipelineLaws
  import Reporter

  datatype Setup = Setup(rt: Pipeline.Runtime, cfg: Config.Policy, statsLog: bool)

  datatype Message = Message(topic: string, payload: bytes)

  /** A busy worker still has these counters to bump before it returns. */
  datatype Worker = Idle | Busy(todo: seq<Counter>)

  /** Between its `reset` and its log call the reporter holds a window. */
  datatype ReporterState = Waiting | Holding(window: Counts)

  /** The counters, who is doing what, and the history of what was taken, reset, logged and shown. */
  datatype State = State(
    rolling: Counts, lifetime: Counts, workers: seq<Worker>, reporter: ReporterState,
    taken: seq<Message>, windows: seq<Counts>, logged: seq<Counts>, shown: seq<Counts>)

  datatype Event =
    | Take(w: nat, m: Message)
    | Bump(w: nat)
    | Return(w: nat)
    | Reset
    | Report
    | Show

  function Start(workers: nat): State {
    State(ZERO, ZERO, seq(workers, _ => Idle), Waiting, [], [], [], [])
  }

  function CountersOf(u: Setup, m: Message): seq<Counter> {
    Pipeline.Decide(u.rt, u.cfg, m.topic, m.payload).counters
  }

  /** One atomic step, None when the event is not possible. */
  function Step(u: Setup, s: State, e: Event): Option<State> {
    match e
    case Take(w, m) =>
      if w < |s.workers| && s.workers[w].Idle?
      then Some(s.(workers := s.workers[w := Busy(CountersOf(u, m))], taken := s.taken + [m])) else None
    case Bump(w) =>
      if w < |s.workers| && s.workers[w].Busy? && s.workers[w].todo != []
      then
        var c := s.workers[w].todo[0];
        Some(s.(rolling := s.rolling.Inc(c), lifetime := s.lifetime.Inc(c),
                workers := s.workers[w := Busy(s.workers[w].todo[1..])]))
      else None
    case Return(w) =>
      if w < |s.workers| && s.workers[w] == Busy([]) then Some(s.(workers := s.workers[w := Idle])) else None
    case Reset =>
      if s.reporter.Waiting?
      then Some(s.(rolling := ZERO, reporter := Holding(s.rolling), windows := s.windows + [s.rolling])) else None
    case Report =>
      if s.reporter.Holding?
      then
        var n := s.reporter.window;
        Some(s.(reporter := Waiting, logged := if u.statsLog && n.Total() > 0 then s.logged + [n] else s.logged))
      else None
    case Show => Some(s.(shown := s.shown + [s.lifetime]))
  }

  /** A whole run; None when some event of the schedule is not possible at its turn. */
  function Run(u: Setup, s: State, schedule: seq<Event>): Option<State>
    decreases |schedule|
  {
    if schedule == [] then Some(s) else
    match Step(u, s, schedule[0])
    case None => None
    case Some(s') => Run(u, s', schedule[1..])
  }

  function Windows(rs: seq<Reporter.StatsRecord>): seq<Counts> {
    seq(|rs|, i requires 0 <= i < |rs| => rs[i].window)
  }

  /** The reporter's two steps, with nothing in between, do what one turn of its loop does: the
      rolling counters start again at zero, lifetime stays, and the turn's records are logged. */
  lemma TurnIsTwoSteps(u: Setup, s: State, intervalS: int)
    requires s.reporter.Waiting?
    ensures Run(u, s, [Reset, Report])
         == Some(s.(rolling := ZERO, windows := s.windows + [s.rolling],
                    logged := s.logged + Windows(Reporter.Logged(u.statsLog, intervalS, s.rolling))))
  {
    hide CountersOf;
    var held := Step(u, s, Reset).value;
    var done := Step(u, held, Report).value;
    assert [Reset, Report][1..] == [Report] && [Report][1..] == [];
    assert Run(u, s, [Reset, Report]) == Run(u, held, [Report]) == Run(u, done, []) == Some(done);
    var logged := Windows(Reporter.Logged(u.statsLog, intervalS, s.rolling));
    assert logged == if u.statsLog && s.rolling.Total() > 0 then [s.rolling] else [];
    assert done.logged == s.logged + logged;
  }

  // ---- Sums over histories ----

  function SumGet(ns: seq<Counts>, c: Counter): nat {
    if ns == [] then 0 else SumGet(ns[..|ns| - 1], c) + ns[|ns| - 1].Get(c)
  }

  function SumTotal(ns: seq<Counts>): nat {
    if ns == [] then 0 else SumTotal(ns[..|ns| - 1]) + ns[|ns| - 1].Total()
  }

  lemma SumSnoc(ns: seq<Counts>, n: Counts)
    ensures forall c :: SumGet(ns + [n], c) == SumGet(ns, c) + n.Get(c)
    ensures SumTotal(ns + [n]) == SumTotal(ns) + n.Total()
  {
    assert (ns + [n])[..|ns|] == ns;
  }

  function Todo(w: Worker): seq<Counter> {
    if w.Busy? then w.todo else []
  }

  /** Bumps of `c` that busy workers still owe. */
  function Pending(ws: seq<Worker>, c: Counter): nat {
    if ws == [] then 0 else Count(Todo(ws[0]), c) + Pending(ws[1..], c)
  }

  lemma {:induction false} PendingUpdate(ws: seq<Worker>, i: nat, w: Worker, c: Counter)
    requires i < |ws|
    ensures Pending(ws[i := w], c) + Count(Todo(ws[i]), c) == Pending(ws, c) + Count(Todo(w), c)
  {
    if i == 0 {
      assert ws[i := w][1..] == ws[1..];
    } else {
      assert ws[i := w][1..] == ws[1..][i - 1 := w];
      PendingUpdate(ws[1..], i - 1, w, c);
    }
  }

  /** Bumps of `c` that the messages taken so far call for. */
  function Due(u: Setup, ms: seq<Message>, c: Counter): nat {
    if ms == [] then 0 else Due(u, ms[..|ms| - 1], c) + Count(CountersOf(u, ms[|ms| - 1]), c)
  }

  lemma DueSnoc(u: Setup, ms: seq<Message>, m: Message, c: Counter)
    ensures Due(u, ms + [m], c) == Due(u, ms, c) + Count(CountersOf(u, m), c)
  {
    assert (ms + [m])[..|ms|] == ms;
    hide CountersOf;
  }

  // ---- What every step keeps ----

  /** Nothing a reset returned, and nothing still rolling, is missing from the lifetime view. */
  ghost predicate Conserved(s: State) {
    forall c :: s.lifetime.Get(c) == s.rolling.Get(c) + SumGet(s.windows, c)
  }

  /** Every message taken is accounted for: counted, or still owed by its worker. */
  ghost predicate Accounted(u: Setup, s: State) {
    forall c :: s.lifetime.Get(c) + Pending(s.workers, c) == Due(u, s.taken, c)
  }

  function Held(r: ReporterState): nat {
    if r.Holding? then r.window.Total() else 0
  }

  /** With stats logging on, logged totals, the window in the reporter's hand and the rolling total
      make up the lifetime total. */
  ghost predicate Ledger(u: Setup, s: State) {
    u.statsLog ==> s.lifetime.Total() == SumTotal(s.logged) + Held(s.reporter) + s.rolling.Total()
  }

  ghost predicate AtMost(a: Counts, b: Counts) {
    forall c :: a.Get(c) <= b.Get(c)
  }

  /** What the health endpoint showed never goes back. */
  ghost predicate ShownGrows(s: State) {
    && (forall i, j | 0 <= i < j < |s.shown| :: AtMost(s.shown[i], s.shown[j]))
    && (forall i | 0 <= i < |s.shown| :: AtMost(s.shown[i], s.lifetime))
  }

  ghost predicate Inv(u: Setup, s: State) {
    Conserved(s) && Accounted(u, s) && Ledger(u, s) && ShownGrows(s)
  }

  lemma {:induction false} StartPending(n: nat, c: Counter)
    ensures Pending(seq(n, _ => Idle), c) == 0
  {
    if n > 0 {
      assert seq(n, _ => Idle)[1..] == seq(n - 1, _ => Idle);
      StartPending(n - 1, c);
    }
  }

  lemma StartInv(u: Setup, workers: nat)
    ensures Inv(u, Start(workers))
  {
    forall c
      ensures Pending(Start(workers).workers, c) == 0
    {
      StartPending(workers, c);
    }
  }

  lemma TakeKeeps(u: Setup, s: State, w: nat, m: Message)
    requires Inv(u, s) && Step(u, s, Take(w, m)).Some?
    ensures Inv(u, Step(u, s, Take(w, m)).value)
  {
    hide CountersOf;
    forall c
      ensures Pending(s.workers[w := Busy(CountersOf(u, m))], c) == Pending(s.workers, c) + Count(CountersOf(u, m), c)
      ensures Due(u, s.taken + [m], c) == Due(u, s.taken, c) + Count(CountersOf(u, m), c)
    {
      PendingUpdate(s.workers, w, Busy(CountersOf(u, m)), c);
      DueSnoc(u, s.taken, m, c);
    }
    hide Due;
    hide Pending;
  }

  lemma BumpKeeps(u: Setup, s: State, w: nat)
    requires Inv(u, s) && Step(u, s, Bump(w)).Some?
    ensures Inv(u, Step(u, s, Bump(w)).value)
  {
    hide Due;
    hide CountersOf;
    var s' := Step(u, s, Bump(w)).value;
    var b := s.workers[w].todo[0];
    forall c
      ensures s'.lifetime.Get(c) == s.lifetime.Get(c) + (if c == b then 1 else 0)
      ensures s'.rolling.Get(c) == s.rolling.Get(c) + (if c == b then 1 else 0)
      ensures Pending(s'.workers, c) + (if c == b then 1 else 0) == Pending(s.workers, c)
    {
      PendingUpdate(s.workers, w, Busy(s.workers[w].todo[1..]), c);
    }
    hide Pending;
    hide SumGet;
    assert AtMost(s.lifetime, s'.lifetime);
  }

  lemma ReturnKeeps(u: Setup, s: State, w: nat)
    requires Inv(u, s) && Step(u, s, Return(w)).Some?
    ensures Inv(u, Step(u, s, Return(w)).value)
  {
    hide CountersOf;
    forall c
      ensures Pending(s.workers[w := Idle], c) == Pending(s.workers, c)
    {
      PendingUpdate(s.workers, w, Idle, c);
    }
    hide Pending;
    hide Due;
  }

  lemma ResetKeeps(u: Setup, s: State)
    requires Inv(u, s) && Step(u, s, Reset).Some?
    ensures Inv(u, Step(u, s, Reset).value)
  {
    hide CountersOf;
    hide Pending;
    hide Due;
    var s' := Step(u, s, Reset).value;
    forall c
      ensures SumGet(s'.windows, c) == SumGet(s.windows, c) + s.rolling.Get(c)
    {
      SumSnoc(s.windows, s.rolling);
    }
    hide SumGet;
    hide SumTotal;
    assert forall c :: ZERO.Get(c) == 0;
  }

  lemma ReportKeeps(u: Setup, s: State)
    requires Inv(u, s) && Step(u, s, Report).Some?
    ensures Inv(u, Step(u, s, Report).value)
  {
    hide CountersOf;
    hide Pending;
    hide Due;
    SumSnoc(s.logged, s.reporter.window);
    hide SumGet;
    hide SumTotal;
    var s' := Step(u, s, Report).value;
    assert Ledger(u, s');
    assert Conserved(s');
    assert Accounted(u, s');
    assert ShownGrows(s');
  }

  lemma ShowKeeps(u: Setup, s: State)
    requires Inv(u, s)
    ensures Inv(u, Step(u, s, Show).value)
  {
    hide Conserved;
    hide Accounted;
    hide Ledger;
    var s' := Step(u, s, Show).value;
    assert Conserved(s') && Accounted(u, s') && Ledger(u, s') by {
      StatelessShow(u, s);
    }
  }

  lemma StatelessShow(u: Setup, s: State)
    ensures Conserved(Step(u, s, Show).value) == Conserved(s)
    ensures Accounted(u, Step(u, s, Show).value) == Accounted(u, s)
    ensures Ledger(u, Step(u, s, Show).value) == Ledger(u, s)
  {
    hide Pending;
    hide Due;
    hide SumGet;
    hide SumTotal;
  }

  lemma StepKeeps(u: Setup, s: State, e: Event)
    requires Inv(u, s) && Step(u, s, e).Some?
    ensures Inv(u, Step(u, s, e).value)
  {
    match e
    case Take(w, m) => TakeKeeps(u, s, w, m);
    case Bump(w) => BumpKeeps(u, s, w);
    case Return(w) => ReturnKeeps(u, s, w);
    case Reset => ResetKeeps(u, s);
    case Report => ReportKeeps(u, s);
    case Show => ShowKeeps(u, s);
  }

  /** Every interleaving keeps all of it. */
  lemma {:induction false} RunKeeps(u: Setup, s: State, schedule: seq<Event>)
    requires Inv(u, s) && Run(u, s, schedule).Some?
    ensures Inv(u, Run(u, s, schedule).value)
    decreases |schedule|
  {
    if schedule != [] {
      hide Inv;
      hide Step;
      StepKeeps(u, s, schedule[0]);
      RunKeeps(u, Step(u, s, schedule[0]).value, schedule[1..]);
    }
  }

  /** No step of any run lowers a lifetime counter. */
  lemma {:induction false} LifetimeMonotone(u: Setup, s: State, schedule: seq<Event>)
    requires Run(u, s, schedule).Some?
    ensures AtMost(s.lifetime, Run(u, s, schedule).value.lifetime)
    decreases |schedule|
  {
    if schedule != [] {
      var s' := Step(u, s, schedule[0]).value;
      assert AtMost(s.lifetime, s'.lifetime);
      hide Step;
      LifetimeMonotone(u, s', schedule[1..]);
    }
  }

  // ---- Whole runs ----

  /** From any number of idle workers, under any schedule: lifetime is rolling plus everything every
      reset returned, counter by counter. */
  lemma LifetimeConserved(u: Setup, workers: nat, schedule: seq<Event>, c: Counter)
    requires Run(u, Start(workers), schedule).Some?
    ensures var s := Run(u, Start(workers), schedule).value;
            s.lifetime.Get(c) == s.rolling.Get(c) + SumGet(s.windows, c)
  {
    StartInv(u, workers);
    RunKeeps(u, Start(workers), schedule);
  }

  /** The totals in the emitted stats records, the rolling total, and a window just reset but not
      yet logged add up to the lifetime total: what is not logged at INFO is empty windows only. */
  lemma ReporterLedger(u: Setup, workers: nat, schedule: seq<Event>)
    requires u.statsLog && Run(u, Start(workers), schedule).Some?
    ensures var s := Run(u, Start(workers), schedule).value;
            && s.lifetime.Total() == SumTotal(s.logged) + Held(s.reporter) + s.rolling.Total()
            && (s.reporter.Waiting? ==> SumTotal(s.logged) + s.rolling.Total() == s.lifetime.Total())
  {
    StartInv(u, workers);
    RunKeeps(u, Start(workers), schedule);
  }

  /** How many of the messages have this outcome, and how many failed late. */
  function Outcomes(u: Setup, ms: seq<Message>, c: Counter): nat {
    if ms == [] then 0
    else
      var m := ms[|ms| - 1];
      Outcomes(u, ms[..|ms| - 1], c) + (if PipelineLaws.Outcome(u.rt, u.cfg, m.topic, m.payload) == c then 1 else 0)
  }

  function LateFailures(u: Setup, ms: seq<Message>): nat {
    if ms == [] then 0
    else
      var m := ms[|ms| - 1];
      LateFailures(u, ms[..|ms| - 1]) + (if PipelineLaws.Late(u.rt, u.cfg, m.topic, m.payload) then 1 else 0)
  }

  lemma CountOne(a: Counter, c: Counter)
    ensures Count([a], c) == if a == c then 1 else 0
  {
    assert [a][1..] == [];
  }

  lemma CountTwo(a: Counter, b: Counter, c: Counter)
    ensures Count([a, b], c) == (if a == c then 1 else 0) + (if b == c then 1 else 0)
  {
    assert [a, b][1..] == [b];
    CountOne(b, c);
  }

  lemma {:induction false} DueIsOutcomes(u: Setup, ms: seq<Message>, c: Counter)
    requires Pipeline.RuntimeOk(u.rt)
    requires forall m | m in ms :: |m.payload| <= Mesh.MAX_MQTT_PACKET
    ensures Due(u, ms, c) == Outcomes(u, ms, c) + (if c == Errors then LateFailures(u, ms) else 0)
  {
    if ms != [] {
      var init, m := ms[..|ms| - 1], ms[|ms| - 1];
      assert forall x | x in init :: x in ms;
      DueIsOutcomes(u, init, c);
      hide Pipeline.RuntimeOk;
      hide Pipeline.Decide;
      assert m in ms;
      PipelineLaws.OneOutcome(u.rt, u.cfg, m.topic, m.payload);
      var outcome := PipelineLaws.Outcome(u.rt, u.cfg, m.topic, m.payload);
      hide PipelineLaws.Outcome;
      hide PipelineLaws.Late;
      CountOne(outcome, c);
      CountTwo(outcome, Errors, c);
    }
  }

  lemma {:induction false} OutcomesTotal(u: Setup, ms: seq<Message>)
    ensures Outcomes(u, ms, Zerohop) + Outcomes(u, ms, Passthru) + Outcomes(u, ms, Noop)
          + Outcomes(u, ms, Dropped) + Outcomes(u, ms, Skipped) + Outcomes(u, ms, Errors) == |ms|
  {
    if ms != [] {
      hide PipelineLaws.Outcome;
      OutcomesTotal(u, ms[..|ms| - 1]);
    }
  }

  lemma {:induction false} NonePending(ws: seq<Worker>, c: Counter)
    requires forall w | w in ws :: w.Idle?
    ensures Pending(ws, c) == 0
  {
    if ws != [] {
      assert ws[0] in ws;
      NonePending(ws[1..], c);
    }
  }

  /** Accounting over whole runs: with no worker in flight, each counter holds the number of messages
      with that outcome, errors also the late failures, and the six together hold the messages
      processed plus the late failures. */
  lemma Accounting(u: Setup, workers: nat, schedule: seq<Event>)
    requires Pipeline.RuntimeOk(u.rt) && Run(u, Start(workers), schedule).Some?
    requires var s := Run(u, Start(workers), schedule).value;
             && (forall w | w in s.workers :: w.Idle?)
             && (forall m | m in s.taken :: |m.payload| <= Mesh.MAX_MQTT_PACKET)
    ensures var s := Run(u, Start(workers), schedule).value;
            && (forall c :: s.lifetime.Get(c)
                         == Outcomes(u, s.taken, c) + (if c == Errors then LateFailures(u, s.taken) else 0))
            && s.lifetime.Total() == |s.taken| + LateFailures(u, s.taken)
  {
    StartInv(u, workers);
    RunKeeps(u, Start(workers), schedule);
    var s := Run(u, Start(workers), schedule).value;
    hide Run;
    forall c
      ensures s.lifetime.Get(c) == Outcomes(u, s.taken, c) + (if c == Errors then LateFailures(u, s.taken) else 0)
    {
      NonePending(s.workers, c);
      DueIsOutcomes(u, s.taken, c);
    }
    hide Inv;
    hide Outcomes;
    hide LateFailures;
    hide Pipeline.RuntimeOk;
    OutcomesTotal(u, s.taken);
    Totals(s.lifetime);
  }

  lemma Totals(n: Counts)
    ensures n.Total() == n.Get(Zerohop) + n.Get(Passthru) + n.Get(Noop)
                       + n.Get(Dropped) + n.Get(Skipped) + n.Get(Errors)
  {
  }
}
