/** The agent circuit breaker of one session under concurrent workers.  AddTrace
    is not atomic: the check, the two counter increments and the write of the
    tripped key are separate Redis commands, so workers that passed the check
    together can overshoot a limit.  Limits are looked up for the feature of each
    trace, so a session may mix traces with different limits, or with none. */
module CircuitBreaker {

  import opened Collections

  /** Zero disables a limit. */
  datatype Limits = Limits(maxSteps: int, maxCost: int)

  datatype Trace = Trace(feature: string, cost: nat)

  /** The limits a trace of the feature is held to; none without a feature. */
  function LimitsFor(limitsOf: string -> Limits, feature: string): Limits {
    if feature == "" then Limits(0, 0) else limitsOf(feature)
  }

  /** A worker inside AddTrace, with the results it has read so far. */
  datatype Worker =
    | Idle
    | Checked(trace: Trace)
    | CostAdded(trace: Trace, totalCost: nat)
    | StepAdded(trace: Trace, totalCost: nat, stepCount: nat)

  /** stepCount and totalCost are the counters in Redis; steps and costs record the
      traces each of them has been incremented for since it was last deleted. */
  datatype State = State(
    stepCount: nat, totalCost: nat, tripped: bool, workers: seq<Worker>, steps: seq<Trace>, costs: seq<Trace>)

  datatype Action =
    | Check(w: nat, trace: Trace)  // EXISTS on the tripped key
    | AddCost(w: nat)              // HINCRBYFLOAT total_cost
    | AddStep(w: nat)              // HINCRBY step_count
    | Decide(w: nat)               // the limit check, and SET on the tripped key
    | Close                        // CloseSession deletes the counters, not the tripped key

  function InitialState(workers: nat): State {
    State(0, 0, false, seq(workers, _ => Idle), [], [])
  }

  /** The limit check of AddTrace. */
  predicate Trips(limits: Limits, totalCost: nat, stepCount: nat) {
    (limits.maxSteps > 0 && stepCount >= limits.maxSteps) || (limits.maxCost > 0 && totalCost >= limits.maxCost)
  }

  predicate Enabled(s: State, a: Action) {
    match a
    case Check(w, _) => w < |s.workers| && s.workers[w].Idle?
    case AddCost(w) => w < |s.workers| && s.workers[w].Checked?
    case AddStep(w) => w < |s.workers| && s.workers[w].CostAdded?
    case Decide(w) => w < |s.workers| && s.workers[w].StepAdded?
    case Close => true
  }

  function Next(limitsOf: string -> Limits, s: State, a: Action): State
    requires Enabled(s, a)
  {
    match a
    case Check(w, trace) =>
      if s.tripped then s else s.(workers := s.workers[w := Checked(trace)])
    case AddCost(w) =>
      var trace, total := s.workers[w].trace, s.totalCost + s.workers[w].trace.cost;
      s.(totalCost := total, workers := s.workers[w := CostAdded(trace, total)], costs := s.costs + [trace])
    case AddStep(w) =>
      var CostAdded(trace, total) := s.workers[w];
      s.(stepCount := s.stepCount + 1, workers := s.workers[w := StepAdded(trace, total, s.stepCount + 1)],
      steps := s.steps + [trace])
    case Decide(w) =>
      var StepAdded(trace, totalCost, stepCount) := s.workers[w];
      s.(tripped := s.tripped || Trips(LimitsFor(limitsOf, trace.feature), totalCost, stepCount),
      workers := s.workers[w := Idle])
    case Close => s.(stepCount := 0, totalCost := 0, steps := [], costs := [])
  }

  ghost predicate Run(limitsOf: string -> Limits, s: State, actions: seq<Action>, t: State)
    decreases |actions|
  {
    if actions == [] then s == t
    else Enabled(s, actions[0]) && Run(limitsOf, Next(limitsOf, s, actions[0]), actions[1..], t)
  }

  /** A close can come at any moment; it empties both counters and leaves the breaker and
      the workers as they are. */
  lemma CloseAtAnyTime(limitsOf: string -> Limits, s: State)
    ensures Run(limitsOf, s, [Close], State(0, 0, s.tripped, s.workers, [], []))
  {
    var t := State(0, 0, s.tripped, s.workers, [], []);
    assert Next(limitsOf, s, Close) == t && [Close][1..] == [] && Run(limitsOf, t, [], t);
  }

  // ---- Traces that a limit does not bind -----------------------------------

  /** The trace's own step limit is on and no larger than n. */
  predicate StepBinds(limitsOf: string -> Limits, n: nat, trace: Trace) {
    1 <= LimitsFor(limitsOf, trace.feature).maxSteps <= n
  }

  predicate CostBinds(limitsOf: string -> Limits, c: nat, trace: Trace) {
    1 <= LimitsFor(limitsOf, trace.feature).maxCost <= c
  }

  /** How many of the traces are bare: their own limit is off, or larger than n. */
  ghost function BareSteps(limitsOf: string -> Limits, n: nat, traces: seq<Trace>): nat {
    if traces == [] then 0
    else
      BareSteps(limitsOf, n, traces[..|traces| - 1]) + if StepBinds(limitsOf, n, traces[|traces| - 1]) then 0 else 1
  }

  /** What the traces cost whose own cost limit is off, or larger than c. */
  ghost function BareCost(limitsOf: string -> Limits, c: nat, traces: seq<Trace>): nat {
    if traces == [] then 0
    else
      BareCost(limitsOf, c, traces[..|traces| - 1])
      + if CostBinds(limitsOf, c, traces[|traces| - 1]) then 0 else traces[|traces| - 1].cost
  }

  lemma BareStepsAppend(limitsOf: string -> Limits, n: nat, traces: seq<Trace>, trace: Trace)
    ensures BareSteps(limitsOf, n, traces + [trace])
         == BareSteps(limitsOf, n, traces) + if StepBinds(limitsOf, n, trace) then 0 else 1
  {
    assert (traces + [trace])[..|traces|] == traces;
  }

  lemma BareCostAppend(limitsOf: string -> Limits, c: nat, traces: seq<Trace>, trace: Trace)
    ensures BareCost(limitsOf, c, traces + [trace])
         == BareCost(limitsOf, c, traces) + if CostBinds(limitsOf, c, trace) then 0 else trace.cost
  {
    assert (traces + [trace])[..|traces|] == traces;
  }

  // ---- The overshoot bound -------------------------------------------------

  /** Worker w has read a step count of at least n, for a trace that n binds: it is
      about to trip the breaker, or the breaker is tripped and w can never add again. */
  ghost predicate SpentSteps(limitsOf: string -> Limits, n: nat, s: State, w: nat) {
    && w < |s.workers|
    && ((s.tripped && s.workers[w].Idle?)
        || (s.workers[w].StepAdded? && StepBinds(limitsOf, n, s.workers[w].trace) && s.workers[w].stepCount >= n))
  }

  /** The same for a total cost of at least c. */
  ghost predicate SpentCost(limitsOf: string -> Limits, c: nat, s: State, w: nat) {
    && w < |s.workers|
    && ((s.tripped && s.workers[w].Idle?)
        || ((s.workers[w].CostAdded? || s.workers[w].StepAdded?)
            && CostBinds(limitsOf, c, s.workers[w].trace) && s.workers[w].totalCost >= c))
  }

  /** Every worker in spent has made its one bound increment at n or over, and nobody
      else has made any. */
  ghost predicate StepsBounded(limitsOf: string -> Limits, n: nat, s: State, spent: set<nat>) {
    && (forall w :: w in spent ==> SpentSteps(limitsOf, n, s, w))
    && s.stepCount + 1 <= n + |spent| + BareSteps(limitsOf, n, s.steps)
  }

  ghost predicate CostBounded(limitsOf: string -> Limits, c: nat, s: State, spent: set<nat>, maxSingle: nat) {
    && (forall w :: w in spent ==> SpentCost(limitsOf, c, s, w))
    && (forall w :: 0 <= w < |s.workers| && s.workers[w].Checked? && CostBinds(limitsOf, c, s.workers[w].trace) ==>
          s.workers[w].trace.cost <= maxSingle)
    && s.totalCost < c + |spent| * maxSingle + BareCost(limitsOf, c, s.costs)
  }

  lemma StillSpentSteps(limitsOf: string -> Limits, n: nat, s: State, a: Action, w: nat)
    requires n > 0 && Enabled(s, a) && SpentSteps(limitsOf, n, s, w)
    ensures SpentSteps(limitsOf, n, Next(limitsOf, s, a), w)
  {
  }

  lemma StillSpentCost(limitsOf: string -> Limits, c: nat, s: State, a: Action, w: nat)
    requires c > 0 && Enabled(s, a) && SpentCost(limitsOf, c, s, w)
    ensures SpentCost(limitsOf, c, Next(limitsOf, s, a), w)
  {
  }

  lemma NextBoundsSteps(limitsOf: string -> Limits, n: nat, s: State, a: Action, spent: set<nat>)
    returns (spent': set<nat>)
    requires n > 0 && Enabled(s, a) && StepsBounded(limitsOf, n, s, spent)
    ensures StepsBounded(limitsOf, n, Next(limitsOf, s, a), spent')
  {
    var t := Next(limitsOf, s, a);
    spent' := spent;
    forall w | w in spent
      ensures SpentSteps(limitsOf, n, t, w)
    {
      StillSpentSteps(limitsOf, n, s, a, w);
    }
    if a.AddStep? {
      BareStepsAppend(limitsOf, n, s.steps, s.workers[a.w].trace);
      if StepBinds(limitsOf, n, s.workers[a.w].trace) && t.stepCount >= n {
        assert !SpentSteps(limitsOf, n, s, a.w);
        spent' := spent + {a.w};
      }
    }
  }

  lemma OneRoundLess(n: nat, cost: nat)
    requires n > 0
    ensures cost + (n - 1) * cost == n * cost && cost <= n * cost
  {
    assert n * cost == (n - 1) * cost + cost;
  }

  /** The cost bound after an AddCost: the worker is now spent or the trace is bare,
      unless the total is below c anyway. */
  lemma AddCostBounded(
      limitsOf: string -> Limits, c: nat, s: State, w: nat, spent: set<nat>, maxSingle: nat)
    returns (spent': set<nat>)
    requires c > 0 && Enabled(s, AddCost(w)) && CostBounded(limitsOf, c, s, spent, maxSingle)
    ensures spent <= spent' <= spent + {w}
    ensures var t := Next(limitsOf, s, AddCost(w));
            t.totalCost < c + |spent'| * maxSingle + BareCost(limitsOf, c, t.costs)
            && (w in spent' ==> SpentCost(limitsOf, c, t, w))
  {
    hide BareCost;
    var t, trace := Next(limitsOf, s, AddCost(w)), s.workers[w].trace;
    BareCostAppend(limitsOf, c, s.costs, trace);
    assert !SpentCost(limitsOf, c, s, w);
    spent' := spent;
    if CostBinds(limitsOf, c, trace) && t.totalCost >= c {
      spent' := spent + {w};
      OneRoundLess(|spent'|, maxSingle);
    }
  }

  lemma NextBoundsCost(
      limitsOf: string -> Limits, c: nat, s: State, a: Action, spent: set<nat>, maxSingle: nat)
    returns (spent': set<nat>)
    requires c > 0 && Enabled(s, a) && CostBounded(limitsOf, c, s, spent, maxSingle)
    requires a.Check? && CostBinds(limitsOf, c, a.trace) ==> a.trace.cost <= maxSingle
    ensures CostBounded(limitsOf, c, Next(limitsOf, s, a), spent', maxSingle)
  {
    spent' := spent;
    if a.AddCost? {
      spent' := AddCostBounded(limitsOf, c, s, a.w, spent, maxSingle);
    }
    forall w | w in spent
      ensures SpentCost(limitsOf, c, Next(limitsOf, s, a), w)
    {
      StillSpentCost(limitsOf, c, s, a, w);
    }
  }

  lemma {:induction false} StepsFrom(
      limitsOf: string -> Limits, n: nat, s: State, actions: seq<Action>, t: State, spent: set<nat>)
    requires n > 0 && StepsBounded(limitsOf, n, s, spent) && Run(limitsOf, s, actions, t)
    ensures t.stepCount + 1 <= n + |s.workers| + BareSteps(limitsOf, n, t.steps)
    decreases |actions|
  {
    if actions == [] {
      SubsetOfRange(spent, |s.workers|);
    } else {
      var spent' := NextBoundsSteps(limitsOf, n, s, actions[0], spent);
      StepsFrom(limitsOf, n, Next(limitsOf, s, actions[0]), actions[1..], t, spent');
    }
  }

  /** No trace that c binds costs more than maxSingle. */
  ghost predicate BoundCostsAtMost(limitsOf: string -> Limits, c: nat, actions: seq<Action>, maxSingle: nat) {
    forall a :: a in actions && a.Check? && CostBinds(limitsOf, c, a.trace) ==> a.trace.cost <= maxSingle
  }

  lemma {:induction false} CostFrom(
      limitsOf: string -> Limits, c: nat, s: State, actions: seq<Action>, t: State, spent: set<nat>, maxSingle: nat)
    requires c > 0 && CostBounded(limitsOf, c, s, spent, maxSingle) && Run(limitsOf, s, actions, t)
    requires BoundCostsAtMost(limitsOf, c, actions, maxSingle)
    ensures t.totalCost < c + |s.workers| * maxSingle + BareCost(limitsOf, c, t.costs)
    decreases |actions|
  {
    if actions == [] {
      SubsetOfRange(spent, |s.workers|);
      assert |spent| * maxSingle <= |s.workers| * maxSingle;
    } else {
      var spent' := NextBoundsCost(limitsOf, c, s, actions[0], spent, maxSingle);
      CostFrom(limitsOf, c, Next(limitsOf, s, actions[0]), actions[1..], t, spent', maxSingle);
    }
  }

  /** For every n, over every interleaving of W workers and any number of closes: the
      step count exceeds n + W - 1 by no more than the bare traces among those that
      it counts. */
  lemma StepOvershoot(limitsOf: string -> Limits, n: nat, workers: nat, actions: seq<Action>, t: State)
    requires n > 0 && Run(limitsOf, InitialState(workers), actions, t)
    ensures t.stepCount <= n + workers - 1 + BareSteps(limitsOf, n, t.steps)
  {
    StepsFrom(limitsOf, n, InitialState(workers), actions, t, {});
  }

  /** The total cost stays below c, plus the largest single cost for each worker, plus
      what the bare traces among those it counts cost. */
  lemma CostOvershoot(
      limitsOf: string -> Limits, c: nat, workers: nat, actions: seq<Action>, t: State, maxSingle: nat)
    requires c > 0 && Run(limitsOf, InitialState(workers), actions, t)
    requires BoundCostsAtMost(limitsOf, c, actions, maxSingle)
    ensures t.totalCost < c + workers * maxSingle + BareCost(limitsOf, c, t.costs)
  {
    CostFrom(limitsOf, c, InitialState(workers), actions, t, {}, maxSingle);
  }

  /** Step increments of worker w that came out at n or over, for traces n binds. */
  ghost function LateSteps(
      limitsOf: string -> Limits, n: nat, s: State, actions: seq<Action>, t: State, w: nat): nat
    requires Run(limitsOf, s, actions, t)
    decreases |actions|
  {
    if actions == [] then 0
    else
      var u := Next(limitsOf, s, actions[0]);
      (if actions[0] == AddStep(w) && StepBinds(limitsOf, n, s.workers[w].trace) && u.stepCount >= n then 1 else 0)
      + LateSteps(limitsOf, n, u, actions[1..], t, w)
  }

  /** The same for cost increments. */
  ghost function LateCosts(
      limitsOf: string -> Limits, c: nat, s: State, actions: seq<Action>, t: State, w: nat): nat
    requires Run(limitsOf, s, actions, t)
    decreases |actions|
  {
    if actions == [] then 0
    else
      var u := Next(limitsOf, s, actions[0]);
      (if actions[0] == AddCost(w) && CostBinds(limitsOf, c, s.workers[w].trace) && u.totalCost >= c then 1 else 0)
      + LateCosts(limitsOf, c, u, actions[1..], t, w)
  }

  /** Each worker makes at most one of them in a whole run, and none once the
      breaker is tripped and it is idle. */
  lemma {:induction false} AtMostOneLateStep(
      limitsOf: string -> Limits, n: nat, s: State, actions: seq<Action>, t: State, w: nat)
    requires n > 0 && Run(limitsOf, s, actions, t)
    ensures LateSteps(limitsOf, n, s, actions, t, w) <= if SpentSteps(limitsOf, n, s, w) then 0 else 1
    decreases |actions|
  {
    if actions == [] {
    } else {
      AtMostOneLateStep(limitsOf, n, Next(limitsOf, s, actions[0]), actions[1..], t, w);
      if SpentSteps(limitsOf, n, s, w) {
        StillSpentSteps(limitsOf, n, s, actions[0], w);
      }
    }
  }

  lemma {:induction false} AtMostOneLateCost(
      limitsOf: string -> Limits, c: nat, s: State, actions: seq<Action>, t: State, w: nat)
    requires c > 0 && Run(limitsOf, s, actions, t)
    ensures LateCosts(limitsOf, c, s, actions, t, w) <= if SpentCost(limitsOf, c, s, w) then 0 else 1
    decreases |actions|
  {
    if actions == [] {
    } else {
      AtMostOneLateCost(limitsOf, c, Next(limitsOf, s, actions[0]), actions[1..], t, w);
      if SpentCost(limitsOf, c, s, w) {
        StillSpentCost(limitsOf, c, s, actions[0], w);
      }
    }
  }

  // ---- Runs that reach a bound ---------------------------------------------

  lemma {:induction false} RunThen(
      limitsOf: string -> Limits, s: State, actions: seq<Action>, t: State, a: Action)
    requires Run(limitsOf, s, actions, t) && Enabled(t, a)
    ensures Run(limitsOf, s, actions + [a], Next(limitsOf, t, a))
    decreases |actions|
  {
    if actions == [] {
      var u := Next(limitsOf, t, a);
      assert ([a])[1..] == [] && Run(limitsOf, u, [], u);
    } else {
      assert (actions + [a])[1..] == actions[1..] + [a];
      RunThen(limitsOf, Next(limitsOf, s, actions[0]), actions[1..], t, a);
    }
  }

  function Repeat(trace: Trace, n: nat): seq<Trace> {
    seq(n, _ => trace)
  }

  ghost predicate Quiet(s: State, workers: nat) {
    |s.workers| == workers && !s.tripped && forall w :: 0 <= w < workers ==> s.workers[w].Idle?
  }

  /** later checks in, after earlier, traces equal to trace only. */
  ghost predicate AddsOnly(earlier: seq<Action>, later: seq<Action>, trace: Trace) {
    forall a :: a in later && a.Check? ==> a in earlier || a.trace == trace
  }

  /** Worker 0 takes the trace through all four steps, alone and without tripping. */
  lemma Round(limitsOf: string -> Limits, workers: nat, actions: seq<Action>, s: State, trace: Trace)
    returns (actions': seq<Action>, t: State)
    requires workers > 0 && Run(limitsOf, InitialState(workers), actions, s) && Quiet(s, workers)
    requires !Trips(LimitsFor(limitsOf, trace.feature), s.totalCost + trace.cost, s.stepCount + 1)
    ensures Run(limitsOf, InitialState(workers), actions', t) && Quiet(t, workers) && AddsOnly(actions, actions', trace)
    ensures t.stepCount == s.stepCount + 1 && t.totalCost == s.totalCost + trace.cost
    ensures t.steps == s.steps + [trace] && t.costs == s.costs + [trace]
  {
    var s0 := InitialState(workers);
    var a1, a2, a3, a4 := Check(0, trace), AddCost(0), AddStep(0), Decide(0);
    var s1 := Next(limitsOf, s, a1);
    var s2 := Next(limitsOf, s1, a2);
    var s3 := Next(limitsOf, s2, a3);
    t := Next(limitsOf, s3, a4);
    RunThen(limitsOf, s0, actions, s, a1);
    RunThen(limitsOf, s0, actions + [a1], s1, a2);
    RunThen(limitsOf, s0, actions + [a1] + [a2], s2, a3);
    RunThen(limitsOf, s0, actions + [a1] + [a2] + [a3], s3, a4);
    actions' := actions + [a1] + [a2] + [a3] + [a4];
  }

  /** n such rounds. */
  lemma {:induction false} Alone(
      limitsOf: string -> Limits, workers: nat, actions: seq<Action>, s: State, trace: Trace, n: nat)
    returns (actions': seq<Action>, t: State)
    requires workers > 0 && Run(limitsOf, InitialState(workers), actions, s) && Quiet(s, workers)
    requires !Trips(LimitsFor(limitsOf, trace.feature), s.totalCost + n * trace.cost, s.stepCount + n)
    ensures Run(limitsOf, InitialState(workers), actions', t) && Quiet(t, workers) && AddsOnly(actions, actions', trace)
    ensures t.stepCount == s.stepCount + n && t.totalCost == s.totalCost + n * trace.cost
    ensures t.steps == s.steps + Repeat(trace, n) && t.costs == s.costs + Repeat(trace, n)
    decreases n
  {
    if n == 0 {
      actions', t := actions, s;
    } else {
      OneRoundLess(n, trace.cost);
      var actions1, s1 := Round(limitsOf, workers, actions, s, trace);
      actions', t := Alone(limitsOf, workers, actions1, s1, trace, n - 1);
      assert [trace] + Repeat(trace, n - 1) == Repeat(trace, n);
      assert s.steps + [trace] + Repeat(trace, n - 1) == s.steps + Repeat(trace, n);
      assert s.costs + [trace] + Repeat(trace, n - 1) == s.costs + Repeat(trace, n);
    }
  }

  ghost function Stage(w: Worker): int {
    match w
    case Idle => 0
    case Checked(_) => 1
    case CostAdded(_, _) => 2
    case StepAdded(_, _, _) => 3
  }

  ghost function StageAction(stage: int, w: nat, trace: Trace): Action {
    if stage == 1 then Check(w, trace) else if stage == 2 then AddCost(w) else AddStep(w)
  }

  /** The first k workers have reached the stage with the trace, the others the one
      before it. */
  ghost predicate Front(s: State, workers: nat, k: nat, stage: int, trace: Trace) {
    && |s.workers| == workers && !s.tripped
    && (forall w :: 0 <= w < workers ==>
          Stage(s.workers[w]) == (if w < k then stage else stage - 1)
          && (s.workers[w].Idle? || s.workers[w].trace == trace))
  }

  /** The remaining workers move to the stage. */
  lemma {:induction false} Advance(
      limitsOf: string -> Limits, workers: nat, actions: seq<Action>, s: State, k: nat, stage: int, trace: Trace)
    returns (actions': seq<Action>, t: State)
    requires Run(limitsOf, InitialState(workers), actions, s)
    requires 1 <= stage <= 3 && k <= workers && Front(s, workers, k, stage, trace)
    ensures Run(limitsOf, InitialState(workers), actions', t) && Front(t, workers, workers, stage, trace)
    ensures AddsOnly(actions, actions', trace)
    ensures t.stepCount == s.stepCount + if stage == 3 then workers - k else 0
    ensures t.steps == s.steps + if stage == 3 then Repeat(trace, workers - k) else []
    ensures t.totalCost == s.totalCost + if stage == 2 then (workers - k) * trace.cost else 0
    ensures t.costs == s.costs + if stage == 2 then Repeat(trace, workers - k) else []
    decreases workers - k
  {
    hide Run;
    if k == workers {
      actions', t := actions, s;
    } else {
      var a := StageAction(stage, k, trace);
      assert Stage(s.workers[k]) == stage - 1;
      RunThen(limitsOf, InitialState(workers), actions, s, a);
      actions', t := Advance(limitsOf, workers, actions + [a], Next(limitsOf, s, a), k + 1, stage, trace);
      OneRoundLess(workers - k, trace.cost);
      assert [trace] + Repeat(trace, workers - k - 1) == Repeat(trace, workers - k);
    }
  }

  /** All workers pass the check together, then add their costs and their steps. */
  lemma Together(limitsOf: string -> Limits, workers: nat, actions: seq<Action>, s: State, trace: Trace)
    returns (actions': seq<Action>, t: State)
    requires Run(limitsOf, InitialState(workers), actions, s) && Quiet(s, workers)
    ensures Run(limitsOf, InitialState(workers), actions', t) && AddsOnly(actions, actions', trace)
    ensures t.stepCount == s.stepCount + workers && t.totalCost == s.totalCost + workers * trace.cost
    ensures t.steps == s.steps + Repeat(trace, workers) && t.costs == s.costs + Repeat(trace, workers)
  {
    var a1, s1 := Advance(limitsOf, workers, actions, s, 0, 1, trace);
    var a2, s2 := Advance(limitsOf, workers, a1, s1, 0, 2, trace);
    actions', t := Advance(limitsOf, workers, a2, s2, 0, 3, trace);
  }

  lemma {:induction false} BareStepsRepeat(
      limitsOf: string -> Limits, bound: nat, traces: seq<Trace>, trace: Trace, n: nat)
    ensures BareSteps(limitsOf, bound, traces + Repeat(trace, n))
         == BareSteps(limitsOf, bound, traces) + if StepBinds(limitsOf, bound, trace) then 0 else n
    decreases n
  {
    if n == 0 {
      assert traces + Repeat(trace, 0) == traces;
    } else {
      BareStepsRepeat(limitsOf, bound, traces, trace, n - 1);
      BareStepsAppend(limitsOf, bound, traces + Repeat(trace, n - 1), trace);
      assert traces + Repeat(trace, n) == traces + Repeat(trace, n - 1) + [trace];
    }
  }

  lemma {:induction false} BareCostRepeat(
      limitsOf: string -> Limits, bound: nat, traces: seq<Trace>, trace: Trace, n: nat)
    ensures BareCost(limitsOf, bound, traces + Repeat(trace, n))
         == BareCost(limitsOf, bound, traces) + if CostBinds(limitsOf, bound, trace) then 0 else n * trace.cost
    decreases n
  {
    if n == 0 {
      assert traces + Repeat(trace, 0) == traces;
    } else {
      BareCostRepeat(limitsOf, bound, traces, trace, n - 1);
      BareCostAppend(limitsOf, bound, traces + Repeat(trace, n - 1), trace);
      OneRoundLess(n, trace.cost);
      assert traces + Repeat(trace, n) == traces + Repeat(trace, n - 1) + [trace];
    }
  }

  /** For every step limit, every number of workers and every number of bare traces,
      of no feature or of one without a limit, some run ends with exactly
      N + W - 1 + bare steps. */
  lemma StepOvershootIsReached(
      limitsOf: string -> Limits, workers: nat, feature: string, unlimited: string, bare: nat)
    returns (actions: seq<Action>, t: State)
    requires workers > 0 && feature != "" && limitsOf(feature).maxSteps > 0
    requires LimitsFor(limitsOf, unlimited).maxSteps <= 0
    ensures Run(limitsOf, InitialState(workers), actions, t)
    ensures t.stepCount == limitsOf(feature).maxSteps + workers - 1 + bare
    ensures BareSteps(limitsOf, limitsOf(feature).maxSteps, t.steps) == bare
  {
    var n, own, none := limitsOf(feature).maxSteps, Trace(feature, 0), Trace(unlimited, 0);
    var a1, s1 := Alone(limitsOf, workers, [], InitialState(workers), own, n - 1);
    var a2, s2 := Alone(limitsOf, workers, a1, s1, none, bare);
    actions, t := Together(limitsOf, workers, a2, s2, own);
    BareStepsRepeat(limitsOf, n, [], own, n - 1);
    BareStepsRepeat(limitsOf, n, s1.steps, none, bare);
    BareStepsRepeat(limitsOf, n, s2.steps, own, workers);
  }

  /** With the step limit off, some run reaches a total cost of exactly
      limit - 1 + W * maxSingle + bare. */
  lemma CostOvershootIsReached(
      limitsOf: string -> Limits, workers: nat, feature: string, maxSingle: nat, unlimited: string, bare: nat)
    returns (actions: seq<Action>, t: State)
    requires workers > 0 && feature != "" && limitsOf(feature).maxCost > 0 && limitsOf(feature).maxSteps <= 0
    requires maxSingle > 0
    requires LimitsFor(limitsOf, unlimited).maxSteps <= 0 && LimitsFor(limitsOf, unlimited).maxCost <= 0
    ensures Run(limitsOf, InitialState(workers), actions, t)
    ensures BoundCostsAtMost(limitsOf, limitsOf(feature).maxCost, actions, maxSingle)
    ensures t.totalCost == limitsOf(feature).maxCost - 1 + workers * maxSingle + bare
    ensures BareCost(limitsOf, limitsOf(feature).maxCost, t.costs) == bare
  {
    var c := limitsOf(feature).maxCost;
    var small, none, large := Trace(feature, 1), Trace(unlimited, 1), Trace(feature, maxSingle);
    var a1, s1 := Alone(limitsOf, workers, [], InitialState(workers), small, c - 1);
    var a2, s2 := Alone(limitsOf, workers, a1, s1, none, bare);
    actions, t := Together(limitsOf, workers, a2, s2, large);
    BareCostRepeat(limitsOf, c, [], small, c - 1);
    BareCostRepeat(limitsOf, c, s1.costs, none, bare);
    BareCostRepeat(limitsOf, c, s2.costs, large, workers);
  }

  // ---- When the bound holds without bare traces ----------------------------

  ghost predicate NamesOnly(actions: seq<Action>, features: set<string>) {
    forall a :: a in actions && a.Check? ==> a.trace.feature in features
  }

  ghost predicate CountsOnly(s: State, features: set<string>) {
    && (forall w :: 0 <= w < |s.workers| && !s.workers[w].Idle? ==> s.workers[w].trace.feature in features)
    && (forall trace :: trace in s.steps || trace in s.costs ==> trace.feature in features)
  }

  lemma {:induction false} RunCountsOnly(
      limitsOf: string -> Limits, s: State, actions: seq<Action>, t: State, features: set<string>)
    requires CountsOnly(s, features) && NamesOnly(actions, features) && Run(limitsOf, s, actions, t)
    ensures CountsOnly(t, features)
    decreases |actions|
  {
    if actions == [] {
    } else {
      RunCountsOnly(limitsOf, Next(limitsOf, s, actions[0]), actions[1..], t, features);
    }
  }

  lemma {:induction false} NoBareSteps(limitsOf: string -> Limits, n: nat, traces: seq<Trace>)
    requires forall trace :: trace in traces ==> StepBinds(limitsOf, n, trace)
    ensures BareSteps(limitsOf, n, traces) == 0
    decreases |traces|
  {
    if traces == [] {
    } else {
      NoBareSteps(limitsOf, n, traces[..|traces| - 1]);
    }
  }

  lemma {:induction false} NoBareCost(limitsOf: string -> Limits, c: nat, traces: seq<Trace>)
    requires forall trace :: trace in traces ==> CostBinds(limitsOf, c, trace)
    ensures BareCost(limitsOf, c, traces) == 0
    decreases |traces|
  {
    if traces == [] {
    } else {
      NoBareCost(limitsOf, c, traces[..|traces| - 1]);
    }
  }

  /** No session whose traces name these features ever exceeds n + W - 1 steps. */
  ghost predicate StepBoundHolds(limitsOf: string -> Limits, n: nat, workers: nat, features: set<string>) {
    forall actions, t :: Run(limitsOf, InitialState(workers), actions, t) && NamesOnly(actions, features) ==>
      t.stepCount <= n + workers - 1
  }

  /** A feature whose own limit is off, or larger than n, takes a session over the
      bound all by itself. */
  lemma ExceedsSteps(limitsOf: string -> Limits, n: nat, workers: nat, feature: string)
    returns (actions: seq<Action>, t: State)
    requires n > 0 && workers > 0 && !StepBinds(limitsOf, n, Trace(feature, 0))
    ensures Run(limitsOf, InitialState(workers), actions, t) && NamesOnly(actions, {feature})
    ensures t.stepCount > n + workers - 1
  {
    var own, limit := Trace(feature, 0), LimitsFor(limitsOf, feature).maxSteps;
    var a1, s1 := Alone(limitsOf, workers, [], InitialState(workers), own, if limit <= 0 then n else limit - 1);
    actions, t := Together(limitsOf, workers, a1, s1, own);
  }

  /** The bound N + W - 1 holds over every run exactly when the step limit of every
      feature that the traces name is on and at most N.  The empty feature has none. */
  lemma StepBoundIff(limitsOf: string -> Limits, n: nat, workers: nat, features: set<string>)
    requires n > 0 && workers > 0
    ensures StepBoundHolds(limitsOf, n, workers, features)
       <==> forall f :: f in features ==> f != "" && 1 <= limitsOf(f).maxSteps <= n
  {
    if f :| f in features && !StepBinds(limitsOf, n, Trace(f, 0)) {
      var actions, t := ExceedsSteps(limitsOf, n, workers, f);
      assert NamesOnly(actions, features);
    } else {
      forall actions, t | Run(limitsOf, InitialState(workers), actions, t) && NamesOnly(actions, features)
        ensures t.stepCount <= n + workers - 1
      {
        StepOvershoot(limitsOf, n, workers, actions, t);
        RunCountsOnly(limitsOf, InitialState(workers), actions, t, features);
        forall trace | trace in t.steps
          ensures StepBinds(limitsOf, n, trace)
        {
          assert StepBinds(limitsOf, n, Trace(trace.feature, 0));
        }
        NoBareSteps(limitsOf, n, t.steps);
      }
    }
  }

  ghost predicate CostsAtMost(actions: seq<Action>, maxSingle: nat) {
    forall a :: a in actions && a.Check? ==> a.trace.cost <= maxSingle
  }

  ghost predicate CostBoundHolds(
      limitsOf: string -> Limits, c: nat, workers: nat, features: set<string>, maxSingle: nat)
  {
    forall actions, t ::
      Run(limitsOf, InitialState(workers), actions, t)
      && NamesOnly(actions, features) && CostsAtMost(actions, maxSingle)
      ==> t.totalCost < c + workers * maxSingle
  }

  lemma ExceedsCost(limitsOf: string -> Limits, c: nat, workers: nat, feature: string, maxSingle: nat)
    returns (actions: seq<Action>, t: State)
    requires c > 0 && workers > 0 && maxSingle > 0 && LimitsFor(limitsOf, feature).maxSteps <= 0
    requires !CostBinds(limitsOf, c, Trace(feature, 0))
    ensures Run(limitsOf, InitialState(workers), actions, t)
    ensures NamesOnly(actions, {feature}) && CostsAtMost(actions, maxSingle)
    ensures t.totalCost >= c + workers * maxSingle
  {
    var limit, small := LimitsFor(limitsOf, feature).maxCost, Trace(feature, 1);
    var a1, s1 := Alone(limitsOf, workers, [], InitialState(workers), small, if limit <= 0 then c else limit - 1);
    actions, t := Together(limitsOf, workers, a1, s1, Trace(feature, maxSingle));
  }

  /** Where no step limit interferes, the cost bound holds over every run exactly when
      the cost limit of every named feature is on and at most c. */
  lemma CostBoundIff(limitsOf: string -> Limits, c: nat, workers: nat, features: set<string>, maxSingle: nat)
    requires c > 0 && workers > 0 && maxSingle > 0
    requires forall f :: f in features ==> f == "" || limitsOf(f).maxSteps <= 0
    ensures CostBoundHolds(limitsOf, c, workers, features, maxSingle)
       <==> forall f :: f in features ==> f != "" && 1 <= limitsOf(f).maxCost <= c
  {
    if f :| f in features && !CostBinds(limitsOf, c, Trace(f, 0)) {
      var actions, t := ExceedsCost(limitsOf, c, workers, f, maxSingle);
      assert NamesOnly(actions, features);
    } else {
      forall actions, t | Run(limitsOf, InitialState(workers), actions, t) && NamesOnly(actions, features)
                          && CostsAtMost(actions, maxSingle)
        ensures t.totalCost < c + workers * maxSingle
      {
        CostOvershoot(limitsOf, c, workers, actions, t, maxSingle);
        RunCountsOnly(limitsOf, InitialState(workers), actions, t, features);
        forall trace | trace in t.costs
          ensures CostBinds(limitsOf, c, trace)
        {
          assert CostBinds(limitsOf, c, Trace(trace.feature, 0));
        }
        NoBareCost(limitsOf, c, t.costs);
      }
    }
  }

  // ---- Sessions of one feature with both limits ----------------------------

  /** Workers that have added the cost of a trace and not yet its step. */
  ghost function Pending(s: State): set<nat> {
    set w: nat | w < |s.workers| && s.workers[w].CostAdded?
  }

  /** Each cost comes before its step, so what the cost counter counts and the step
      counter does not is still pending. */
  ghost predicate CostsCounted(s: State, maxSingle: nat) {
    && |s.costs| <= s.stepCount + |Pending(s)| && s.totalCost <= |s.costs| * maxSingle
    && (forall w :: 0 <= w < |s.workers| && s.workers[w].Checked? ==> s.workers[w].trace.cost <= maxSingle)
  }

  lemma PendingAfter(limitsOf: string -> Limits, s: State, a: Action)
    requires Enabled(s, a)
    ensures |Pending(Next(limitsOf, s, a))|
         == |Pending(s)| + (if a.AddCost? then 1 else 0) - (if a.AddStep? then 1 else 0)
  {
    var before, after := Pending(s), Pending(Next(limitsOf, s, a));
    if a.AddCost? {
      assert after == before + {a.w};
    } else if a.AddStep? {
      assert after == before - {a.w};
    } else {
      assert after == before;
    }
  }

  lemma NextCountsCosts(limitsOf: string -> Limits, s: State, a: Action, maxSingle: nat)
    requires Enabled(s, a) && CostsCounted(s, maxSingle) && (a.Check? ==> a.trace.cost <= maxSingle)
    ensures CostsCounted(Next(limitsOf, s, a), maxSingle)
  {
    PendingAfter(limitsOf, s, a);
    OneRoundLess(|s.costs| + 1, maxSingle);
  }

  /** A spent worker is not pending. */
  lemma SpentAndPending(limitsOf: string -> Limits, n: nat, s: State, spent: set<nat>)
    requires forall w :: w in spent ==> SpentSteps(limitsOf, n, s, w)
    ensures |spent| + |Pending(s)| <= |s.workers|
  {
    assert spent !! Pending(s);
    SubsetOfRange(spent + Pending(s), |s.workers|);
  }

  lemma TimesGrows(a: nat, b: nat, m: nat)
    requires a <= b
    ensures a * m <= b * m
  {
  }

  lemma {:induction false} CostFromSteps(
      limitsOf: string -> Limits, n: nat, s: State, actions: seq<Action>, t: State, spent: set<nat>, maxSingle: nat)
    requires n > 0 && StepsBounded(limitsOf, n, s, spent) && CostsCounted(s, maxSingle)
    requires CostsAtMost(actions, maxSingle) && Run(limitsOf, s, actions, t)
    ensures t.totalCost <= (n - 1 + |s.workers| + BareSteps(limitsOf, n, t.steps)) * maxSingle
    decreases |actions|
  {
    if actions == [] {
      SpentAndPending(limitsOf, n, s, spent);
      TimesGrows(|s.costs|, n - 1 + |s.workers| + BareSteps(limitsOf, n, s.steps), maxSingle);
    } else {
      var spent' := NextBoundsSteps(limitsOf, n, s, actions[0], spent);
      NextCountsCosts(limitsOf, s, actions[0], maxSingle);
      CostFromSteps(limitsOf, n, Next(limitsOf, s, actions[0]), actions[1..], t, spent', maxSingle);
    }
  }

  /** A step limit of n bounds the cost too: by n + W - 1 + bare times the largest one. */
  lemma StepLimitBoundsCost(
      limitsOf: string -> Limits, n: nat, workers: nat, actions: seq<Action>, t: State, maxSingle: nat)
    requires n > 0 && Run(limitsOf, InitialState(workers), actions, t) && CostsAtMost(actions, maxSingle)
    ensures t.totalCost <= (n - 1 + workers + BareSteps(limitsOf, n, t.steps)) * maxSingle
  {
    assert Pending(InitialState(workers)) == {};
    CostFromSteps(limitsOf, n, InitialState(workers), actions, t, {}, maxSingle);
  }

  /** The cost limit of the feature is on and at most c, or its step limit trips before
      a session costs c. */
  ghost predicate CostIsHeld(limits: Limits, c: nat, maxSingle: nat) {
    1 <= limits.maxCost <= c || (limits.maxSteps > 0 && (limits.maxSteps - 1) * maxSingle < c)
  }

  /** Rounds of the largest cost, and one of the rest, that come to c. */
  lemma RoundsFor(c: nat, maxSingle: nat, k: nat)
    requires maxSingle > 0 && k * maxSingle >= c
    ensures c / maxSingle * maxSingle + c % maxSingle == c
    ensures c / maxSingle + (if c % maxSingle > 0 then 1 else 0) <= k
  {
    var q := c / maxSingle;
    assert q * maxSingle + c % maxSingle == c;
    if k <= q - 1 {
      TimesGrows(k, q - 1, maxSingle);
      OneRoundLess(q, maxSingle);
    } else if k == q {
      assert c % maxSingle == 0;
    }
  }

  lemma NotYetHeld(limits: Limits, c: nat, maxSingle: nat, total: nat, count: nat)
    requires !CostIsHeld(limits, c, maxSingle) && total <= c && (limits.maxSteps > 0 ==> count < limits.maxSteps)
    requires c > 0
    ensures !Trips(limits, total, count)
  {
  }

  lemma QuietAtFirst(limitsOf: string -> Limits, workers: nat)
    ensures Run(limitsOf, InitialState(workers), [], InitialState(workers)) && Quiet(InitialState(workers), workers)
  {
  }

  /** q rounds of the largest cost and, if it is not zero, one of the rest. */
  lemma PlanFor(limits: Limits, c: nat, maxSingle: nat) returns (q: nat, rest: nat)
    requires c > 0 && maxSingle > 0 && !CostIsHeld(limits, c, maxSingle)
    ensures q * maxSingle + rest == c && rest <= maxSingle
    ensures !Trips(limits, q * maxSingle, q) && (rest > 0 ==> !Trips(limits, c, q + 1))
  {
    q, rest := c / maxSingle, c % maxSingle;
    TimesGrows(1, maxSingle, c);
    RoundsFor(c, maxSingle, if limits.maxSteps > 0 then limits.maxSteps - 1 else c);
    NotYetHeld(limits, c, maxSingle, q * maxSingle, q);
    NotYetHeld(limits, c, maxSingle, c, if rest > 0 then q + 1 else q);
  }

  /** A single worker brings a session to a total of exactly c, and does not trip. */
  lemma ReachesCost(limitsOf: string -> Limits, c: nat, workers: nat, feature: string, maxSingle: nat)
    returns (actions: seq<Action>, s: State)
    requires c > 0 && workers > 0 && maxSingle > 0
    requires !CostIsHeld(LimitsFor(limitsOf, feature), c, maxSingle)
    ensures Run(limitsOf, InitialState(workers), actions, s) && Quiet(s, workers) && s.totalCost == c
    ensures NamesOnly(actions, {feature}) && CostsAtMost(actions, maxSingle)
  {
    hide CostIsHeld, Trips, Run, Quiet, LimitsFor;
    QuietAtFirst(limitsOf, workers);
    var q, rest := PlanFor(LimitsFor(limitsOf, feature), c, maxSingle);
    actions, s := Alone(limitsOf, workers, [], InitialState(workers), Trace(feature, maxSingle), q);
    if rest > 0 {
      actions, s := Round(limitsOf, workers, actions, s, Trace(feature, rest));
    }
  }

  lemma ExceedsCostAlone(limitsOf: string -> Limits, c: nat, workers: nat, feature: string, maxSingle: nat)
    returns (actions: seq<Action>, t: State)
    requires c > 0 && workers > 0 && maxSingle > 0
    requires !CostIsHeld(LimitsFor(limitsOf, feature), c, maxSingle)
    ensures Run(limitsOf, InitialState(workers), actions, t)
    ensures NamesOnly(actions, {feature}) && CostsAtMost(actions, maxSingle)
    ensures t.totalCost >= c + workers * maxSingle
  {
    hide Run, Quiet, CostIsHeld;
    var a1, s1 := ReachesCost(limitsOf, c, workers, feature, maxSingle);
    actions, t := Together(limitsOf, workers, a1, s1, Trace(feature, maxSingle));
  }

  lemma HeldStaysBelow(
      limitsOf: string -> Limits, c: nat, workers: nat, feature: string, maxSingle: nat, actions: seq<Action>, t: State)
    requires c > 0 && workers > 0 && CostIsHeld(LimitsFor(limitsOf, feature), c, maxSingle)
    requires Run(limitsOf, InitialState(workers), actions, t)
    requires NamesOnly(actions, {feature}) && CostsAtMost(actions, maxSingle)
    ensures t.totalCost < c + workers * maxSingle
  {
    var limits := LimitsFor(limitsOf, feature);
    RunCountsOnly(limitsOf, InitialState(workers), actions, t, {feature});
    if 1 <= limits.maxCost <= c {
      CostOvershoot(limitsOf, c, workers, actions, t, maxSingle);
      NoBareCost(limitsOf, c, t.costs);
    } else {
      StepLimitBoundsCost(limitsOf, limits.maxSteps, workers, actions, t, maxSingle);
      NoBareSteps(limitsOf, limits.maxSteps, t.steps);
      assert (limits.maxSteps - 1 + workers) * maxSingle == (limits.maxSteps - 1) * maxSingle + workers * maxSingle;
    }
  }

  /** For sessions of one feature, whatever its limits: the cost bound holds over every
      run exactly when its cost limit is on and at most c, or its step limit is on and
      the steps below it cannot cost c. */
  lemma CostBoundOfFeatureIff(limitsOf: string -> Limits, c: nat, workers: nat, feature: string, maxSingle: nat)
    requires c > 0 && workers > 0 && maxSingle > 0
    ensures CostBoundHolds(limitsOf, c, workers, {feature}, maxSingle)
       <==> CostIsHeld(LimitsFor(limitsOf, feature), c, maxSingle)
  {
    if CostIsHeld(LimitsFor(limitsOf, feature), c, maxSingle) {
      forall actions, t | Run(limitsOf, InitialState(workers), actions, t) && NamesOnly(actions, {feature})
                          && CostsAtMost(actions, maxSingle)
        ensures t.totalCost < c + workers * maxSingle
      {
        HeldStaysBelow(limitsOf, c, workers, feature, maxSingle, actions, t);
      }
    } else {
      var actions, t := ExceedsCostAlone(limitsOf, c, workers, feature, maxSingle);
    }
  }
}
