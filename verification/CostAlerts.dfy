/** The once-a-day cost alert of one feature and day, with any number of workers
    interleaving its Redis commands. */
module CostAlerts {

  import opened Collections

  // Times are in milliseconds from the start of the day.
  const HOUR := 3_600_000
  const DAY := 24 * HOUR
  const FIRED_TTL := 25 * HOUR

  /** An event of the day; stored: the trace was written, without which the alert
      check is skipped. */
  datatype Event = Event(timestamp: nat, cost: nat, stored: bool)

  datatype Worker =
    | Idle
    | Added(event: Event)              // the cost counter is incremented
    | Read(event: Event, value: nat)   // the counter is read back
    | Won(value: nat)                  // SETNX on the fired key succeeded

  /** firedUntil is the expiry of the fired key; alerts are the values pushed. */
  datatype State = State(total: nat, firedUntil: nat, clock: nat, workers: seq<Worker>, wins: nat, alerts: seq<nat>)

  datatype Action =
    | Increment(w: nat, event: Event)
    | ReadBack(w: nat)
    | Skip(w: nat)
    | Decide(w: nat, at: nat)
    | PushAlert(w: nat)

  function InitialState(workers: nat): State {
    State(0, 0, 0, seq(workers, _ => Idle), 0, [])
  }

  /** lag bounds the time from the event to the SETNX that its processing issues. */
  predicate Enabled(lag: nat, s: State, a: Action) {
    a.w < |s.workers| &&
    match a
    case Increment(w, e) => s.workers[w].Idle? && e.timestamp < DAY
    case ReadBack(w) => s.workers[w].Added? && s.workers[w].event.stored
    case Skip(w) => s.workers[w].Added? && !s.workers[w].event.stored
    case Decide(w, at) =>
      s.workers[w].Read? && s.clock <= at
      && s.workers[w].event.timestamp <= at <= s.workers[w].event.timestamp + lag
    case PushAlert(w) => s.workers[w].Won?
  }

  function Next(threshold: nat, lag: nat, s: State, a: Action): State
    requires Enabled(lag, s, a)
  {
    match a
    case Increment(w, e) => s.(total := s.total + e.cost, workers := s.workers[w := Added(e)])
    case ReadBack(w) => s.(workers := s.workers[w := Read(s.workers[w].event, s.total)])
    case Skip(w) => s.(workers := s.workers[w := Idle])
    case Decide(w, at) =>
      var value := s.workers[w].value;
      if value > threshold && s.firedUntil <= at then
        s.(clock := at, firedUntil := at + FIRED_TTL, wins := s.wins + 1, workers := s.workers[w := Won(value)])
      else
        s.(clock := at, workers := s.workers[w := Idle])
    case PushAlert(w) => s.(alerts := [s.workers[w].value] + s.alerts, workers := s.workers[w := Idle])
  }

  ghost predicate Run(threshold: nat, lag: nat, s: State, actions: seq<Action>, t: State)
    decreases |actions|
  {
    if actions == [] then s == t
    else Enabled(lag, s, actions[0]) && Run(threshold, lag, Next(threshold, lag, s, actions[0]), actions[1..], t)
  }

  // ---- At most one ---------------------------------------------------------

  ghost function HasWon(): (Worker, nat) -> nat {
    (w: Worker, i: nat) => if w.Won? then 1 else 0
  }

  /** Workers between their SETNX and their push. */
  ghost function Winners(workers: seq<Worker>): nat {
    Sum(workers, HasWon())
  }

  ghost predicate Bookkeeping(threshold: nat, s: State) {
    && s.wins == |s.alerts| + Winners(s.workers)
    && (forall w :: 0 <= w < |s.workers| && s.workers[w].Won? ==> s.workers[w].value > threshold)
    && (forall i :: 0 <= i < |s.alerts| ==> s.alerts[i] > threshold)
    && (forall w :: 0 <= w < |s.workers| && s.workers[w].Added? ==> s.workers[w].event.timestamp < DAY)
    && (forall w :: 0 <= w < |s.workers| && s.workers[w].Read? ==> s.workers[w].event.timestamp < DAY)
  }

  /** The first win keeps the key until every event of the day is through. */
  ghost predicate WonAtMostOnce(s: State) {
    s.wins == 0 || (s.wins == 1 && s.firedUntil >= FIRED_TTL)
  }

  lemma NextKeepsBooks(threshold: nat, lag: nat, s: State, a: Action)
    requires Enabled(lag, s, a) && Bookkeeping(threshold, s)
    ensures Bookkeeping(threshold, Next(threshold, lag, s, a))
  {
    var t := Next(threshold, lag, s, a);
    SumUpdate(s.workers, HasWon(), a.w, t.workers[a.w]);
    assert a.PushAlert? ==> t.alerts[1..] == s.alerts;
  }

  lemma {:induction false} RunKeepsBooks(threshold: nat, lag: nat, s: State, actions: seq<Action>, t: State)
    requires Bookkeeping(threshold, s) && Run(threshold, lag, s, actions, t)
    ensures Bookkeeping(threshold, t)
    ensures lag <= HOUR && WonAtMostOnce(s) ==> WonAtMostOnce(t)
    decreases |actions|
  {
    if actions == [] {
    } else {
      NextKeepsBooks(threshold, lag, s, actions[0]);
      RunKeepsBooks(threshold, lag, Next(threshold, lag, s, actions[0]), actions[1..], t);
    }
  }

  lemma InitialBooks(threshold: nat, workers: nat)
    ensures Bookkeeping(threshold, InitialState(workers)) && WonAtMostOnce(InitialState(workers))
  {
    SumIsZero(InitialState(workers).workers, HasWon());
  }

  /** With a processing lag of at most an hour one alert at most is fired for the
      day, in every interleaving, and it reports a value over the threshold. */
  lemma AtMostOneAlert(threshold: nat, lag: nat, workers: nat, actions: seq<Action>, t: State)
    requires lag <= HOUR && Run(threshold, lag, InitialState(workers), actions, t)
    ensures |t.alerts| <= 1 && forall i :: 0 <= i < |t.alerts| ==> t.alerts[i] > threshold
  {
    InitialBooks(threshold, workers);
    RunKeepsBooks(threshold, lag, InitialState(workers), actions, t);
  }

  /** A single worker takes event e through all steps and fires at time at. */
  function Round(e: Event, at: nat): seq<Action> {
    [Increment(0, e), ReadBack(0), Decide(0, at), PushAlert(0)]
  }

  lemma RoundFires(threshold: nat, lag: nat, s: State, e: Event, at: nat, rest: seq<Action>, t: State)
    requires s.workers == [Idle] && e.stored && e.timestamp < DAY && s.clock <= at && s.firedUntil <= at
    requires e.timestamp <= at <= e.timestamp + lag && s.total + e.cost > threshold
    requires var total := s.total + e.cost;
             Run(threshold, lag, State(total, at + FIRED_TTL, at, [Idle], s.wins + 1, [total] + s.alerts), rest, t)
    ensures Run(threshold, lag, s, Round(e, at) + rest, t)
  {
    var total := s.total + e.cost;
    var s1 := s.(total := total, workers := [Added(e)]);
    var s2 := s1.(workers := [Read(e, total)]);
    var s3 := s2.(clock := at, firedUntil := at + FIRED_TTL, wins := s.wins + 1, workers := [Won(total)]);
    assert Run(threshold, lag, s3, [PushAlert(0)] + rest, t) by {
      assert ([PushAlert(0)] + rest)[1..] == rest && s3.workers[0 := Idle] == [Idle];
    }
    assert Run(threshold, lag, s2, [Decide(0, at), PushAlert(0)] + rest, t) by {
      assert ([Decide(0, at), PushAlert(0)] + rest)[1..] == [PushAlert(0)] + rest;
      assert s2.workers[0 := Won(total)] == s3.workers;
    }
    assert Run(threshold, lag, s1, [ReadBack(0), Decide(0, at), PushAlert(0)] + rest, t) by {
      assert ([ReadBack(0), Decide(0, at), PushAlert(0)] + rest)[1..] == [Decide(0, at), PushAlert(0)] + rest;
      assert s1.workers[0 := Read(e, total)] == s2.workers;
    }
    assert s.workers[0 := Added(e)] == s1.workers;
    assert (Round(e, at) + rest)[1..] == [ReadBack(0), Decide(0, at), PushAlert(0)] + rest;
  }

  /** With a longer lag a second alert can fire for the same day: the last event is
      decided when the key of the first has just expired. */
  lemma LateAlertFiresTwice(threshold: nat, lag: nat)
    returns (actions: seq<Action>, t: State)
    requires lag > HOUR
    ensures Run(threshold, lag, InitialState(1), actions, t) && |t.alerts| == 2
  {
    var s, n := InitialState(1), threshold + 1;
    var e1, e2 := Event(0, n, true), Event(DAY - 1, 0, true);
    t := State(n, 2 * FIRED_TTL, FIRED_TTL, [Idle], 2, [n] + [n]);
    var u := State(n, FIRED_TTL, 0, [Idle], 1, [n] + []);
    RoundFires(threshold, lag, u, e2, FIRED_TTL, [], t);
    RoundFires(threshold, lag, s, e1, 0, Round(e2, FIRED_TTL) + [], t);
    actions := Round(e1, 0) + (Round(e2, FIRED_TTL) + []);
  }

  ghost predicate NeverTwoAlerts(threshold: nat, lag: nat) {
    forall workers, actions, t :: Run(threshold, lag, InitialState(workers), actions, t) ==> |t.alerts| <= 1
  }

  /** The fired key does its job exactly when no event is decided more than an hour
      after it happened. */
  lemma NeverTwoAlertsIffWithinHour(threshold: nat, lag: nat)
    ensures NeverTwoAlerts(threshold, lag) <==> lag <= 3_600_000
  {
    if lag <= HOUR {
      forall workers, actions, t | Run(threshold, lag, InitialState(workers), actions, t)
        ensures |t.alerts| <= 1
      {
        AtMostOneAlert(threshold, lag, workers, actions, t);
      }
    } else {
      var actions, t := LateAlertFiresTwice(threshold, lag);
    }
  }

  // ---- At least one --------------------------------------------------------

  /** Some worker is still going to see the total over the threshold. */
  ghost predicate WillSee(threshold: nat, s: State) {
    exists w :: 0 <= w < |s.workers| && (s.workers[w].Added? || (s.workers[w].Read? && s.workers[w].value > threshold))
  }

  ghost predicate Covered(threshold: nat, s: State) {
    && (s.total > threshold ==> s.wins > 0 || WillSee(threshold, s))
    && (s.wins == 0 ==> s.firedUntil == 0)
    && (forall w :: 0 <= w < |s.workers| && s.workers[w].Added? ==> s.workers[w].event.stored)
  }

  ghost predicate AllStored(actions: seq<Action>) {
    forall i :: 0 <= i < |actions| && actions[i].Increment? ==> actions[i].event.stored
  }

  lemma NextCovers(threshold: nat, lag: nat, s: State, a: Action)
    requires Enabled(lag, s, a) && Covered(threshold, s) && (a.Increment? ==> a.event.stored)
    ensures Covered(threshold, Next(threshold, lag, s, a))
  {
    var t := Next(threshold, lag, s, a);
    if t.total > threshold && t.wins == 0 {
      if a.Increment? || a.ReadBack? {
        assert t.workers[a.w].Added? || t.workers[a.w].value > threshold;
      } else {
        var w :| 0 <= w < |s.workers|
                 && (s.workers[w].Added? || (s.workers[w].Read? && s.workers[w].value > threshold));
        assert t.workers[w] == s.workers[w];
      }
    }
  }

  lemma {:induction false} RunCovers(threshold: nat, lag: nat, s: State, actions: seq<Action>, t: State)
    requires Covered(threshold, s) && AllStored(actions) && Run(threshold, lag, s, actions, t)
    ensures Covered(threshold, t)
    decreases |actions|
  {
    if actions == [] {
    } else {
      NextCovers(threshold, lag, s, actions[0]);
      RunCovers(threshold, lag, Next(threshold, lag, s, actions[0]), actions[1..], t);
    }
  }

  /** Values read back never exceed the current total. */
  ghost predicate ReadsBounded(s: State) {
    && (forall w :: 0 <= w < |s.workers| && (s.workers[w].Read? || s.workers[w].Won?) ==> s.workers[w].value <= s.total)
    && (forall i :: 0 <= i < |s.alerts| ==> s.alerts[i] <= s.total)
  }

  lemma {:induction false} RunBoundsReads(threshold: nat, lag: nat, s: State, actions: seq<Action>, t: State)
    requires ReadsBounded(s) && Run(threshold, lag, s, actions, t)
    ensures ReadsBounded(t)
    decreases |actions|
  {
    if actions == [] {
    } else {
      RunBoundsReads(threshold, lag, Next(threshold, lag, s, actions[0]), actions[1..], t);
    }
  }

  /** What the events of a run cost. */
  ghost function CostOf(actions: seq<Action>): nat
    decreases |actions|
  {
    if actions == [] then 0
    else (if actions[0].Increment? then actions[0].event.cost else 0) + CostOf(actions[1..])
  }

  lemma {:induction false} RunAddsUp(threshold: nat, lag: nat, s: State, actions: seq<Action>, t: State)
    requires Run(threshold, lag, s, actions, t)
    ensures t.total == s.total + CostOf(actions)
    decreases |actions|
  {
    if actions == [] {
    } else {
      RunAddsUp(threshold, lag, Next(threshold, lag, s, actions[0]), actions[1..], t);
    }
  }

  /** When all workers are idle again and every trace was stored, exactly one alert
      has been fired if the events of the run cost more than the threshold, and none
      otherwise. */
  lemma OneAlertAtRest(threshold: nat, lag: nat, workers: nat, actions: seq<Action>, t: State)
    requires lag <= HOUR && AllStored(actions) && Run(threshold, lag, InitialState(workers), actions, t)
    requires forall w :: 0 <= w < |t.workers| ==> t.workers[w].Idle?
    ensures |t.alerts| == if CostOf(actions) > threshold then 1 else 0
  {
    InitialBooks(threshold, workers);
    RunKeepsBooks(threshold, lag, InitialState(workers), actions, t);
    RunCovers(threshold, lag, InitialState(workers), actions, t);
    RunBoundsReads(threshold, lag, InitialState(workers), actions, t);
    RunAddsUp(threshold, lag, InitialState(workers), actions, t);
    SumIsZero(t.workers, HasWon());
    assert t.alerts != [] ==> threshold < t.alerts[0] <= t.total;
  }

  // ---- Only stored events are looked at ------------------------------------

  ghost predicate NoneToCheck(s: State) {
    && s.alerts == [] && (forall w :: 0 <= w < |s.workers| ==> s.workers[w].Idle? || s.workers[w].Added?)
    && (forall w :: 0 <= w < |s.workers| && s.workers[w].Added? ==> !s.workers[w].event.stored)
  }

  /** While no trace can be stored no alert is fired, whatever the day costs. */
  lemma {:induction false} NothingStoredNoAlert(threshold: nat, lag: nat, s: State, actions: seq<Action>, t: State)
    requires NoneToCheck(s) && Run(threshold, lag, s, actions, t)
    requires forall i :: 0 <= i < |actions| && actions[i].Increment? ==> !actions[i].event.stored
    ensures t.alerts == []
    decreases |actions|
  {
    if actions == [] {
    } else {
      NothingStoredNoAlert(threshold, lag, Next(threshold, lag, s, actions[0]), actions[1..], t);
    }
  }

  // ---- Any worker can take any event ---------------------------------------

  lemma OneStep(threshold: nat, lag: nat, s: State, actions: seq<Action>, t: State)
    ensures actions == [] ==> (Run(threshold, lag, s, actions, t) <==> s == t)
    ensures actions != [] && Enabled(lag, s, actions[0]) ==>
              (Run(threshold, lag, s, actions, t)
               <==> Run(threshold, lag, Next(threshold, lag, s, actions[0]), actions[1..], t))
  {
  }

  /** An idle worker can take any event of the day all the way, whichever worker it is,
      whatever the others are doing, and at any time within the lag that is not past:
      if the day's cost is then over the threshold and no alert is out, it fires. */
  lemma AnyWorkerFires(threshold: nat, lag: nat, s: State, w: nat, e: Event, at: nat)
    requires w < |s.workers| && s.workers[w].Idle? && e.stored && e.timestamp < 24 * 3_600_000
    requires s.clock <= at && e.timestamp <= at <= e.timestamp + lag
    requires s.firedUntil <= at && s.total + e.cost > threshold
    ensures exists t :: Run(threshold, lag, s, [Increment(w, e), ReadBack(w), Decide(w, at), PushAlert(w)], t)
                        && t.alerts == [s.total + e.cost] + s.alerts && t.workers == s.workers
  {
    var total := s.total + e.cost;
    var s1 := Next(threshold, lag, s, Increment(w, e));
    var s2 := Next(threshold, lag, s1, ReadBack(w));
    var s3 := Next(threshold, lag, s2, Decide(w, at));
    var t := Next(threshold, lag, s3, PushAlert(w));
    OneStep(threshold, lag, t, [], t);
    OneStep(threshold, lag, s3, [PushAlert(w)], t);
    OneStep(threshold, lag, s2, [Decide(w, at), PushAlert(w)], t);
    OneStep(threshold, lag, s1, [ReadBack(w), Decide(w, at), PushAlert(w)], t);
    OneStep(threshold, lag, s, [Increment(w, e), ReadBack(w), Decide(w, at), PushAlert(w)], t);
    assert t.workers == s.workers;
  }

  /** Otherwise, or while an alert is out, it takes the event through without one, and is
      idle again. */
  lemma AnyWorkerPasses(threshold: nat, lag: nat, s: State, w: nat, e: Event, at: nat)
    requires w < |s.workers| && s.workers[w].Idle? && e.stored && e.timestamp < 24 * 3_600_000
    requires s.clock <= at && e.timestamp <= at <= e.timestamp + lag
    requires at < s.firedUntil || s.total + e.cost <= threshold
    ensures exists t :: Run(threshold, lag, s, [Increment(w, e), ReadBack(w), Decide(w, at)], t)
                        && t.alerts == s.alerts && t.workers == s.workers && t.clock == at
  {
    var s1 := Next(threshold, lag, s, Increment(w, e));
    var s2 := Next(threshold, lag, s1, ReadBack(w));
    var t := Next(threshold, lag, s2, Decide(w, at));
    OneStep(threshold, lag, t, [], t);
    OneStep(threshold, lag, s2, [Decide(w, at)], t);
    OneStep(threshold, lag, s1, [ReadBack(w), Decide(w, at)], t);
    OneStep(threshold, lag, s, [Increment(w, e), ReadBack(w), Decide(w, at)], t);
    assert t.workers == s.workers;
  }
}
