/** Running an eval suite: one goroutine per case, a semaphore of three slots, a
    mutex around the shared totals, and a wait group for all of them. */
module EvalRun {

  import opened Collections

  const SLOTS := 3

  /** What a case comes to: upstream and scorer answers are arbitrary. */
  datatype Outcome = Outcome(quality: real, risk: real, latency: real, cost: real)

  /** The variables the goroutines share.  results names the case of each entry. */
  datatype Totals = Totals(results: seq<nat>, pass: nat, fail: nat, quality: real, latency: real, cost: real)

  /** A goroutine; inside the critical section it works on the values it has read. */
  datatype Routine = Spawned | Holding | Locked | Loaded(copy: Totals) | Stored | Unlocked | Released | Done

  datatype State = State(routines: seq<Routine>, slots: nat, owner: Option<nat>, shared: Totals)

  datatype Suite = Suite(outcomes: seq<Outcome>, passThreshold: real)

  predicate Passed(suite: Suite, i: nat)
    requires i < |suite.outcomes|
  {
    suite.outcomes[i].quality >= suite.passThreshold && suite.outcomes[i].risk <= 0.4
  }

  function Record(suite: Suite, t: Totals, i: nat): Totals
    requires i < |suite.outcomes|
  {
    var o := suite.outcomes[i];
    Totals(t.results + [i],
           if Passed(suite, i) then t.pass + 1 else t.pass,
           if Passed(suite, i) then t.fail else t.fail + 1,
           t.quality + o.quality, t.latency + o.latency, t.cost + o.cost)
  }

  function InitialState(suite: Suite): State {
    State(seq(|suite.outcomes|, _ => Spawned), 0, None, Totals([], 0, 0, 0.0, 0.0, 0.0))
  }

  /** Whether goroutine i can take its next step. */
  predicate Enabled(suite: Suite, s: State, i: nat) {
    i < |s.routines| == |suite.outcomes| &&
    match s.routines[i]
    case Spawned => s.slots < SLOTS
    case Holding => s.owner == None
    case Done => false
    case _ => true
  }

  function Next(suite: Suite, s: State, i: nat): State
    requires Enabled(suite, s, i)
  {
    var to := (r: Routine) => s.routines[i := r];
    match s.routines[i]
    case Spawned => s.(slots := s.slots + 1, routines := to(Holding))
    case Holding => s.(owner := Some(i), routines := to(Locked))
    case Locked => s.(routines := to(Loaded(s.shared)))
    case Loaded(copy) => s.(shared := Record(suite, copy, i), routines := to(Stored))
    case Stored => s.(owner := None, routines := to(Unlocked))
    case Unlocked => s.(slots := if s.slots > 0 then s.slots - 1 else 0, routines := to(Released))
    case Released => s.(routines := to(Done))
  }

  ghost predicate Run(suite: Suite, s: State, schedule: seq<nat>, t: State)
    decreases |schedule|
  {
    if schedule == [] then s == t
    else Enabled(suite, s, schedule[0]) && Run(suite, Next(suite, s, schedule[0]), schedule[1..], t)
  }

  // ---- What the totals mean ------------------------------------------------

  predicate HoldsSlot(r: Routine) {
    r.Holding? || r.Locked? || r.Loaded? || r.Stored? || r.Unlocked?
  }

  predicate InSection(r: Routine) {
    r.Locked? || r.Loaded? || r.Stored?
  }

  predicate HasStored(r: Routine) {
    r.Stored? || r.Unlocked? || r.Released? || r.Done?
  }

  ghost function SumOf(routines: seq<Routine>, amount: nat -> real): real {
    if routines == [] then 0.0
    else
      SumOf(routines[..|routines| - 1], amount)
      + if HasStored(routines[|routines| - 1]) then amount(|routines| - 1) else 0.0
  }

  lemma {:induction false} SumOfUpdate(routines: seq<Routine>, amount: nat -> real, i: nat, r: Routine)
    requires i < |routines|
    ensures SumOf(routines[i := r], amount) + (if HasStored(routines[i]) then amount(i) else 0.0)
         == SumOf(routines, amount) + if HasStored(r) then amount(i) else 0.0
    decreases |routines|
  {
    var n := |routines| - 1;
    if i == n {
      assert routines[i := r][..n] == routines[..n];
    } else {
      assert routines[i := r][..n] == routines[..n][i := r];
      SumOfUpdate(routines[..n], amount, i, r);
    }
  }

  ghost function Slot(): (Routine, nat) -> nat {
    (r: Routine, i: nat) => if HoldsSlot(r) then 1 else 0
  }

  ghost function PassedBy(suite: Suite): (Routine, nat) -> nat {
    (r: Routine, i: nat) => if HasStored(r) && i < |suite.outcomes| && Passed(suite, i) then 1 else 0
  }

  ghost function FailedBy(suite: Suite): (Routine, nat) -> nat {
    (r: Routine, i: nat) => if HasStored(r) && i < |suite.outcomes| && !Passed(suite, i) then 1 else 0
  }

  ghost function Quality(suite: Suite): nat -> real {
    (i: nat) => if i < |suite.outcomes| then suite.outcomes[i].quality else 0.0
  }

  ghost function Latency(suite: Suite): nat -> real {
    (i: nat) => if i < |suite.outcomes| then suite.outcomes[i].latency else 0.0
  }

  ghost function Cost(suite: Suite): nat -> real {
    (i: nat) => if i < |suite.outcomes| then suite.outcomes[i].cost else 0.0
  }

  /** The totals are those of the cases that have stored theirs. */
  ghost predicate Accounts(suite: Suite, routines: seq<Routine>, t: Totals) {
    && t.pass == Sum(routines, PassedBy(suite)) && t.fail == Sum(routines, FailedBy(suite))
    && t.quality == SumOf(routines, Quality(suite))
    && t.latency == SumOf(routines, Latency(suite))
    && t.cost == SumOf(routines, Cost(suite))
    && (forall i: nat :: multiset(t.results)[i] == if i < |routines| && HasStored(routines[i]) then 1 else 0)
  }

  ghost predicate Exclusive(s: State) {
    && (forall i :: 0 <= i < |s.routines| && InSection(s.routines[i]) ==> s.owner == Some(i))
    && (s.owner.Some? ==> s.owner.value < |s.routines| && InSection(s.routines[s.owner.value]))
    && (forall i :: 0 <= i < |s.routines| && s.routines[i].Loaded? ==> s.routines[i].copy == s.shared)
  }

  ghost predicate Inv(suite: Suite, s: State) {
    && |s.routines| == |suite.outcomes|
    && s.slots == Sum(s.routines, Slot()) && s.slots <= SLOTS
    && Exclusive(s)
    && Accounts(suite, s.routines, s.shared)
  }

  lemma NextKeepsSlots(suite: Suite, s: State, i: nat)
    requires Enabled(suite, s, i) && s.slots == Sum(s.routines, Slot()) <= SLOTS
    ensures Next(suite, s, i).slots == Sum(Next(suite, s, i).routines, Slot()) <= SLOTS
  {
    SumUpdate(s.routines, Slot(), i, Next(suite, s, i).routines[i]);
  }

  lemma NextIsExclusive(suite: Suite, s: State, i: nat)
    requires Enabled(suite, s, i) && Exclusive(s)
    ensures Exclusive(Next(suite, s, i))
  {
  }

  lemma UpdateAccounts(suite: Suite, routines: seq<Routine>, t: Totals, i: nat, r: Routine)
    requires |routines| == |suite.outcomes| && i < |routines| && Accounts(suite, routines, t)
    requires HasStored(routines[i]) ==> HasStored(r)
    ensures Accounts(suite, routines[i := r],
                     if HasStored(r) && !HasStored(routines[i]) then Record(suite, t, i) else t)
  {
    SumUpdate(routines, PassedBy(suite), i, r);
    SumUpdate(routines, FailedBy(suite), i, r);
    SumOfUpdate(routines, Quality(suite), i, r);
    SumOfUpdate(routines, Latency(suite), i, r);
    SumOfUpdate(routines, Cost(suite), i, r);
  }

  lemma NextKeepsInv(suite: Suite, s: State, i: nat)
    requires Enabled(suite, s, i) && Inv(suite, s)
    ensures Inv(suite, Next(suite, s, i))
  {
    NextKeepsSlots(suite, s, i);
    NextIsExclusive(suite, s, i);
    UpdateAccounts(suite, s.routines, s.shared, i, Next(suite, s, i).routines[i]);
  }

  lemma {:induction false} NoneStored(suite: Suite, routines: seq<Routine>)
    requires forall i :: 0 <= i < |routines| ==> routines[i] == Spawned
    ensures Sum(routines, Slot()) == Sum(routines, PassedBy(suite)) == Sum(routines, FailedBy(suite)) == 0
    ensures SumOf(routines, Quality(suite)) == SumOf(routines, Latency(suite)) == SumOf(routines, Cost(suite)) == 0.0
    decreases |routines|
  {
    if routines == [] {
    } else {
      NoneStored(suite, routines[..|routines| - 1]);
    }
  }

  lemma {:induction false} RunKeepsInv(suite: Suite, s: State, schedule: seq<nat>, t: State)
    requires Inv(suite, s) && Run(suite, s, schedule, t)
    ensures Inv(suite, t)
    decreases |schedule|
  {
    if schedule == [] {
    } else {
      NextKeepsInv(suite, s, schedule[0]);
      RunKeepsInv(suite, Next(suite, s, schedule[0]), schedule[1..], t);
    }
  }

  lemma Reachable(suite: Suite, schedule: seq<nat>, t: State)
    requires Run(suite, InitialState(suite), schedule, t)
    ensures Inv(suite, t)
  {
    NoneStored(suite, InitialState(suite).routines);
    RunKeepsInv(suite, InitialState(suite), schedule, t);
  }

  /** In every reachable state at most three cases hold a slot. */
  lemma AtMostThreeAtOnce(suite: Suite, schedule: seq<nat>, t: State)
    requires Run(suite, InitialState(suite), schedule, t)
    ensures Sum(t.routines, Slot()) <= 3
  {
    Reachable(suite, schedule, t);
  }

  // ---- When Wait returns ---------------------------------------------------

  ghost predicate AllDone(s: State) {
    forall i :: 0 <= i < |s.routines| ==> s.routines[i].Done?
  }

  /** The sum over all cases in suite order, whatever order they finished in. */
  ghost function SumAll(n: nat, amount: nat -> real): real {
    if n == 0 then 0.0 else SumAll(n - 1, amount) + amount(n - 1)
  }

  lemma {:induction false} AllCounted(suite: Suite, routines: seq<Routine>, amount: nat -> real)
    requires |routines| <= |suite.outcomes|
    requires forall i :: 0 <= i < |routines| ==> routines[i].Done?
    ensures Sum(routines, PassedBy(suite)) + Sum(routines, FailedBy(suite)) == |routines|
    ensures SumOf(routines, amount) == SumAll(|routines|, amount)
    decreases |routines|
  {
    if routines == [] {
    } else {
      var n := |routines| - 1;
      AllCounted(suite, routines[..n], amount);
      assert PassedBy(suite)(routines[n], n) == (if Passed(suite, n) then 1 else 0);
      assert FailedBy(suite)(routines[n], n) == (if Passed(suite, n) then 0 else 1);
    }
  }

  /** How many outcomes reach the threshold with a risk of at most 0.4. */
  ghost function GoodOutcomes(outcomes: seq<Outcome>, passThreshold: real): nat {
    if outcomes == [] then 0
    else
      var last := outcomes[|outcomes| - 1];
      GoodOutcomes(outcomes[..|outcomes| - 1], passThreshold)
      + if last.quality >= passThreshold && last.risk <= 0.4 then 1 else 0
  }

  lemma {:induction false} PassedAreGood(suite: Suite, routines: seq<Routine>)
    requires |routines| <= |suite.outcomes|
    requires forall i :: 0 <= i < |routines| ==> routines[i].Done?
    ensures Sum(routines, PassedBy(suite)) == GoodOutcomes(suite.outcomes[..|routines|], suite.passThreshold)
    decreases |routines|
  {
    if routines == [] {
    } else {
      var n := |routines| - 1;
      PassedAreGood(suite, routines[..n]);
      var upTo := suite.outcomes[..n + 1];
      assert upTo[..n] == suite.outcomes[..n] && upTo[n] == suite.outcomes[n];
      assert PassedBy(suite)(routines[n], n) == (if Passed(suite, n) then 1 else 0);
    }
  }

  /** Under every schedule: each case has one result, passes and failures add up to
      the number of cases, and the totals are the sums over all cases. */
  lemma WaitReturnsComplete(suite: Suite, schedule: seq<nat>, t: State)
    requires Run(suite, InitialState(suite), schedule, t) && AllDone(t)
    ensures t.shared.pass == GoodOutcomes(suite.outcomes, suite.passThreshold)
    ensures t.shared.pass + t.shared.fail == |suite.outcomes|
    ensures forall i: nat :: multiset(t.shared.results)[i] == if i < |suite.outcomes| then 1 else 0
    ensures t.shared.quality == SumAll(|suite.outcomes|, Quality(suite))
    ensures t.shared.latency == SumAll(|suite.outcomes|, Latency(suite))
    ensures t.shared.cost == SumAll(|suite.outcomes|, Cost(suite))
  {
    Reachable(suite, schedule, t);
    PassedAreGood(suite, t.routines);
    assert suite.outcomes[..|t.routines|] == suite.outcomes;
    AllCounted(suite, t.routines, Quality(suite));
    AllCounted(suite, t.routines, Latency(suite));
    AllCounted(suite, t.routines, Cost(suite));
  }

  /** Neither the semaphore nor the mutex can leave everybody waiting. */
  lemma NoDeadlock(suite: Suite, s: State)
    requires Inv(suite, s) && !AllDone(s)
    ensures exists i :: Enabled(suite, s, i)
  {
    if s.owner.Some? {
      assert Enabled(suite, s, s.owner.value);
    } else {
      var i: nat :| i < |s.routines| && !s.routines[i].Done?;
      if s.routines[i].Spawned? && s.slots >= SLOTS {
        var j := SomeWeight(s.routines, Slot());
        assert Enabled(suite, s, j);
      } else {
        assert Enabled(suite, s, i);
      }
    }
  }

  // ---- Wait returns --------------------------------------------------------

  ghost function StepsLeft(): (Routine, nat) -> nat {
    (r: Routine, i: nat) =>
      match r
      case Spawned => 7
      case Holding => 6
      case Locked => 5
      case Loaded(_) => 4
      case Stored => 3
      case Unlocked => 2
      case Released => 1
      case Done => 0
  }

  lemma NothingLeftIffDone(s: State)
    ensures AllDone(s) <==> Sum(s.routines, StepsLeft()) == 0
  {
    if AllDone(s) {
      SumIsZero(s.routines, StepsLeft());
    } else {
      var i: nat :| i < |s.routines| && !s.routines[i].Done?;
      SumUpdate(s.routines, StepsLeft(), i, Done);
    }
  }

  lemma {:induction false} StepsAddUp(suite: Suite, s: State, schedule: seq<nat>, t: State)
    requires Run(suite, s, schedule, t)
    ensures |schedule| + Sum(t.routines, StepsLeft()) == Sum(s.routines, StepsLeft())
    decreases |schedule|
  {
    if schedule == [] {
    } else {
      var i, u := schedule[0], Next(suite, s, schedule[0]);
      SumUpdate(s.routines, StepsLeft(), i, u.routines[i]);
      StepsAddUp(suite, u, schedule[1..], t);
    }
  }

  /** Wait returns under every schedule: none has more than seven steps for each case,
      all goroutines are done after exactly that many, and before that some goroutine
      can move. */
  lemma WaitReturns(suite: Suite, schedule: seq<nat>, t: State)
    requires Run(suite, InitialState(suite), schedule, t)
    ensures |schedule| <= 7 * |suite.outcomes|
    ensures AllDone(t) <==> |schedule| == 7 * |suite.outcomes|
    ensures AllDone(t) || exists i :: Enabled(suite, t, i)
  {
    StepsAddUp(suite, InitialState(suite), schedule, t);
    SumOfEqual(InitialState(suite).routines, StepsLeft(), 7);
    NothingLeftIffDone(t);
    Reachable(suite, schedule, t);
    if !AllDone(t) {
      NoDeadlock(suite, t);
    }
  }
}
