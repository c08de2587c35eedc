/** The event emitter: a bounded channel drained by a pool of workers, and its
    shutdown.  Every interleaving of callers and workers is a run of Next. */
module Emitter {

  import opened Collections

  // ---- The protocol --------------------------------------------------------

  /** Where a worker is in its loop: the outer select, or the drain loop that
      follows the observed cancellation. */
  datatype Phase = Serving | Draining

  datatype Worker<E> = Waiting(phase: Phase) | Processing(phase: Phase, event: E) | Exited

  /** The channel and the workers, with the history of the run beside them. */
  datatype State<E> = State(
    capacity: nat, buffer: seq<E>, cancelled: bool, workers: seq<Worker<E>>,
    emitted: seq<E>, accepted: seq<E>, dropped: seq<E>, taken: seq<E>, processed: seq<E>)

  datatype Action<E> =
    | Emit(event: E)
    | HandOff(event: E, to: nat)  // a send that meets a worker blocked in its select
    | Cancel
    | Receive(w: nat)
    | ObserveCancel(w: nat)
    | Finish(w: nat)
    | Exit(w: nat)
  {
    predicate ByWorker() { Receive? || ObserveCancel? || Finish? || Exit? }
  }

  function InitialState<E>(capacity: nat, workers: nat): State<E> {
    State(capacity, [], false, seq(workers, _ => Waiting(Serving)), [], [], [], [], [])
  }

  predicate Enabled<E>(s: State<E>, a: Action<E>) {
    match a
    case Emit(_) => true
    case HandOff(_, w) => w < |s.workers| && s.workers[w] == Waiting(Serving) && s.buffer == []
    case Cancel => true
    case Receive(w) => w < |s.workers| && s.workers[w].Waiting? && s.buffer != []
    case ObserveCancel(w) => w < |s.workers| && s.workers[w] == Waiting(Serving) && s.cancelled
    case Finish(w) => w < |s.workers| && s.workers[w].Processing?
    case Exit(w) => w < |s.workers| && s.workers[w] == Waiting(Draining) && s.buffer == []
  }

  function Next<E>(s: State<E>, a: Action<E>): State<E>
    requires Enabled(s, a)
  {
    match a
    case Emit(e) =>
      if |s.buffer| < s.capacity then
        s.(buffer := s.buffer + [e], emitted := s.emitted + [e], accepted := s.accepted + [e])
      else
        s.(emitted := s.emitted + [e], dropped := s.dropped + [e])
    case HandOff(e, w) =>
      s.(workers := s.workers[w := Processing(Serving, e)],
      emitted := s.emitted + [e], accepted := s.accepted + [e], taken := s.taken + [e])
    case Cancel => s.(cancelled := true)
    case Receive(w) =>
      s.(workers := s.workers[w := Processing(s.workers[w].phase, s.buffer[0])],
      buffer := s.buffer[1..], taken := s.taken + [s.buffer[0]])
    case ObserveCancel(w) => s.(workers := s.workers[w := Waiting(Draining)])
    case Finish(w) =>
      s.(workers := s.workers[w := Waiting(s.workers[w].phase)],
      processed := s.processed + [s.workers[w].event])
    case Exit(w) => s.(workers := s.workers[w := Exited])
  }

  /** The actions take s to t. */
  ghost predicate Run<E>(s: State<E>, actions: seq<Action<E>>, t: State<E>)
    decreases |actions|
  {
    if actions == [] then s == t
    else Enabled(s, actions[0]) && Run(Next(s, actions[0]), actions[1..], t)
  }

  // ---- Conservation over every run -----------------------------------------

  ghost function Holds<E>(e: E): (Worker<E>, nat) -> nat {
    (w: Worker<E>, i: nat) => if w.Processing? && w.event == e then 1 else 0
  }

  /** How many workers are processing e. */
  ghost function InFlight<E>(workers: seq<Worker<E>>, e: E): nat {
    Sum(workers, Holds(e))
  }

  /** How often e occurs in s. */
  ghost function Times<E>(s: seq<E>, e: E): nat {
    multiset(s)[e]
  }

  ghost predicate Balanced<E>(s: State<E>, e: E) {
    && Times(s.taken, e) == Times(s.processed, e) + InFlight(s.workers, e)
    && Times(s.emitted, e) == Times(s.accepted, e) + Times(s.dropped, e)
  }

  ghost predicate Conserved<E(!new)>(s: State<E>) {
    && |s.buffer| <= s.capacity
       // first in, first out
    && s.accepted == s.taken + s.buffer
    && forall e :: Balanced(s, e)
  }

  lemma TimesAppended<E>(s: seq<E>, x: E, e: E)
    ensures Times(s + [x], e) == Times(s, e) + if x == e then 1 else 0
  {
  }

  lemma NextBalances<E>(s: State<E>, a: Action<E>, e: E)
    requires Balanced(s, e) && Enabled(s, a)
    ensures Balanced(Next(s, a), e)
  {
    hide Times;
    match a {
      case Emit(x) =>
        TimesAppended(s.emitted, x, e);
        TimesAppended(s.accepted, x, e);
        TimesAppended(s.dropped, x, e);
      case HandOff(x, _) =>
        TimesAppended(s.emitted, x, e);
        TimesAppended(s.accepted, x, e);
        TimesAppended(s.taken, x, e);
      case Receive(_) => TimesAppended(s.taken, s.buffer[0], e);
      case Finish(w) => TimesAppended(s.processed, s.workers[w].event, e);
      case _ =>
    }
    if a.ByWorker() || a.HandOff? {
      var w := if a.HandOff? then a.to else a.w;
      SumUpdate(s.workers, Holds(e), w, Next(s, a).workers[w]);
    }
  }

  lemma NextConserves<E(!new)>(s: State<E>, a: Action<E>)
    requires Conserved(s) && Enabled(s, a)
    ensures Conserved(Next(s, a))
  {
    if a.Receive? {
      assert s.buffer == [s.buffer[0]] + s.buffer[1..];
    }
    forall e
      ensures Balanced(Next(s, a), e)
    {
      NextBalances(s, a, e);
    }
  }

  lemma Accounted<E(!new)>(s: State<E>, e: E)
    requires Conserved(s)
    ensures Times(s.emitted, e)
         == Times(s.dropped, e) + Times(s.buffer, e) + InFlight(s.workers, e) + Times(s.processed, e)
  {
    assert Balanced(s, e);
    assert multiset(s.accepted) == multiset(s.taken) + multiset(s.buffer);
  }

  /** In every reachable state each event is dropped, buffered, in flight or
      processed, together exactly as often as it was emitted; the channel never
      exceeds its capacity and events leave it in the order they entered it. */
  lemma {:induction false} RunConserves<E(!new)>(s: State<E>, actions: seq<Action<E>>, t: State<E>)
    requires Conserved(s) && Run(s, actions, t)
    ensures Conserved(t)
    ensures forall e :: Times(t.emitted, e)
                     == Times(t.dropped, e) + Times(t.buffer, e) + InFlight(t.workers, e) + Times(t.processed, e)
    ensures t.taken <= t.accepted && |t.buffer| <= t.capacity == s.capacity
    decreases |actions|
  {
    if actions != [] {
      NextConserves(s, actions[0]);
      RunConserves(Next(s, actions[0]), actions[1..], t);
    } else {
      forall e
        ensures Times(s.emitted, e)
             == Times(s.dropped, e) + Times(s.buffer, e) + InFlight(s.workers, e) + Times(s.processed, e)
      {
        Accounted(s, e);
      }
    }
  }

  lemma InitiallyConserved<E(!new)>(capacity: nat, workers: nat)
    ensures Conserved(InitialState<E>(capacity, workers))
  {
    var s := InitialState<E>(capacity, workers);
    forall e
      ensures Balanced(s, e)
    {
      SumIsZero(s.workers, Holds(e));
    }
  }

  lemma {:induction false} SameWorkers<E>(s: State<E>, actions: seq<Action<E>>, t: State<E>)
    requires Run(s, actions, t)
    ensures |t.workers| == |s.workers|
    decreases |actions|
  {
    if actions == [] {
    } else {
      SameWorkers(Next(s, actions[0]), actions[1..], t);
    }
  }

  /** The same from New and Start on: what holds in every reachable state. */
  lemma ReachableConserves<E(!new)>(capacity: nat, workers: nat, actions: seq<Action<E>>, t: State<E>)
    requires Run(InitialState(capacity, workers), actions, t)
    ensures Conserved(t) && |t.buffer| <= capacity && t.taken <= t.accepted && |t.workers| == workers
    ensures forall e :: Times(t.emitted, e)
                     == Times(t.dropped, e) + Times(t.buffer, e) + InFlight(t.workers, e) + Times(t.processed, e)
  {
    InitiallyConserved<E>(capacity, workers);
    RunConserves(InitialState(capacity, workers), actions, t);
    SameWorkers(InitialState(capacity, workers), actions, t);
  }

  // ---- What is emitted, and what is dropped --------------------------------

  /** The events that callers emit in a run, in order. */
  ghost function EmittedBy<E>(actions: seq<Action<E>>): seq<E>
    decreases |actions|
  {
    if actions == [] then []
    else (if actions[0].Emit? || actions[0].HandOff? then [actions[0].event] else []) + EmittedBy(actions[1..])
  }

  /** Those of them that meet a full channel and no waiting worker. */
  ghost function EmittedWhenFull<E>(s: State<E>, actions: seq<Action<E>>, t: State<E>): seq<E>
    requires Run(s, actions, t)
    decreases |actions|
  {
    if actions == [] then []
    else
      (if actions[0].Emit? && |s.buffer| >= s.capacity then [actions[0].event] else [])
      + EmittedWhenFull(Next(s, actions[0]), actions[1..], t)
  }

  ghost function CountEmits<E>(actions: seq<Action<E>>): nat
    decreases |actions|
  {
    if actions == [] then 0 else (if actions[0].Emit? then 1 else 0) + CountEmits(actions[1..])
  }

  lemma NextEmits<E>(s: State<E>, a: Action<E>)
    requires Enabled(s, a)
    ensures Next(s, a).emitted == s.emitted + if a.Emit? || a.HandOff? then [a.event] else []
    ensures Next(s, a).dropped == s.dropped + if a.Emit? && |s.buffer| >= s.capacity then [a.event] else []
  {
  }

  /** Over every run what is emitted is what the callers emit, in order, and exactly the
      events that meet a full channel are dropped. */
  lemma {:induction false} OnlyFullDrops<E>(s: State<E>, actions: seq<Action<E>>, t: State<E>)
    requires Run(s, actions, t)
    ensures t.emitted == s.emitted + EmittedBy(actions)
    ensures t.dropped == s.dropped + EmittedWhenFull(s, actions, t)
    decreases |actions|
  {
    if actions == [] {
    } else {
      hide Next, Enabled;
      var a, u := actions[0], Next(s, actions[0]);
      NextEmits(s, a);
      OnlyFullDrops(u, actions[1..], t);
      Assoc(s.emitted, if a.Emit? || a.HandOff? then [a.event] else [], EmittedBy(actions[1..]));
      Assoc(s.dropped, if a.Emit? && |s.buffer| >= s.capacity then [a.event] else [],
            EmittedWhenFull(u, actions[1..], t));
    }
  }

  lemma {:induction false} RoomForAll<E>(s: State<E>, actions: seq<Action<E>>, t: State<E>)
    requires Run(s, actions, t) && |s.buffer| + CountEmits(actions) <= s.capacity
    ensures t.dropped == s.dropped
    decreases |actions|
  {
    if actions == [] {
    } else {
      RoomForAll(Next(s, actions[0]), actions[1..], t);
    }
  }

  /** As long as no more events are emitted than the channel holds, none is dropped,
      whatever the workers do. */
  lemma NoDropWithinCapacity<E>(capacity: nat, workers: nat, actions: seq<Action<E>>, t: State<E>)
    requires Run(InitialState(capacity, workers), actions, t) && CountEmits(actions) <= capacity
    ensures t.dropped == []
  {
    RoomForAll(InitialState(capacity, workers), actions, t);
  }

  /** In every state a caller can emit, and leaves the event accepted or dropped. */
  lemma EmitNeverBlocks<E>(s: State<E>, e: E)
    ensures exists t :: Run(s, [Emit(e)], t) && (t.accepted == s.accepted + [e] || t.dropped == s.dropped + [e])
  {
    var t := Next(s, Emit(e));
    assert ([Emit(e)])[1..] == [] && Run(t, [], t);
    assert Run(s, [Emit(e)], t);
  }

  ghost predicate AllServing<E>(s: State<E>) {
    forall w :: 0 <= w < |s.workers| ==> !s.workers[w].Exited? && s.workers[w].phase == Serving
  }

  lemma {:induction false} CancelIsKept<E>(s: State<E>, actions: seq<Action<E>>, t: State<E>)
    requires Run(s, actions, t)
    ensures t.cancelled <==> s.cancelled || Cancel in actions
    ensures !t.cancelled && AllServing(s) ==> AllServing(t)
    decreases |actions|
  {
    if actions == [] {
    } else {
      CancelIsKept(Next(s, actions[0]), actions[1..], t);
      assert Cancel in actions <==> actions[0] == Cancel || Cancel in actions[1..];
    }
  }

  /** From Start on the context is cancelled exactly if some action cancelled it; until
      then no worker drains or exits.  It can be cancelled at any time. */
  lemma ServeUntilCancelled<E>(capacity: nat, workers: nat, actions: seq<Action<E>>, t: State<E>)
    requires Run(InitialState(capacity, workers), actions, t)
    ensures t.cancelled <==> Cancel in actions
    ensures Cancel !in actions ==> AllServing(t)
    ensures exists u :: Run(t, [Cancel], u) && u.cancelled
  {
    CancelIsKept(InitialState(capacity, workers), actions, t);
    var u := Next(t, Cancel);
    assert [Action<E>.Cancel][1..] == [] && Run(u, [], u);
    assert Run(t, [Cancel], u);
  }

  // ---- What shutdown guarantees --------------------------------------------

  ghost predicate AllExited<E>(s: State<E>) {
    forall w :: 0 <= w < |s.workers| ==> s.workers[w].Exited?
  }

  lemma {:induction false} ExitedStaysPut<E>(s: State<E>, actions: seq<Action<E>>, t: State<E>)
    requires AllExited(s) && Run(s, actions, t)
    ensures AllExited(t) && t.processed == s.processed && t.taken == s.taken && s.accepted <= t.accepted
    decreases |actions|
  {
    if actions == [] {
    } else {
      ExitedStaysPut(Next(s, actions[0]), actions[1..], t);
    }
  }

  lemma ExitedProcessedAll<E(!new)>(s: State<E>)
    requires Conserved(s) && AllExited(s) && s.buffer == []
    ensures multiset(s.accepted) == multiset(s.processed)
  {
    forall e
      ensures multiset(s.accepted)[e] == multiset(s.processed)[e]
    {
      assert Balanced(s, e);
      SumIsZero(s.workers, Holds(e));
      assert Times(s.accepted, e) == Times(s.processed, e) by { assert s.accepted == s.taken; }
    }
  }

  /** The step in which the last worker finds the channel empty: everything
      accepted before it has been processed, and nothing is processed later. */
  lemma LastExitLeavesNothing<E(!new)>(s: State<E>, w: nat, later: seq<Action<E>>, t: State<E>)
    requires Conserved(s) && Enabled(s, Exit(w)) && AllExited(Next(s, Exit(w)))
    requires Run(Next(s, Exit(w)), later, t)
    ensures multiset(s.accepted) == multiset(s.processed) == multiset(t.processed)
    ensures t.accepted == s.accepted + t.buffer
  {
    var u := Next(s, Exit(w));
    NextConserves(s, Exit(w));
    ExitedProcessedAll(u);
    ExitedStaysPut(u, later, t);
    RunConserves(u, later, t);
  }

  ghost function StepsLeft<E>(): (Worker<E>, nat) -> nat {
    (w: Worker<E>, i: nat) =>
      match w
      case Waiting(Serving) => 2
      case Waiting(Draining) => 1
      case Processing(Serving, _) => 3
      case Processing(Draining, _) => 2
      case Exited => 0
  }

  /** Worker steps still to come when nobody emits any more. */
  ghost function Remaining<E>(s: State<E>): nat {
    2 * |s.buffer| + Sum(s.workers, StepsLeft())
  }

  /** Every worker step uses up exactly one unit of what remains. */
  lemma WorkerStepCounts<E>(s: State<E>, a: Action<E>)
    requires Enabled(s, a) && a.ByWorker()
    ensures Remaining(s) == Remaining(Next(s, a)) + 1
  {
    SumUpdate(s.workers, StepsLeft(), a.w, Next(s, a).workers[a.w]);
  }

  /** After cancellation some worker can always move until all have exited. */
  lemma NoDeadlock<E>(s: State<E>)
    requires s.cancelled
    ensures AllExited(s) <==> !exists a: Action<E> :: Enabled(s, a) && a.ByWorker()
  {
    if !AllExited(s) {
      var w: nat :| w < |s.workers| && !s.workers[w].Exited?;
      assert match s.workers[w]
          case Waiting(Serving) => Enabled(s, ObserveCancel(w))
          case Waiting(Draining) => if s.buffer == [] then Enabled(s, Exit(w)) else Enabled(s, Receive(w))
          case Processing(_, _) => Enabled(s, Finish(w))
          case Exited => true;
      var a := match s.workers[w]
        case Waiting(Serving) => ObserveCancel(w)
        case Waiting(Draining) => if s.buffer == [] then Exit(w) else Receive(w)
        case _ => Finish(w);
      assert Enabled(s, a) && a.ByWorker();
    }
  }

  ghost predicate OnlyWorkers<E>(actions: seq<Action<E>>) {
    forall i :: 0 <= i < |actions| ==> actions[i].ByWorker()
  }

  ghost predicate NothingStranded<E>(s: State<E>) {
    AllExited(s) ==> s.buffer == []
  }

  lemma NothingRemainsIffExited<E>(s: State<E>)
    requires NothingStranded(s)
    ensures AllExited(s) <==> Remaining(s) == 0
  {
    if AllExited(s) {
      SumIsZero(s.workers, StepsLeft());
    } else {
      var w: nat :| w < |s.workers| && !s.workers[w].Exited?;
      SumUpdate(s.workers, StepsLeft(), w, Exited);
    }
  }

  /** With nobody emitting after the cancellation, a run of workers that can go
      no further has taken exactly Remaining(s) steps, whatever the schedule,
      and has processed every accepted event. */
  lemma {:induction false} ShutdownFinishes<E(!new)>(s: State<E>, actions: seq<Action<E>>, t: State<E>)
    requires Conserved(s) && s.cancelled && NothingStranded(s)
    requires OnlyWorkers(actions) && Run(s, actions, t)
    ensures |actions| + Remaining(t) == Remaining(s)
    ensures AllExited(t) <==> |actions| == Remaining(s)
    ensures AllExited(t) ==> multiset(s.accepted) == multiset(t.processed)
    decreases |actions|
  {
    if actions == [] {
      NothingRemainsIffExited(s);
      if AllExited(s) {
        ExitedProcessedAll(s);
      }
    } else {
      var u := Next(s, actions[0]);
      NextConserves(s, actions[0]);
      WorkerStepCounts(s, actions[0]);
      assert u.workers[actions[0].w].Exited? ==> actions[0].Exit?;
      ShutdownFinishes(u, actions[1..], t);
    }
  }

  // ---- The emitter itself --------------------------------------------------

  /** One method per atomic step of the code.  The ghost fields record the
      history the protocol speaks about. */
  class Pool<E(==)> {
    const capacity: nat
    var ch: seq<E>
    var cancelled: bool
    var workers: seq<Worker<E>>
    ghost var emitted: seq<E>
    ghost var accepted: seq<E>
    ghost var dropped: seq<E>
    ghost var taken: seq<E>
    ghost var processed: seq<E>

    ghost function Abstract(): State<E>
      reads this
    {
      State(capacity, ch, cancelled, workers, emitted, accepted, dropped, taken, processed)
    }

    /** New followed by Start: every worker is in its outer select. */
    constructor (bufferSize: nat, workers: nat)
      ensures Abstract() == InitialState(bufferSize, workers)
    {
      capacity := bufferSize;
      ch, cancelled := [], false;
      this.workers := seq(workers, _ => Waiting(Serving));
      emitted, accepted, dropped, taken, processed := [], [], [], [], [];
    }

    /** Never blocks.  receiver is a worker blocked in its outer select, if there is
        one; it gets the event directly.  Otherwise a full channel drops the event. */
    method Emit(event: E, receiver: Option<nat>)
      modifies this
      ensures var handOff := if receiver.Some? then HandOff(event, receiver.value) else Action.Emit(event);
              Abstract()
              == Next(old(Abstract()), if Enabled(old(Abstract()), handOff) then handOff else Action.Emit(event))
      ensures if receiver.Some? && receiver.value < |old(workers)|
                 && old(workers)[receiver.value] == Waiting(Serving) && old(ch) == []
              then
                workers == old(workers)[receiver.value := Processing(Serving, event)]
                && ch == [] && dropped == old(dropped)
              else
                workers == old(workers)
                && if |old(ch)| < capacity then ch == old(ch) + [event] && dropped == old(dropped)
                   else ch == old(ch) && dropped == old(dropped) + [event]
    {
      emitted := emitted + [event];
      if receiver.Some? && receiver.value < |workers| && workers[receiver.value] == Waiting(Serving) && ch == [] {
        workers := workers[receiver.value := Processing(Serving, event)];
        accepted, taken := accepted + [event], taken + [event];
      } else if |ch| < capacity {
        ch := ch + [event];
        accepted := accepted + [event];
      } else {
        dropped := dropped + [event];
      }
    }

    method CancelContext()
      modifies this
      ensures Abstract() == Next(old(Abstract()), Cancel)
    {
      cancelled := true;
    }

    /** One step of worker w.  preferDone resolves the outer select when both of
        its cases are ready; moved is false when the worker blocks. */
    method StepWorker(w: nat, preferDone: bool) returns (moved: bool, ghost action: Action<E>)
      requires w < |workers|
      modifies this
      ensures moved ==> action.ByWorker() && action.w == w && Enabled(old(Abstract()), action)
                        && Abstract() == Next(old(Abstract()), action)
      ensures !moved ==> Abstract() == old(Abstract())
                         && forall a: Action<E> :: a.ByWorker() && a.w == w ==> !Enabled(old(Abstract()), a)
    {
      moved, action := true, Finish(w);
      match workers[w] {
        case Processing(phase, event) =>
          workers := workers[w := Waiting(phase)];
          processed := processed + [event];
        case Waiting(phase) =>
          if phase == Serving && cancelled && (preferDone || ch == []) {
            action := ObserveCancel(w);
            workers := workers[w := Waiting(Draining)];
          } else if ch != [] {
            action := Receive(w);
            workers := workers[w := Processing(phase, ch[0])];
            taken := taken + [ch[0]];
            ch := ch[1..];
          } else if phase == Draining {
            action := Action.Exit(w);
            workers := workers[w := Exited];
          } else {
            moved := false;
          }
        case Exited =>
          moved := false;
      }
    }
  }
}
