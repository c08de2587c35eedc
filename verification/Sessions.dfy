/** The session accumulator: traces buffered per session, flushed by CloseSession
    or by the reaper.  AddTrace, CloseSession and the reaper are atomic in the runs
    here; the window inside a close is looked at apart, and the interleaving inside
    AddTrace is the subject of CircuitBreaker. */
module Sessions {

  import opened Collections

  type Id = string

  datatype Trace = Trace(feature: string, user: string, cost: nat, inputTokens: int, outputTokens: int, timestamp: int)

  /** Zero disables a limit. */
  datatype Limits = Limits(maxSteps: int, maxCost: int)

  datatype Reason = StepLimit | CostLimit

  datatype Meta = Meta(
    startTime: int, lastSeen: int, feature: string, user: string,
    totalCost: nat, totalTokens: int, stepCount: nat)

  /** What CloseSession returns; for a session with no buffer there is no meta. */
  datatype Summary = Summary(meta: Option<Meta>, traces: seq<Trace>)

  datatype Outcome = Rejected(reason: Reason) | Recorded | Tripped(why: Reason, steps: nat, cost: nat)

  /** The Redis keys of all sessions, and the summaries written so far. */
  datatype State = State(
    meta: map<Id, Meta>, traces: map<Id, seq<Trace>>, tripped: map<Id, Reason>, closed: map<Id, seq<Summary>>)
  {
    function Buffer(id: Id): seq<Trace> {
      if id in traces then traces[id] else []
    }

    function Closed(id: Id): seq<Summary> {
      if id in closed then closed[id] else []
    }
  }

  // ---- What each operation does --------------------------------------------

  function Extend(s: State, id: Id, t: Trace, now: int): Meta {
    var tokens := t.inputTokens + t.outputTokens;
    if id in s.meta then
      var m := s.meta[id];
      Meta(m.startTime, now, t.feature, t.user, m.totalCost + t.cost, m.totalTokens + tokens, m.stepCount + 1)
    else
      Meta(t.timestamp, now, t.feature, t.user, t.cost, tokens, 1)
  }

  /** The cost limit is looked at last and names the reason when both are reached. */
  function TripReason(limits: Limits, m: Meta): Option<Reason> {
    if limits.maxCost > 0 && m.totalCost >= limits.maxCost then Some(CostLimit)
    else if limits.maxSteps > 0 && m.stepCount >= limits.maxSteps then Some(StepLimit)
    else None
  }

  function Add(limitsOf: string -> Limits, s: State, id: Id, t: Trace, now: int): State {
    if id in s.tripped then s
    else
      var m := Extend(s, id, t, now);
      var reason := if t.feature == "" then None else TripReason(limitsOf(t.feature), m);
      s.(meta := s.meta[id := m], traces := s.traces[id := s.Buffer(id) + [t]],
      tripped := if reason.Some? then s.tripped[id := reason.value] else s.tripped)
  }

  function SummaryOf(s: State, id: Id): Summary {
    Summary(if id in s.meta then Some(s.meta[id]) else None, s.Buffer(id))
  }

  /** The sessions in ids are written out and their buffers deleted. */
  function CloseAll(s: State, ids: set<Id>): State {
    s.(meta := s.meta - ids, traces := s.traces - ids,
    closed := s.closed + map id | id in ids :: s.Closed(id) + [SummaryOf(s, id)])
  }

  function CloseOne(s: State, id: Id): State {
    s.(meta := s.meta - {id}, traces := s.traces - {id},
    closed := s.closed[id := s.Closed(id) + [SummaryOf(s, id)]])
  }

  function Close(s: State, id: Id, written: bool): State {
    if written then CloseOne(s, id) else s
  }

  /** Idle beyond the timeout, with the write to storage succeeding. */
  function Reaped(s: State, now: int, timeout: int, writable: set<Id>): set<Id> {
    set id | id in s.meta && now - s.meta[id].lastSeen > timeout && id in writable
  }

  function Reap(s: State, now: int, timeout: int, writable: set<Id>): State {
    CloseAll(s, Reaped(s, now, timeout, writable))
  }

  // ---- Runs ----------------------------------------------------------------

  datatype Op =
    | AddTrace(id: Id, trace: Trace, now: int)
    | CloseSession(id: Id, written: bool)
    | ReapExpired(now: int, writable: set<Id>)

  datatype Config = Config(limitsOf: string -> Limits, timeout: int)

  function Apply(c: Config, s: State, op: Op): State {
    match op
    case AddTrace(id, t, now) => Add(c.limitsOf, s, id, t, now)
    case CloseSession(id, written) => Close(s, id, written)
    case ReapExpired(now, writable) => Reap(s, now, c.timeout, writable)
  }

  function Run(c: Config, s: State, ops: seq<Op>): State
    decreases |ops|
  {
    if ops == [] then s else Run(c, Apply(c, s, ops[0]), ops[1..])
  }

  /** The traces offered to session id and not rejected, in order. */
  function RecordedTraces(c: Config, s: State, ops: seq<Op>, id: Id): seq<Trace>
    decreases |ops|
  {
    if ops == [] then []
    else
      (if ops[0].AddTrace? && ops[0].id == id && id !in s.tripped then [ops[0].trace] else [])
      + RecordedTraces(c, Apply(c, s, ops[0]), ops[1..], id)
  }

  ghost function Batches(summaries: seq<Summary>): seq<Trace> {
    if summaries == [] then []
    else Batches(summaries[..|summaries| - 1]) + summaries[|summaries| - 1].traces
  }

  ghost function Cost(traces: seq<Trace>): nat {
    if traces == [] then 0 else Cost(traces[..|traces| - 1]) + traces[|traces| - 1].cost
  }

  ghost function Tokens(traces: seq<Trace>): int {
    if traces == [] then 0
    else Tokens(traces[..|traces| - 1]) + traces[|traces| - 1].inputTokens + traces[|traces| - 1].outputTokens
  }

  /** The totals of a buffer are those of its traces. */
  ghost predicate Totals(m: Meta, traces: seq<Trace>) {
    && traces != []
    && m.totalCost == Cost(traces) && m.totalTokens == Tokens(traces) && m.stepCount == |traces|
    && m.startTime == traces[0].timestamp
    && m.feature == traces[|traces| - 1].feature && m.user == traces[|traces| - 1].user
  }

  ghost predicate SummaryAddsUp(summary: Summary) {
    if summary.meta.Some? then Totals(summary.meta.value, summary.traces) else summary.traces == []
  }

  ghost predicate Consistent(s: State) {
    && s.meta.Keys == s.traces.Keys
    && (forall id :: id in s.meta ==> Totals(s.meta[id], s.traces[id]))
    && (forall id, k :: id in s.closed && 0 <= k < |s.closed[id]| ==> SummaryAddsUp(s.closed[id][k]))
  }

  /** The closed batches of session id followed by its current buffer. */
  ghost function Total(s: State, id: Id): seq<Trace> {
    Batches(s.Closed(id)) + s.Buffer(id)
  }

  lemma AddIsConsistent(c: Config, s: State, id: Id, t: Trace, now: int)
    requires Consistent(s)
    ensures Consistent(Add(c.limitsOf, s, id, t, now))
  {
    var buffer, s' := s.Buffer(id) + [t], Add(c.limitsOf, s, id, t, now);
    assert buffer[..|buffer| - 1] == s.Buffer(id);
    forall id' | id' in s'.meta
      ensures Totals(s'.meta[id'], s'.traces[id'])
    {
      assert id' != id ==> s'.meta[id'] == s.meta[id'] && s'.traces[id'] == s.traces[id'];
    }
  }

  lemma CloseAllIsConsistent(s: State, ids: set<Id>)
    requires Consistent(s)
    ensures Consistent(CloseAll(s, ids))
  {
  }

  lemma CloseAllMovesTheBuffer(s: State, ids: set<Id>, id: Id)
    ensures Total(CloseAll(s, ids), id) == Total(s, id)
  {
    var summaries := CloseAll(s, ids).Closed(id);
    if id in ids {
      assert summaries[..|summaries| - 1] == s.Closed(id);
    } else {
      assert id in s.closed ==> summaries == s.Closed(id);
    }
  }

  lemma CloseNone(s: State)
    ensures CloseAll(s, {}) == s
  {
    assert CloseAll(s, {}).closed == s.closed && CloseAll(s, {}).meta == s.meta && CloseAll(s, {}).traces == s.traces;
  }

  lemma RemoveOneMore<T>(m: map<Id, T>, ids: set<Id>, id: Id)
    ensures m - (ids + {id}) == m - ids - {id}
  {
  }

  lemma MapOneMore<T>(m: map<Id, T>, ids: set<Id>, id: Id, value: Id -> T)
    ensures m + (map x | x in ids + {id} :: value(x)) == (m + map x | x in ids :: value(x))[id := value(id)]
  {
  }

  lemma ClosedOneMore(s: State, ids: set<Id>, id: Id)
    requires id !in ids
    ensures CloseAll(s, ids + {id}).closed == CloseAll(s, ids).closed[id := s.Closed(id) + [SummaryOf(s, id)]]
  {
    hide SummaryOf;
    var value := (x: Id) => s.Closed(x) + [SummaryOf(s, x)];
    MapOneMore(s.closed, ids, id, value);
    assert (map x | x in ids :: s.Closed(x) + [SummaryOf(s, x)]) == map x | x in ids :: value(x);
    assert (map x | x in ids + {id} :: s.Closed(x) + [SummaryOf(s, x)]) == map x | x in ids + {id} :: value(x);
  }

  lemma CloseOneMore(s: State, ids: set<Id>, id: Id)
    requires id !in ids
    ensures CloseAll(s, ids + {id}) == CloseOne(CloseAll(s, ids), id)
  {
    ClosedOneMore(s, ids, id);
    RemoveOneMore(s.meta, ids, id);
    RemoveOneMore(s.traces, ids, id);
    assert SummaryOf(CloseAll(s, ids), id) == SummaryOf(s, id);
  }

  lemma StepLosesNothing(c: Config, s: State, op: Op, id: Id)
    ensures Total(Apply(c, s, op), id) == Total(s, id) + RecordedTraces(c, s, [op], id)
  {
    var t := Apply(c, s, op);
    assert [op][1..] == [] && RecordedTraces(c, t, [], id) == [];
    match op {
      case AddTrace(id', trace, now) =>
        assert t.Closed(id) == s.Closed(id);
      case CloseSession(id', written) =>
        CloseNone(s);
        CloseOneMore(s, {}, id');
        CloseAllMovesTheBuffer(s, {} + {id'}, id);
      case ReapExpired(now, writable) => CloseAllMovesTheBuffer(s, Reaped(s, now, c.timeout, writable), id);
    }
  }

  /** Every total in every reachable state, of a buffer or of a written summary,
      is that of its own traces. */
  lemma {:induction false} TotalsAddUp(c: Config, s: State, ops: seq<Op>)
    requires Consistent(s)
    ensures Consistent(Run(c, s, ops))
    decreases |ops|
  {
    if ops == [] {
    } else {
      match ops[0] {
        case AddTrace(id, trace, now) => AddIsConsistent(c, s, id, trace, now);
        case CloseSession(id, written) =>
          CloseNone(s);
          CloseOneMore(s, {}, id);
          CloseAllIsConsistent(s, {} + {id});
        case ReapExpired(now, writable) => CloseAllIsConsistent(s, Reaped(s, now, c.timeout, writable));
      }
      TotalsAddUp(c, Apply(c, s, ops[0]), ops[1..]);
    }
  }

  lemma Chained<T>(now: seq<T>, next: seq<T>, last: seq<T>, a: seq<T>, b: seq<T>)
    requires next == now + a && last == next + b
    ensures last == now + (a + b)
  {
  }

  lemma RecordedFirst(c: Config, s: State, ops: seq<Op>, id: Id)
    requires ops != []
    ensures RecordedTraces(c, s, ops, id)
         == RecordedTraces(c, s, [ops[0]], id) + RecordedTraces(c, Apply(c, s, ops[0]), ops[1..], id)
  {
    assert [ops[0]][1..] == [] && RecordedTraces(c, Apply(c, s, ops[0]), [], id) == [];
  }

  /** Over every run the closed batches followed by the current buffer are the
      recorded traces in order. */
  lemma {:induction false} NothingIsLost(c: Config, s: State, ops: seq<Op>, id: Id)
    ensures Total(Run(c, s, ops), id) == Total(s, id) + RecordedTraces(c, s, ops, id)
    decreases |ops|
  {
    if ops == [] {
    } else {
      var t := Apply(c, s, ops[0]);
      StepLosesNothing(c, s, ops[0], id);
      NothingIsLost(c, t, ops[1..], id);
      RecordedFirst(c, s, ops, id);
      Chained(Total(s, id), Total(t, id), Total(Run(c, s, ops), id),
              RecordedTraces(c, s, [ops[0]], id), RecordedTraces(c, t, ops[1..], id));
    }
  }

  /** How often session id is written: by a close or a reap that succeeds. */
  ghost function Writes(c: Config, s: State, ops: seq<Op>, id: Id): nat
    decreases |ops|
  {
    if ops == [] then 0
    else
      (match ops[0]
       case AddTrace(_, _, _) => 0
       case CloseSession(closed, written) => if closed == id && written then 1 else 0
       case ReapExpired(now, writable) =>
         if id in s.meta && now - s.meta[id].lastSeen > c.timeout && id in writable then 1 else 0)
      + Writes(c, Apply(c, s, ops[0]), ops[1..], id)
  }

  /** Over every run a session has one summary for each write that succeeds; one that
      fails leaves none, and keeps the buffer. */
  lemma {:induction false} OneSummaryPerWrite(c: Config, s: State, ops: seq<Op>, id: Id)
    ensures |Run(c, s, ops).Closed(id)| == |s.Closed(id)| + Writes(c, s, ops, id)
    decreases |ops|
  {
    if ops == [] {
    } else {
      OneSummaryPerWrite(c, Apply(c, s, ops[0]), ops[1..], id);
    }
  }

  /** The reaper touches exactly the sessions idle beyond the timeout. */
  lemma ReaperClosesOnlyIdle(s: State, now: int, timeout: int, writable: set<Id>, id: Id)
    requires Consistent(s)
    ensures var t := Reap(s, now, timeout, writable);
            if id in s.meta && now - s.meta[id].lastSeen > timeout && id in writable then
              t.Buffer(id) == [] && id !in t.meta
              && t.Closed(id) == s.Closed(id) + [Summary(Some(s.meta[id]), s.Buffer(id))]
            else
              t.Buffer(id) == s.Buffer(id) && (id in t.meta <==> id in s.meta)
              && (id in s.meta ==> t.meta[id] == s.meta[id]) && t.Closed(id) == s.Closed(id)
  {
  }

  /** A tripped session stays tripped and records nothing more, closed or not. */
  lemma {:induction false} TrippedRecordsNothing(c: Config, s: State, ops: seq<Op>, id: Id)
    requires id in s.tripped
    ensures id in Run(c, s, ops).tripped && RecordedTraces(c, s, ops, id) == []
    decreases |ops|
  {
    if ops == [] {
    } else {
      TrippedRecordsNothing(c, Apply(c, s, ops[0]), ops[1..], id);
    }
  }

  ghost predicate ReachesSteps(limits: Limits, traces: seq<Trace>) {
    limits.maxSteps > 0 && |traces| >= limits.maxSteps
  }

  ghost predicate ReachesCost(limits: Limits, traces: seq<Trace>) {
    limits.maxCost > 0 && Cost(traces) >= limits.maxCost
  }

  ghost predicate SameSession(s: State, t: State, id: Id) {
    && s.Buffer(id) == t.Buffer(id) && s.Closed(id) == t.Closed(id)
    && (id in s.meta <==> id in t.meta) && (id in s.meta ==> s.meta[id] == t.meta[id])
    && (id in s.tripped <==> id in t.tripped) && (id in s.tripped ==> s.tripped[id] == t.tripped[id])
  }

  lemma TripReasonOfTotals(limits: Limits, m: Meta, traces: seq<Trace>)
    requires Totals(m, traces)
    ensures TripReason(limits, m) == if ReachesCost(limits, traces) then Some(CostLimit)
                                     else if ReachesSteps(limits, traces) then Some(StepLimit) else None
  {
  }

  lemma OthersUntouched(c: Config, s: State, id: Id, t: Trace, now: int, other: Id)
    requires other != id
    ensures SameSession(s, Add(c.limitsOf, s, id, t, now), other)
  {
  }

  /** A trace trips its session exactly when it names a feature and the traces now
      buffered, itself included, reach a limit of that feature; other sessions are
      not touched. */
  lemma TripsAtLimit(c: Config, s: State, id: Id, t: Trace, now: int)
    requires Consistent(s) && id !in s.tripped
    ensures var u, limits, traces := Add(c.limitsOf, s, id, t, now), c.limitsOf(t.feature), s.Buffer(id) + [t];
            && u.Buffer(id) == traces
            && (id in u.tripped <==> t.feature != "" && (ReachesSteps(limits, traces) || ReachesCost(limits, traces)))
            && (id in u.tripped ==> (u.tripped[id] == CostLimit <==> ReachesCost(limits, traces)))
    ensures forall other :: other != id ==> SameSession(s, Add(c.limitsOf, s, id, t, now), other)
  {
    AddIsConsistent(c, s, id, t, now);
    TripReasonOfTotals(c.limitsOf(t.feature), Extend(s, id, t, now), s.Buffer(id) + [t]);
    forall other | other != id
      ensures SameSession(s, Add(c.limitsOf, s, id, t, now), other)
    {
      OthersUntouched(c, s, id, t, now, other);
    }
  }

  /** When session id was last given a trace that was not rejected. */
  ghost function LastRecorded(c: Config, s: State, ops: seq<Op>, id: Id): Option<int>
    decreases |ops|
  {
    if ops == [] then None
    else
      var later := LastRecorded(c, Apply(c, s, ops[0]), ops[1..], id);
      if later.Some? then later
      else if ops[0].AddTrace? && ops[0].id == id && id !in s.tripped then Some(ops[0].now)
      else None
  }

  /** The time the reaper compares is that of the last recorded trace: a session
      in use is never closed by it. */
  lemma {:induction false} LastSeenIsLastRecorded(c: Config, s: State, ops: seq<Op>, id: Id)
    requires id in Run(c, s, ops).meta
    ensures LastRecorded(c, s, ops, id).Some? || id in s.meta
    ensures Run(c, s, ops).meta[id].lastSeen
         == if LastRecorded(c, s, ops, id).Some? then LastRecorded(c, s, ops, id).value else s.meta[id].lastSeen
    decreases |ops|
  {
    if ops == [] {
    } else {
      LastSeenIsLastRecorded(c, Apply(c, s, ops[0]), ops[1..], id);
    }
  }

  ghost predicate BelowLimits(limits: Limits, s: State, id: Id) {
    id in s.tripped || id !in s.meta || TripReason(limits, s.meta[id]) == None
  }

  /** A session whose traces all name one feature is below the limits of that
      feature, unless it is tripped. */
  lemma {:induction false} UntrippedIsBelowLimits(c: Config, s: State, ops: seq<Op>, id: Id, feature: string)
    requires feature != "" && BelowLimits(c.limitsOf(feature), s, id)
    requires forall i :: 0 <= i < |ops| && ops[i].AddTrace? && ops[i].id == id ==> ops[i].trace.feature == feature
    ensures BelowLimits(c.limitsOf(feature), Run(c, s, ops), id)
    decreases |ops|
  {
    if ops == [] {
    } else {
      UntrippedIsBelowLimits(c, Apply(c, s, ops[0]), ops[1..], id, feature);
    }
  }

  // ---- The window inside a close -------------------------------------------

  /** The second half of a close that read session id in state before: the summary
      of what it read is written, and the keys as they are now are deleted. */
  function FinishClose(before: State, now: State, id: Id): State {
    now.(meta := now.meta - {id}, traces := now.traces - {id},
    closed := now.closed[id := now.Closed(id) + [SummaryOf(before, id)]])
  }

  ghost predicate OnlyAdds(ops: seq<Op>) {
    forall i :: 0 <= i < |ops| ==> ops[i].AddTrace?
  }

  lemma {:induction false} AddsCloseNothing(c: Config, s: State, ops: seq<Op>, id: Id)
    requires OnlyAdds(ops)
    ensures Run(c, s, ops).Closed(id) == s.Closed(id)
    decreases |ops|
  {
    if ops == [] {
    } else {
      AddsCloseNothing(c, Apply(c, s, ops[0]), ops[1..], id);
    }
  }

  lemma FinishedTotal(before: State, now: State, id: Id)
    ensures Total(FinishClose(before, now, id), id) == Batches(now.Closed(id)) + before.Buffer(id)
  {
    var summaries := FinishClose(before, now, id).Closed(id);
    assert summaries[..|summaries| - 1] == now.Closed(id);
  }

  lemma SameIffNothingAdded<T>(kept: seq<T>, added: seq<T>)
    ensures kept == kept + added <==> added == []
  {
    assert |kept + added| == |kept| + |added|;
  }

  /** When traces arrive between the two halves of a close, what the session has in
      the end is what it had when it was read: every one of them is lost, and
      nothing is lost exactly when none arrives. */
  lemma WindowLosesArrivals(c: Config, s: State, during: seq<Op>, id: Id)
    requires OnlyAdds(during)
    ensures var end := FinishClose(s, Run(c, s, during), id);
            id !in end.meta && id !in end.traces && Total(end, id) == Total(s, id)
            && (Total(end, id) == Total(s, id) + RecordedTraces(c, s, during, id)
                <==> RecordedTraces(c, s, during, id) == [])
  {
    AddsCloseNothing(c, s, during, id);
    FinishedTotal(s, Run(c, s, during), id);
    SameIffNothingAdded(Total(s, id), RecordedTraces(c, s, during, id));
  }

  /** What a close reads when traces arrive between its two reads: the totals as they
      were at the first, the traces as they are at the second. */
  function SplitSummary(before: State, later: State, id: Id): Summary {
    Summary(SummaryOf(before, id).meta, later.Buffer(id))
  }

  lemma SameRest<T>(front: seq<T>, buffer: seq<T>, arrived: seq<T>, later: seq<T>)
    requires front + later == front + buffer + arrived
    ensures later == buffer + arrived
  {
    assert (front + later)[|front|..] == later && (front + buffer + arrived)[|front|..] == buffer + arrived;
  }

  lemma GrownAddsUpIff(summary: Summary, arrived: seq<Trace>)
    requires SummaryAddsUp(summary)
    ensures SummaryAddsUp(Summary(summary.meta, summary.traces + arrived)) <==> arrived == []
  {
    assert |summary.traces + arrived| == |summary.traces| + |arrived|;
    assert summary.traces + [] == summary.traces;
  }

  lemma BufferAddsUp(s: State, id: Id)
    requires Consistent(s)
    ensures SummaryAddsUp(SummaryOf(s, id))
  {
    hide Totals;
  }

  /** The written totals are then those of the written traces exactly when no trace
      was recorded in between. */
  lemma SplitReadAddsUpIff(c: Config, s: State, during: seq<Op>, id: Id)
    requires Consistent(s) && OnlyAdds(during)
    ensures SummaryAddsUp(SplitSummary(s, Run(c, s, during), id)) <==> RecordedTraces(c, s, during, id) == []
  {
    hide Consistent, SummaryAddsUp, Run, RecordedTraces;
    var t, arrived := Run(c, s, during), RecordedTraces(c, s, during, id);
    AddsCloseNothing(c, s, during, id);
    NothingIsLost(c, s, during, id);
    SameRest(Batches(s.Closed(id)), s.Buffer(id), arrived, t.Buffer(id));
    BufferAddsUp(s, id);
    GrownAddsUpIff(SummaryOf(s, id), arrived);
  }

  /** Two closes that read the same buffer write it twice. */
  lemma OverlappingClosesRepeat(s: State, id: Id)
    ensures var end := FinishClose(s, CloseOne(s, id), id);
            Total(end, id) == Total(s, id) + s.Buffer(id)
            && (Total(end, id) == Total(s, id) <==> s.Buffer(id) == [])
  {
    FinishedTotal(s, s, id);
    FinishedTotal(s, CloseOne(s, id), id);
    var summaries := CloseOne(s, id).Closed(id);
    assert summaries[..|summaries| - 1] == s.Closed(id);
    SameIffNothingAdded(Total(s, id), s.Buffer(id));
  }

  // ---- The accumulator -----------------------------------------------------

  class Accumulator {
    const limitsOf: string -> Limits
    const sessionTimeout: int
    var meta: map<Id, Meta>
    var traces: map<Id, seq<Trace>>
    var tripped: map<Id, Reason>
    var closed: map<Id, seq<Summary>>

    ghost function Abstract(): State
      reads this
    {
      State(meta, traces, tripped, closed)
    }

    constructor (limitsOf: string -> Limits, sessionTimeout: int)
      ensures Abstract() == State(map[], map[], map[], map[]) && Consistent(Abstract())
    {
      this.limitsOf, this.sessionTimeout := limitsOf, sessionTimeout;
      meta, traces, tripped, closed := map[], map[], map[], map[];
    }

    method AddTrace(id: Id, trace: Trace, now: int) returns (outcome: Outcome)
      modifies this
      ensures Abstract() == Add(limitsOf, old(Abstract()), id, trace, now)
      ensures match outcome
              case Rejected(reason) => id in old(tripped) && reason == old(tripped)[id]
              case Recorded => id !in old(tripped) && id !in tripped && id in meta
              case Tripped(why, steps, cost) =>
                id !in old(tripped) && id in tripped && tripped[id] == why
                && id in meta && steps == meta[id].stepCount && cost == meta[id].totalCost
    {
      if id in tripped {
        return Rejected(tripped[id]);
      }
      traces := traces[id := (if id in traces then traces[id] else []) + [trace]];
      assert traces == Add(limitsOf, old(Abstract()), id, trace, now).traces;
      var m := if id in meta then meta[id] else Meta(trace.timestamp, now, trace.feature, trace.user, 0, 0, 0);
      m := m.(lastSeen := now, feature := trace.feature, user := trace.user);
      m := m.(totalCost := m.totalCost + trace.cost);
      m := m.(totalTokens := m.totalTokens + (trace.inputTokens + trace.outputTokens));
      m := m.(stepCount := m.stepCount + 1);
      meta := meta[id := m];
      assert m == Extend(old(Abstract()), id, trace, now);
      outcome := Recorded;
      if trace.feature != "" {
        var limits := limitsOf(trace.feature);
        var reason: Option<Reason> := None;
        if limits.maxSteps > 0 && m.stepCount >= limits.maxSteps {
          reason := Some(StepLimit);
        }
        if limits.maxCost > 0 && m.totalCost >= limits.maxCost {
          reason := Some(CostLimit);
        }
        if reason != None {
          tripped := tripped[id := reason.value];
          outcome := Tripped(reason.value, m.stepCount, m.totalCost);
        }
      }
    }

    /** written: the write to storage succeeds.  A failed write changes nothing. */
    method CloseSession(id: Id, written: bool) returns (result: Option<Summary>)
      modifies this
      ensures Abstract() == Close(old(Abstract()), id, written)
      ensures result == if written then Some(SummaryOf(old(Abstract()), id)) else None
    {
      var summary := Summary(if id in meta then Some(meta[id]) else None, if id in traces then traces[id] else []);
      if !written {
        return None;
      }
      closed := closed[id := (if id in closed then closed[id] else []) + [summary]];
      meta, traces := meta - {id}, traces - {id};
      return Some(summary);
    }

    /** Visits the sessions in the order the scan happens to return them. */
    method ReapExpired(now: int, writable: set<Id>) returns (reaped: nat)
      modifies this
      ensures Abstract() == Reap(old(Abstract()), now, sessionTimeout, writable)
      ensures reaped == |Reaped(old(Abstract()), now, sessionTimeout, writable)|
    {
      ghost var before := Abstract();
      ghost var gone: set<Id> := {};
      var todo := meta.Keys;
      reaped := 0;
      CloseNone(before);
      while todo != {}
        invariant todo !! gone && todo <= before.meta.Keys
        invariant Abstract() == CloseAll(before, gone) && reaped == |gone|
        invariant forall id :: id in before.meta && id !in todo ==>
                                 (id in gone <==> id in Reaped(before, now, sessionTimeout, writable))
        invariant gone <= before.meta.Keys
        decreases todo
      {
        var id :| id in todo;
        todo := todo - {id};
        assert meta[id] == before.meta[id];
        if now - meta[id].lastSeen > sessionTimeout {
          CloseOneMore(before, gone, id);
          var result := CloseSession(id, id in writable);
          if result.Some? {
            reaped := reaped + 1;
            gone := gone + {id};
          }
        }
      }
      assert gone == Reaped(before, now, sessionTimeout, writable);
    }
  }
}
