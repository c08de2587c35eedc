# Ajah gateway: verified models

Ajah is a gateway in front of LLM providers.  This project models the parts of it
whose correctness takes an argument, and proves that argument in Dafny 4.11.  One
module per component, and `Collections` for what several share;
`dafny verify dfyconfig.toml` checks all of them.

| module | component | what is proved |
|---|---|---|
| `EditDistance` | agreement ratio of the cross-model verifier | the two-row loop computes the length of a shortest edit sequence; metric laws; laws of the ratio |
| `Emitter` | event channel and its workers | conservation, order and capacity over every interleaving; exactly which events are dropped; what shutdown guarantees, and in how many steps |
| `CircuitBreaker` | `AddTrace` of one session under W workers, one Redis command per step | overshoot of the step and cost limits, with runs that reach the bounds, and exactly when they hold without bare traces |
| `Sessions` | all sessions, `AddTrace`/`CloseSession`/reaper as atomic operations | nothing is lost or reordered, totals add up, the reaper closes exactly the idle; what a close loses when it is not atomic |
| `ProviderHealth` | failure counter and cooldown flag | the keys mean a condition on the history of failures, compared with the documented one |
| `ResponseProxy` | `ServeHTTP`, from the checks to the delivery | answers are never mixed from two upstreams; cache hits were delivered before |
| `ModelRewrite`, `ModelField` | in-place rewriting of the model name | overwrite laws and "the model field is replaced", each with its exact condition |
| `Masking`, `AddressMasking` | PII masker; the IPv4 pattern written out | the record rebuilds the original; no address survives |
| `StepTree` | `buildTree` and the recursive rendering | for every input exactly when each node is placed once, when rendering ends, and when it shows every step once |
| `CostAttribution` | daily counters and the scan that reads them back | conservation of money; the scan returns exactly the map from name to sum |
| `RateLimit` | fixed-window limiter | the limit holds if and only if requests reach Redis within 10 s of reading the clock |
| `CostAlerts`, `CappedList` | once-a-day alert; lists of the newest 100 | at most one alert if and only if processing lags at most one hour; exactly one at rest |
| `EvalRun` | goroutines of an eval suite | slots, mutual exclusion, complete totals, and that Wait returns |
| `Similarity` | trigram overlap of agent steps | range, symmetry, and when it is one |

Redis is a map whose keys carry their expiry; a key is gone from the moment of its
expiry on.  Where workers interleave, every Redis command or channel operation is
one step of a state machine, and the theorems quantify over every list of steps.
Costs are integers in units of 1e-8 USD, of which every listed price is a multiple;
scores are reals.

## Findings

Where the code falls short of what is expected of it, the module keeps the code as
it is, shows the failure on an input, and proves exactly when the property holds.

- `internal/fallback/manager.go:199-201` promises that the value of the "model" field is
  replaced.  The code replaces, up to the next quote, the string after the first colon
  after the first `"model"`: another field's when the word occurs as a value
  (`ModelRewrite.CanReplaceAnotherField`), a nested object's when that has the key first
  (`ModelField.NestedKeyIsReplaced`), and only the front of a value with an escaped quote
  (`EscapedQuoteCutsValue`).  The promise holds for a key if and only if no colon stands
  between an earlier quoted "model" and it, an escaped quote counting as one, and its
  value has no escaped quote (`SetsTheKeyIff`).  The overwrite laws fail exactly for names
  with a quote in them (`ModelRewrite.SecondWriteWins`, `ReadsBack`).
- `internal/sessions/session.go:176-177` looks the limits up for the feature of each trace.
  Traces of no feature, or of one whose limit is off or larger, are counted but do not
  trip at the limit of the others, so each raises the overshoot by one step, or by its
  cost (`CircuitBreaker.StepOvershootIsReached`, `CostOvershootIsReached`).  The bound
  N + W - 1 holds if and only if every feature named has its own limit in 1..N
  (`StepBoundIff`).
- `internal/sessions/session.go:306-387` reads the buffer and deletes the keys in separate
  commands: traces that arrive in between are deleted unwritten, and two closes that
  overlap write the batch twice (`Sessions.WindowLosesArrivals`, `OverlappingClosesRepeat`).
  Totals and traces are two reads (`internal/sessions/session.go:306-314`): a trace that
  arrives between them is written, and missing from the totals (`SplitReadAddsUpIff`).
- `internal/fallback/manager.go:10` says three failures in 60 s.  Each failure renews the
  60 s of the counter (`internal/fallback/manager.go:87-88`), so three failures spread over
  almost two minutes also mark the provider degraded
  (`ProviderHealth.SpreadFailuresDegrade`).  The flag follows the documented rule if and
  only if no three failures with shorter gaps span 60 s or more (`FlagFollowsRuleIff`).
- `cmd/gateway/handlers.go:59-69` gives the key of a minute 70 s to live: a request that
  takes more than 10 s from reading its clock to reaching Redis restarts the count
  (`RateLimit.LimitHoldsIffWithinSlack`).
- `cmd/gateway/main.go:476-478` gives the fired key 25 h to live: an event decided more than
  an hour after it happened can fire a second alert for its day
  (`CostAlerts.NeverTwoAlertsIffWithinHour`).
- `dashboard/src/pages/Sessions.tsx:82-84` keeps one node per key: steps of a session that
  share a name share a node.  One of them is then shown twice and the other never
  (`StepTree.RepeatedKeyLosesStep`), or rendering does not end (`RepeatedKeyNeverEnds`).
  `PlacedOnceIffDistinct`, `EachShownOnceIff` and `EndsIffNoCycleBelowRoot` say exactly when.

## Model

| member | source | states |
|---|---|---|
| `EditDistance.LevenshteinDist` | internal/crossmodel/verifier.go:224-243 | the loop over two swapped rows returns the length of a shortest sequence of one-character edits: one of that length exists, none is shorter |
| `EditDistance.DistIsEditDistance` | internal/crossmodel/verifier.go:224-243 | the recurrence with a true minimum in every cell is the edit distance over all edit sequences, in any order and at any position |
| `EditDistance.NoShorterSequence` | internal/crossmodel/verifier.go:224-243 | no edit sequence has fewer edits than the recurrence says |
| `EditDistance.ShortestSequence` | internal/crossmodel/verifier.go:224-243 | an edit sequence with exactly that many edits exists |
| `EditDistance.MatchTakesDiagonal` | internal/crossmodel/verifier.go:234-235 | on equal characters the diagonal cell is the minimum of the three neighbours, so taking it unseen is right |
| `EditDistance.CellStep` | internal/crossmodel/verifier.go:234-238 | each assignment of the inner loop gives the edit distance of the two prefixes |
| `EditDistance.MinOf3` | internal/crossmodel/verifier.go:245-253 | the result is one of the three and above none |
| `EditDistance.Triangle` | internal/crossmodel/verifier.go:224-243 | triangle inequality |
| `EditDistance.Symmetry` | internal/crossmodel/verifier.go:224-243 | the distance is symmetric |
| `EditDistance.ZeroIffEqual` | internal/crossmodel/verifier.go:224-243 | it is zero exactly for equal texts |
| `EditDistance.LengthBounds` | internal/crossmodel/verifier.go:216-221 | at least the difference of the lengths, at most the longer one |
| `EditDistance.LevenshteinRatio` | internal/crossmodel/verifier.go:201-222 | with cut inputs and special cases for empty ones, the result is one minus the share of the longer cut text that has to be edited, one for two empty texts; the special case of one empty text agrees with the formula |
| `EditDistance.RatioLaws` | internal/crossmodel/verifier.go:199-222 | the ratio is in [0, 1], symmetric, one exactly when the first 1000 runes are equal, and its complement times the longer length is the distance |
| `Emitter.RunConserves` | internal/events/emitter.go:69-134 | in every reachable state each event is dropped, buffered, in flight or processed, together as often as emitted; the buffer is within its capacity; events leave it in the order they entered |
| `Emitter.ReachableConserves` | internal/events/emitter.go:58-134 | the same from New and Start on, so in every reachable state |
| `Emitter.NextConserves` | internal/events/emitter.go:69-134 | every single step of a caller or worker keeps this |
| `Emitter.OnlyFullDrops` | internal/events/emitter.go:69-78 | over every run what is emitted is what the callers emit, in order, and exactly the events that meet a full channel are dropped |
| `Emitter.NoDropWithinCapacity` | internal/events/emitter.go:54-78 | as long as no more events are emitted than the channel holds, none is dropped, whatever the workers do |
| `Emitter.EmitNeverBlocks` | internal/events/emitter.go:67-78 | in every state a caller can emit, and leaves the event accepted or dropped |
| `Emitter.ServeUntilCancelled` | internal/events/emitter.go:80-82 | over every run from Start the context is cancelled exactly if some action cancelled it, and until then no worker drains or exits |
| `Emitter.LastExitLeavesNothing` | internal/events/emitter.go:120-131 | when the last worker finds the buffer empty and exits, all events accepted before have been processed, and those accepted later stay in the buffer for good |
| `Emitter.ExitedStaysPut` | internal/events/emitter.go:114-134 | once all workers have exited nothing is taken or processed any more, whoever emits |
| `Emitter.NoDeadlock` | internal/events/emitter.go:114-134 | after cancellation some worker can move unless all have exited |
| `Emitter.WorkerStepCounts` | internal/events/emitter.go:114-134 | each worker step uses up exactly one unit of a measure |
| `Emitter.ShutdownFinishes` | internal/events/emitter.go:80-134 | with nobody emitting after cancellation, every schedule ends after exactly the number of steps the measure gives, with every accepted event processed |
| `Emitter.Pool.constructor` | internal/events/emitter.go:58-91 | the pool starts in the initial state of the protocol |
| `Emitter.Pool.Emit` | internal/events/emitter.go:69-78 | never blocking: the event goes to a worker blocked in its outer select if there is one and the channel is empty, else into the channel if there is room, else it is dropped; one step of the protocol |
| `Emitter.Pool.CancelContext` | internal/events/emitter.go:80-82 | the Cancel step of the protocol |
| `Emitter.Pool.StepWorker` | internal/events/emitter.go:114-134 | the worker takes a step of the protocol that is enabled for it, and fails to move only if none is |
| `CircuitBreaker.StepOvershoot` | internal/sessions/session.go:121-202 | for every N, over every interleaving of W workers, any mix of features and any closes: step_count is at most N + W - 1 plus the bare traces among those it counts, a trace being bare when the limit of its own feature is off or larger than N |
| `CircuitBreaker.StepOvershootIsReached` | internal/sessions/session.go:121-202 | for every step limit N, every W and every number of bare traces, of no feature or of one without limits, some run ends with exactly N + W - 1 + bare, so no smaller bound holds; one worker and no bare trace give N |
| `CircuitBreaker.CostOvershoot` | internal/sessions/session.go:149-202 | total_cost stays below C plus W times the largest single cost of a trace that C binds, plus what the bare traces among those it counts cost |
| `CircuitBreaker.CostOvershootIsReached` | internal/sessions/session.go:149-202 | with the step limit off, for every cost limit C, every W, every largest single cost M and every bare amount some run reaches exactly C - 1 + W * M + bare |
| `CircuitBreaker.StepBoundIff` | internal/sessions/session.go:175-181 | the bound N + W - 1 holds over every run exactly when the step limit of every feature the traces name is on and at most N |
| `CircuitBreaker.CostBoundIff` | internal/sessions/session.go:175-184 | where no step limit interferes, the bound C + W * M on the cost holds over every run of any mix of features exactly when the cost limit of every named feature is on and at most C |
| `CircuitBreaker.CostBoundOfFeatureIff` | internal/sessions/session.go:175-184 | for sessions of one feature, whatever its limits, the bound holds over every run exactly when its cost limit is on and at most C, or its step limit S is on and S - 1 traces cannot cost C |
| `CircuitBreaker.StepLimitBoundsCost` | internal/sessions/session.go:149-181 | a step limit bounds the cost: over every interleaving the total is at most N + W - 1 + bare times the largest single cost |
| `CircuitBreaker.ExceedsSteps` | internal/sessions/session.go:175-181 | a feature whose own step limit is off or larger than N takes a session over N + W - 1 all by itself |
| `CircuitBreaker.AtMostOneLateStep` | internal/sessions/session.go:151-202 | in a whole run each worker makes at most one step increment that comes out at N or over for a trace that N binds, and none once it is idle and the breaker tripped |
| `CircuitBreaker.AtMostOneLateCost` | internal/sessions/session.go:149-202 | the same for cost increments |
| `CircuitBreaker.CloseAtAnyTime` | internal/sessions/session.go:385-387 | a close can come at any moment; it empties both counters and leaves the breaker tripped if it is |
| `Sessions.NothingIsLost` | internal/sessions/session.go:121-158 | over every run of adds, closes and reaps, failed writes included, the closed batches followed by the buffer are the recorded traces in order, the tripping one included |
| `Sessions.OneSummaryPerWrite` | internal/sessions/session.go:363-389 | over every run a session has one summary for each write that succeeds, and none for one that fails |
| `Sessions.TotalsAddUp` | internal/sessions/session.go:141-153 | in every reachable state the totals of each buffer and of each written summary are the sums and the count of its own traces |
| `Sessions.AddIsConsistent` | internal/sessions/session.go:121-205 | adding a trace keeps the totals in step with the buffer |
| `Sessions.ReaperClosesOnlyIdle` | internal/sessions/session.go:429-469 | the reaper closes exactly the sessions idle beyond the timeout whose write succeeds, and leaves every other as it is |
| `Sessions.TrippedRecordsNothing` | internal/sessions/session.go:122-131 | a tripped session records nothing more, even after it is closed |
| `Sessions.TripsAtLimit` | internal/sessions/session.go:175-201 | a trace trips its session exactly when it names a feature and the count or the cost of the traces now buffered reaches a limit of that feature; the cost limit names the reason when both do; other sessions are untouched |
| `Sessions.LastSeenIsLastRecorded` | internal/sessions/session.go:144-148 | over every run the time the reaper compares is that of the session's last recorded trace |
| `Sessions.UntrippedIsBelowLimits` | internal/sessions/session.go:175-202 | a session whose traces share one feature is below that feature's limits as long as it is not tripped |
| `Sessions.WindowLosesArrivals` | internal/sessions/session.go:306-387 | a close that reads before, and deletes after, other traces arrive loses exactly those; nothing is lost exactly when none arrives |
| `Sessions.OverlappingClosesRepeat` | internal/sessions/session.go:306-387 | two closes that read the same buffer write it twice, harmlessly exactly when it is empty |
| `Sessions.SplitReadAddsUpIff` | internal/sessions/session.go:306-314 | when traces arrive between the two reads of a close, the written totals are those of the written traces exactly when none was recorded |
| `Sessions.Accumulator.constructor` | internal/sessions/session.go:103-105 | there are no sessions at first |
| `Sessions.Accumulator.AddTrace` | internal/sessions/session.go:121-205 | the new state of all keys; whether the trace was rejected, recorded, or recorded and tripped the breaker, with the reason, count and cost reported |
| `Sessions.Accumulator.CloseSession` | internal/sessions/session.go:302-390 | returns and writes the buffer with its totals and deletes both keys; a failed write changes nothing |
| `Sessions.Accumulator.ReapExpired` | internal/sessions/session.go:429-469 | visiting the sessions in any order closes the idle ones and counts them |
| `ProviderHealth.FallbackIffDegraded` | internal/fallback/manager.go:66-112 | the degraded flag is up exactly when some failure of the last 120 s was the third or later in a chain of failures less than 60 s apart with no success between |
| `ProviderHealth.HistoryMeaning` | internal/fallback/manager.go:79-112 | the counter is the length of the current chain and expires 60 s after its last failure; the flag expires 120 s after the latest third-in-chain failure |
| `ProviderHealth.ApplyKeepsMeaning` | internal/fallback/manager.go:85-112 | each recorded failure or success keeps that meaning |
| `ProviderHealth.ChainOfThree` | internal/fallback/manager.go:94 | a count of three or more is reached exactly by a third failure in a chain |
| `ProviderHealth.FlagOutlivesCounter` | internal/fallback/manager.go:27-31 | while the counter stands at the threshold the flag is up and outlives it by 60 s |
| `ProviderHealth.DegradedCodes` | internal/fallback/manager.go:114-118 | the codes that count as failures are 429 and those of the five hundreds |
| `ProviderHealth.ChainOrWindow` | internal/fallback/manager.go:85-94 | the third failure within one window is always the third of a chain, so the documented rule never degrades a provider that the code does not; the third of a chain comes within 120 s |
| `ProviderHealth.FlagFollowsRuleIff` | internal/fallback/manager.go:9-10 | over a whole run, after every event and at every time, the flag is up exactly when the documented rule has it up, if and only if no three failures, each less than 60 s after the one before and with no success between, span 60 s or more |
| `ProviderHealth.SpreadFailuresDegrade` | internal/fallback/manager.go:9-10 | three failures spread over 119.998 s mark a provider degraded, although the documented rule does not |
| `ProviderHealth.Manager.constructor` | internal/fallback/manager.go:51-64 | no failure is known at first |
| `ProviderHealth.Manager.RecordFailure` | internal/fallback/manager.go:79-103 | the keys become those of the history with one more failure; nothing happens without a fallback provider |
| `ProviderHealth.Manager.RecordSuccess` | internal/fallback/manager.go:105-112 | the keys become those of the history with one more success |
| `ProviderHealth.Manager.ShouldFallback` | internal/fallback/manager.go:66-77 | true exactly when the history of the provider says it is degraded now |
| `ResponseProxy.Handler.ServeHTTP` | internal/proxy/handler.go:100-412 | status, body and model come from one upstream, which one is decided by health, availability and degraded codes; a cache hit was delivered before with status 200 for the same provider and body; what is cached, delivered and reported to the health record, and what is not |
| `ResponseProxy.Handler.Choose` | internal/proxy/handler.go:246-360 | the choice between the two upstreams and what the health record learns, for all answers of both |
| `ResponseProxy.Handler.Deliver` | internal/proxy/handler.go:334-373 | the cache changes only for a status 200 after the primary answered, and stays sound |
| `ResponseProxy.Handler.constructor` | internal/proxy/handler.go:179-189 | an empty cache is sound |
| `ResponseProxy.DetectProvider` | internal/proxy/handler.go:414-442 | no name of a recognised provider contains a colon |
| `ResponseProxy.PrefixGetsProvider` | internal/proxy/handler.go:416-438 | which provider each key prefix gets, with and without Bearer before it |
| `ResponseProxy.OtherKeysUnknown` | internal/proxy/handler.go:439-441 | a key with none of the prefixes belongs to no provider |
| `ResponseProxy.PreimageIsInjective` | internal/proxy/handler.go:92-97 | the hashed text determines the provider and the body |
| `ResponseProxy.SoundAfterDelivery` | internal/proxy/handler.go:334-341 | filing a delivered response keeps every entry backed by a delivery |
| `ResponseProxy.HitWasDelivered` | internal/proxy/handler.go:179-189 | an entry found for a provider and body was delivered for them, given that the hash is injective |
| `ModelRewrite.SecondWriteWins` | internal/fallback/manager.go:202-221 | rewriting twice equals the second rewrite exactly when nothing is located or the first name has no quote |
| `ModelRewrite.ReadsBack` | internal/fallback/manager.go:202-221 | the located value after a rewrite is the new name exactly when the name has no quote |
| `ModelRewrite.IdentityRewrite` | internal/fallback/manager.go:217-219 | a rewrite leaves the body alone exactly when the located value is terminated and already that name |
| `ModelRewrite.UnchangedIffNoLayout` | internal/fallback/manager.go:206-216 | a body is unchanged for every name exactly when it has no "model", no colon after it, or something else than a string after the colon |
| `ModelRewrite.SamePlace` | internal/fallback/manager.go:205-217 | only the text up to the opening quote decides where the value is |
| `ModelRewrite.LayoutIsLocated` | internal/fallback/manager.go:205-217 | the located quote is the one after the first "model", the first colon after it, and white space of section 2 of RFC 8259 only |
| `ModelRewrite.ReplacesTheField` | internal/fallback/manager.go:199-221 | when the first "model" is a key with a string value, exactly the value of that key is replaced, be it the request's own or a nested one |
| `ModelField.SetsTheKeyIff` | internal/fallback/manager.go:199-221 | on every body and for every one of its keys "model" with a string value, escapes included: a rewrite sets exactly that value, whatever the new name, if and only if no colon stands between an earlier quoted "model" and the key, and the value has no escaped quote |
| `ModelField.SetsTheModelFieldIff` | internal/fallback/manager.go:199-221 | on an object of string fields, escapes included, the model field is set, whatever the new name, if and only if its value has no escaped quote and no field before it spells "model" as its key or as its value, other than the value right before it |
| `ModelField.NestedKeyIsReplaced` | internal/fallback/manager.go:205-219 | with a nested object that has the key first, the nested value is replaced and the request's own model stays |
| `ModelField.EscapedQuoteCutsValue` | internal/fallback/manager.go:217-219 | a value with an escaped quote is replaced up to that quote only, and its rest stays in the body |
| `ModelField.LeavesPartOfValue` | internal/fallback/manager.go:217-219 | so it is for every such value: the rewritten body is longer than the one with the value set |
| `ModelField.Cut` | internal/fallback/manager.go:202-221 | every body is the join of the parts between its quotes, so the statement about parts is about every body |
| `ModelRewrite.CanReplaceAnotherField` | internal/fallback/manager.go:199-221 | a body in which the word occurs as a value first, with another field next: the value of that field is replaced |
| `Masking.Mask` | internal/masking/masker.go:100-130 | there are texts from the original to the masked one, each turned into the next by one pattern in order; the record is what each pattern found in its own text; the original is kept and the record rebuilds it |
| `Masking.MaskingIsReversible` | internal/masking/masker.go:92-130 | for every ordered list of patterns undoing the recorded spans pattern by pattern from the last rebuilds the original |
| `Masking.MaskedInStages` | internal/masking/masker.go:106-119 | every pattern is applied, in order, to the text the one before left: both texts of a stage are the same stretches, joined by what the pattern finds and by its placeholder |
| `Masking.UndoReplace` | internal/masking/masker.go:106-119 | undoing one pattern from its record gives back the text before it, even when a placeholder occurs in the text itself |
| `Masking.OutsideUntouched` | internal/masking/masker.go:106-119 | the text before and after a pattern is the same stretches, joined by the recorded values and by placeholders |
| `AddressMasking.NoAddressSurvives` | internal/masking/masker.go:81-119 | whatever the patterns before, no match of the last pattern is left in the masked text |
| `AddressMasking.LastPatternCleans` | internal/masking/masker.go:81-87 | the pattern may come after any others that do not have its name, and then no text keeps an address |
| `AddressMasking.CleanedIsClean` | internal/masking/masker.go:81-119 | replacing all matches leaves none, not even one whose word boundary is made by a neighbouring placeholder |
| `AddressMasking.OctetIsByte` | internal/masking/masker.go:85 | the octet alternatives match exactly the one- to three-digit numbers up to 255, leading zeros allowed |
| `AddressMasking.AddressIsFourOctets` | internal/masking/masker.go:85 | an address is four octets with dots between them, and no word character right before or after it |
| `AddressMasking.WordCharacters` | internal/masking/masker.go:85 | the word characters are the ASCII letters, the digits and the underscore |
| `AddressMasking.EndIsUnique` | internal/masking/masker.go:85 | the boundary fixes where a match ends, so the order of the alternatives does not matter |
| `AddressMasking.FirstIsLeftmost` | internal/masking/masker.go:107 | the search finds the leftmost match, then goes on from its end; if it finds none there is none |
| `AddressMasking.FoundAreProper` | internal/masking/masker.go:107 | found spans are sorted, disjoint and not empty |
| `StepTree.BuildTree` | dashboard/src/pages/Sessions.tsx:80-96 | the roots and every child list of the shared nodes on the heap hold exactly the nodes of the traces that belong there, in trace order, the node of a trace being that of the last trace with its key |
| `StepTree.TreeIsRight` | dashboard/src/pages/Sessions.tsx:86-94 | in terms of the traces alone: the roots hold, in trace order, the nodes of exactly the traces that name no parent or one that is not there; the list of a node those of exactly the traces whose parent key it is the last to have |
| `StepTree.ParentsFirst` | dashboard/src/pages/Sessions.tsx:231-250 | every step that is shown is a root or stands after a step that it is a child of |
| `StepTree.MakeNodes` | dashboard/src/pages/Sessions.tsx:81-84 | one node per trace, the map holding the last under each key |
| `StepTree.PlaceNode` | dashboard/src/pages/Sessions.tsx:86-94 | the node of one more trace is appended to the roots if it names no parent or an unknown one, else to the list of its parent, every other list unchanged |
| `StepTree.OwnNodeIffLastOfItsKey` | dashboard/src/pages/Sessions.tsx:81-88 | the node placed for a trace is its own exactly when no later trace has its key |
| `StepTree.PlacedOnce` | dashboard/src/pages/Sessions.tsx:86-94 | with distinct keys each node is in exactly one list, once |
| `StepTree.PlacedOnceIffDistinct` | dashboard/src/pages/Sessions.tsx:80-96 | every node is in exactly one list, once, if and only if no two traces share a key |
| `StepTree.RenderingEnds` | dashboard/src/pages/Sessions.tsx:231-250 | with distinct keys rendering ends within as many levels as there are traces, cycles among the parents included |
| `StepTree.EachStepShownOnce` | dashboard/src/pages/Sessions.tsx:231-250 | a step is shown exactly once if its chain of parents ends, and never if it runs into a cycle |
| `StepTree.EachShownOnceIff` | dashboard/src/pages/Sessions.tsx:80-96 | rendering ends and shows every step exactly once if and only if no two traces share a key and every chain of parents ends at a root |
| `StepTree.RepeatedKeyLosesStep` | dashboard/src/pages/Sessions.tsx:80-96 | of two root traces with one key the second is shown twice and the first never |
| `StepTree.TreeHasAllSteps` | dashboard/src/pages/Sessions.tsx:80-96 | without cycles the sizes of the trees add up to the number of traces |
| `StepTree.EndsIffNoCycleBelowRoot` | dashboard/src/pages/Sessions.tsx:231-250 | for every input, repeated keys included, rendering ends exactly when no walk down from a root meets a node twice |
| `StepTree.RepeatedKeyNeverEnds` | dashboard/src/pages/Sessions.tsx:80-96 | two traces of one key for which rendering does not end |
| `CostAttribution.MoneyIsConserved` | internal/attribution/engine.go:93-121 | for each day the user, the feature and the model counters in the store each add up to the cost of the day's events |
| `CostAttribution.CounterIsSpent` | internal/attribution/engine.go:93-121 | a counter exists exactly for the names that occurred on its day, and holds what was spent under its name |
| `CostAttribution.OnlyCostKeys` | internal/attribution/engine.go:97-101 | every key in the store is the cost key of some event |
| `CostAttribution.NameReadsBack` | cmd/gateway/main.go:1154-1160 | the reader gets back the name the writer put into the key, whatever characters it contains |
| `CostAttribution.LastDaily` | cmd/gateway/main.go:1156 | the last ":daily:" of a key is the one before the day |
| `CostAttribution.ScanSeesOwnKeys` | cmd/gateway/main.go:974-989 | the pattern of one dimension and day matches its own keys and no others |
| `CostAttribution.KeysAreDistinct` | internal/attribution/engine.go:97-101 | different names, dimensions or days never share a key |
| `CostAttribution.Engine.Process` | internal/attribution/engine.go:66-121 | three counters grow by the cost of the event, priced by its model |
| `CostAttribution.ListedModelsCost` | internal/attribution/engine.go:25-33 | what a million input tokens and a million output tokens of each listed model cost |
| `CostAttribution.CostIsLinear` | internal/attribution/engine.go:67-69 | the cost is that rate for each token of a kind; a model that is not listed costs what gpt-4-turbo does |
| `CostAttribution.Engine.ScanCostKeys` | cmd/gateway/main.go:1022-1044 | the result is exactly the map from each name of the day to the sum of its events |
| `CostAttribution.Engine.constructor` | internal/attribution/engine.go:56-61 | no counters at first |
| `RateLimit.LimitHoldsIffWithinSlack` | cmd/gateway/handlers.go:59-82 | the per-minute limit holds over every run exactly when requests reach Redis within ten seconds of reading their clock |
| `RateLimit.ExactlyTheLimitPasses` | cmd/gateway/handlers.go:59-82 | within the slack exactly the first limit requests of a feature and minute pass |
| `RateLimit.PassesIffWithinLimit` | cmd/gateway/handlers.go:62-82 | within the slack a request passes exactly when it is among the first limit of its minute |
| `RateLimit.UnlimitedPass` | cmd/gateway/handlers.go:49-58 | requests without a feature, or of a feature without a positive limit, always pass and leave the counters alone |
| `RateLimit.CounterIsExact` | cmd/gateway/handlers.go:62-69 | within the slack the key is never reset while requests of its minute arrive |
| `RateLimit.AnyMinuteLongWindow` | cmd/gateway/handlers.go:38-41 | any 60 seconds, aligned or not, of the clocks that requests read let at most twice the limit pass |
| `RateLimit.AnyMinuteOfArrivals` | cmd/gateway/handlers.go:59-69 | by arrival at Redis any 60 seconds let at most three times the limit pass within the slack, and at most twice the limit when the lag is below two milliseconds |
| `RateLimit.ArrivalBoundIsReached` | cmd/gateway/handlers.go:59-69 | both bounds are reached by some requests, for every limit and every lag within the slack |
| `RateLimit.LateRunExceeds` | cmd/gateway/handlers.go:67-69 | beyond the slack limit + 1 requests of one minute can pass |
| `RateLimit.Limiter.constructor` | cmd/gateway/handlers.go:42-46 | no counters at first |
| `RateLimit.Limiter.Serve` | cmd/gateway/handlers.go:48-83 | passes on exactly the requests that pass, features without a limit included |
| `CostAlerts.NeverTwoAlertsIffWithinHour` | cmd/gateway/main.go:469-488 | over every interleaving at most one alert fires per feature and day exactly when no event is decided more than an hour after it happened |
| `CostAlerts.AtMostOneAlert` | cmd/gateway/main.go:469-488 | within the hour at most one alert, and it reports a value over the threshold |
| `CostAlerts.LateAlertFiresTwice` | cmd/gateway/main.go:477 | beyond the hour some run fires two |
| `CostAlerts.OneAlertAtRest` | cmd/gateway/main.go:461-488 | when all workers are idle and every trace was stored, exactly one alert if the events of the run cost more than the threshold, none otherwise |
| `CostAlerts.RunAddsUp` | internal/attribution/engine.go:103-104 | over every run the counter is the sum of the costs of the events, whichever workers took them |
| `CostAlerts.NothingStoredNoAlert` | cmd/gateway/main.go:456-461 | while no trace can be stored no alert is fired, whatever the day costs |
| `CostAlerts.AnyWorkerFires` | cmd/gateway/main.go:469-488 | any idle worker can take any event of the day all the way, and fires when the counter is over the threshold and no alert is out |
| `CostAlerts.AnyWorkerPasses` | cmd/gateway/main.go:469-488 | otherwise, or while an alert is out, it takes the event through without an alert and is idle again |
| `CappedList.NewestAlwaysFirst` | cmd/gateway/main.go:271-274 | from the empty list on, at every moment of every interleaving the first 100 entries are the newest 100 of all that was pushed, with at most one extra entry per trim that is due |
| `CappedList.EveryInterleavingRuns` | cmd/gateway/main.go:271-274 | every interleaving in which no trim comes before its push is a run |
| `CappedList.NextKeepsNewest` | cmd/gateway/main.go:487-488 | each push and each trim keeps this |
| `EvalRun.WaitReturnsComplete` | cmd/gateway/handlers.go:1202-1328 | when all goroutines are done, under any schedule, each case has one result, the pass count is the number of outcomes that reach the threshold with a risk of at most 0.4, passes and failures add up to the cases, and the totals are the sums in suite order |
| `EvalRun.AtMostThreeAtOnce` | cmd/gateway/handlers.go:1213-1220 | at most three cases hold a slot in any reachable state |
| `EvalRun.NextKeepsInv` | cmd/gateway/handlers.go:1215-1318 | every step keeps slots, mutual exclusion and totals right, with the critical section split into its reads and writes |
| `EvalRun.NoDeadlock` | cmd/gateway/handlers.go:1215-1320 | until all are done some goroutine can move |
| `EvalRun.WaitReturns` | cmd/gateway/handlers.go:1212-1320 | no schedule has more than seven steps for each case, all goroutines are done after exactly that many, and before that some goroutine can move |
| `Similarity.StringSimilarity` | internal/sessions/session.go:253-289 | the loops compute the overlap coefficient of the trigram sets of the cut texts |
| `Similarity.BuildTrigrams` | internal/sessions/session.go:291-298 | the set of all trigrams of the runes |
| `Similarity.CountCommon` | internal/sessions/session.go:277-282 | the size of the intersection, in any iteration order |
| `Similarity.OverlapLaws` | internal/sessions/session.go:277-288 | symmetric, in [0, 1], the share of the smaller set that is common, and one exactly when one of two non-empty sets contains the other |
| `Similarity.ScoreLaws` | internal/sessions/session.go:255-289 | the score is symmetric and in [0, 1] for all texts |
| `Similarity.PartScoresOne` | internal/sessions/session.go:255-289 | an ASCII text of 3 to 500 characters scores one with each of its stretches of three or more |
| `Similarity.ZeroIff` | internal/sessions/session.go:255-289 | different texts score zero exactly when one has fewer than three bytes or they share no trigram in their first 500 bytes |

## Left out

- Redis failures: every command succeeds, except where a module says otherwise; a
  failed EXPIRE, which would keep a key for ever, is not modelled.
- Sessions.NothingIsLost: `AddTrace`, `CloseSession` and the reaper are atomic in it; the
  window between the read and the delete of a close has lemmas of its own, and the
  commands of `AddTrace` interleave in `CircuitBreaker` only.
- Lifetimes of session keys, of the tripped key (24 h) and of cost keys (90 days), and
  the manual reset of a tripped session: within one run these keys stay.
- The conversion of step_count to 32 bits.
- Rounding: costs are exact integers, scores exact reals.
- The retry-loop warning of the attribution engine.
- Sessions.Accumulator.CloseSession: the average quality; creating the table, reading meta strings,
  decoding traces and deleting the keys are assumed to succeed; only the write can fail.
- ProviderHealth.Manager.RecordFailure: the increment, its expiry and the flag are one
  step, so failures of one provider recorded at the same time by several requests are
  taken one after the other.
- The five seconds after which `Stop` of the emitter gives up.
- ResponseProxy.Handler.ServeHTTP: failures to read the client's body or to build the
  upstream request are left out, as are headers, the request path, token counts and the
  emitted event; requests are taken one at a time; SHA-256 is assumed injective.
- ModelField.SetsTheKeyIff: keys are those spelled `model` without escapes; the request and
  response handling in `Execute` is not modelled.
- CircuitBreaker.CostBoundIff: for sessions that mix features with and without step limits
  only the sufficient half is proved (`CostOvershoot`, `StepLimitBoundsCost`).
- Masking.Mask: regular expressions other than the IPv4 one are an arbitrary finder of
  sorted, disjoint, non-empty spans with distinct names; replacements contain no `$`,
  which the library would expand.
- Similarity.StringSimilarity: decoding of bytes to runes is an arbitrary function that
  leaves ASCII alone.
- StepTree.BuildTree: the step cards, arrows and React keys; `Traces.tsx` repeats the
  same construction.
- CostAttribution.Engine.ScanCostKeys: a scan that returns a key twice, unreadable
  values, and characters special to the glob (the day and the prefixes have none).
- RateLimit.Limiter.Serve: INCR and the EXPIRE that follows it are one step; minutes are
  counted from a fixed origin, so local-time repetition of an hour at the end of daylight
  saving is not modelled.
- EvalRun: the LLM and scorer calls; their answers are arbitrary outcomes.
- The Python scorer, the flagger, anomaly scores, security patterns, configuration,
  database, authentication and the rest of the dashboard: thresholds and plumbing that
  would add easy members only.
