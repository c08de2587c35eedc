/** Health of the upstream providers: a failure counter that expires when failures
    stop for the window, and a degraded flag that expires after the cooldown. */
module ProviderHealth {

  type Provider = string

  // Times are in milliseconds.
  const FAILURE_WINDOW := 60_000
  const COOLDOWN := 120_000
  const FAILURE_THRESHOLD := 3

  /** A Redis key with its expiry; it is gone from that moment on. */
  datatype Counter = Counter(count: nat, expiry: int)

  datatype State = State(failures: map<Provider, Counter>, degraded: map<Provider, int>)

  datatype Kind = Failure | Success

  datatype Event = Event(provider: Provider, time: int, kind: Kind)

  function LiveCount(s: State, p: Provider, now: int): nat {
    if p in s.failures && now < s.failures[p].expiry then s.failures[p].count else 0
  }

  predicate FlagIsLive(s: State, p: Provider, now: int) {
    p in s.degraded && now < s.degraded[p]
  }

  function Apply(s: State, e: Event): State {
    match e.kind
    case Success => s.(failures := s.failures - {e.provider})
    case Failure =>
      var count := LiveCount(s, e.provider, e.time) + 1;
      State(s.failures[e.provider := Counter(count, e.time + FAILURE_WINDOW)],
            if count >= FAILURE_THRESHOLD then s.degraded[e.provider := e.time + COOLDOWN] else s.degraded)
  }

  function After(history: seq<Event>): State {
    if history == [] then State(map[], map[])
    else Apply(After(history[..|history| - 1]), history[|history| - 1])
  }

  // ---- The declarative reading of a history --------------------------------

  function Of(history: seq<Event>, p: Provider): seq<Event> {
    if history == [] then []
    else
      var last := history[|history| - 1];
      Of(history[..|history| - 1], p) + if last.provider == p then [last] else []
  }

  ghost predicate InOrder(history: seq<Event>) {
    forall i, j :: 0 <= i < j < |history| ==> history[i].time <= history[j].time
  }

  /** Events k - 1 and k of a provider are failures less than a window apart. */
  ghost predicate Follows(own: seq<Event>, k: nat) {
    && 1 <= k < |own| && own[k - 1].kind == Failure && own[k].kind == Failure
    && own[k].time < own[k - 1].time + FAILURE_WINDOW
  }

  /** Event k is the third or later failure of a chain with no success in it. */
  ghost predicate ThirdInChain(own: seq<Event>, k: nat) {
    k >= 1 && Follows(own, k) && Follows(own, k - 1)
  }

  /** Length of the chain that ends with the last event. */
  ghost function Chain(own: seq<Event>): nat {
    if own == [] || own[|own| - 1].kind == Success then 0
    else if Follows(own, |own| - 1) then Chain(own[..|own| - 1]) + 1
    else 1
  }

  ghost predicate Degraded(own: seq<Event>, now: int) {
    exists k: nat :: ThirdInChain(own, k) && now < own[k].time + COOLDOWN
  }

  // ---- The keys mean what the history says ---------------------------------

  /** What the counter of p says of the events own of p. */
  ghost predicate CounterMeans(s: State, p: Provider, own: seq<Event>) {
    && (p in s.failures <==> own != [] && own[|own| - 1].kind == Failure)
    && (p in s.failures ==> s.failures[p] == Counter(Chain(own), own[|own| - 1].time + FAILURE_WINDOW))
  }

  /** The flag expires a cooldown after the latest third-in-chain failure. */
  ghost predicate FlagMeans(s: State, p: Provider, own: seq<Event>) {
    && (forall k: nat :: ThirdInChain(own, k) ==> p in s.degraded && own[k].time + COOLDOWN <= s.degraded[p])
    && (p in s.degraded ==> exists k: nat :: ThirdInChain(own, k) && own[k].time + COOLDOWN == s.degraded[p])
  }

  /** The keys of p after a history whose events of p are own. */
  ghost predicate Means(s: State, p: Provider, own: seq<Event>) {
    CounterMeans(s, p, own) && FlagMeans(s, p, own)
  }

  lemma ChainOfThree(own: seq<Event>)
    requires own != []
    ensures Chain(own) >= FAILURE_THRESHOLD <==> ThirdInChain(own, |own| - 1)
  {
    var front := own[..|own| - 1];
    assert Follows(own, |own| - 1) ==> front[|front| - 1] == own[|own| - 2];
    assert |own| >= 3 ==> (Follows(front, |front| - 1) <==> Follows(own, |own| - 2));
    if |front| >= 2 && Follows(front, |front| - 1) {
      assert front[..|front| - 1][|front| - 2].kind == Failure;
      assert Chain(front[..|front| - 1]) >= 1;
    }
  }

  lemma PrefixChains(own: seq<Event>, e: Event)
    ensures forall k: nat :: k < |own| ==> (ThirdInChain(own + [e], k) <==> ThirdInChain(own, k))
    ensures forall k: nat :: ThirdInChain(own + [e], k) ==> k <= |own|
  {
    forall k: nat | k < |own|
      ensures Follows(own + [e], k) <==> Follows(own, k)
    {
    }
  }

  lemma CounterKeepsMeaning(s: State, p: Provider, own: seq<Event>, e: Event)
    requires CounterMeans(s, p, own) && e.provider == p
    ensures CounterMeans(Apply(s, e), p, own + [e])
    ensures e.kind == Failure ==> LiveCount(s, p, e.time) + 1 == Chain(own + [e])
  {
    assert (own + [e])[..|own|] == own;
  }

  /** The flag is raised by event e. */
  lemma RaisedFlag(t: State, p: Provider, own: seq<Event>)
    requires own != [] && InOrder(own) && ThirdInChain(own, |own| - 1)
    requires p in t.degraded && t.degraded[p] == own[|own| - 1].time + COOLDOWN
    ensures FlagMeans(t, p, own)
  {
    forall k: nat | ThirdInChain(own, k)
      ensures own[k].time + COOLDOWN <= t.degraded[p]
    {
      assert own[k].time <= own[|own| - 1].time;
    }
  }

  /** The flag is left alone by event e. */
  lemma KeptFlag(s: State, t: State, p: Provider, own: seq<Event>, e: Event)
    requires FlagMeans(s, p, own) && !ThirdInChain(own + [e], |own|)
    requires (p in t.degraded <==> p in s.degraded) && (p in s.degraded ==> t.degraded[p] == s.degraded[p])
    ensures FlagMeans(t, p, own + [e])
  {
    PrefixChains(own, e);
    if p in s.degraded {
      var k: nat :| ThirdInChain(own, k) && own[k].time + COOLDOWN == s.degraded[p];
      assert ThirdInChain(own + [e], k);
    }
  }

  lemma ApplyKeepsMeaning(s: State, p: Provider, own: seq<Event>, e: Event)
    requires Means(s, p, own) && InOrder(own + [e]) && e.provider == p
    ensures Means(Apply(s, e), p, own + [e])
  {
    CounterKeepsMeaning(s, p, own, e);
    ChainOfThree(own + [e]);
    if ThirdInChain(own + [e], |own|) {
      RaisedFlag(Apply(s, e), p, own + [e]);
    } else {
      KeptFlag(s, Apply(s, e), p, own, e);
    }
  }

  lemma OthersKeepMeaning(s: State, p: Provider, own: seq<Event>, e: Event)
    requires Means(s, p, own) && e.provider != p
    ensures Means(Apply(s, e), p, own)
  {
    var t := Apply(s, e);
    assert (p in t.degraded <==> p in s.degraded) && (p in s.degraded ==> t.degraded[p] == s.degraded[p]);
    assert (p in t.failures <==> p in s.failures) && (p in s.failures ==> t.failures[p] == s.failures[p]);
  }

  lemma NextKeepsMeaning(s: State, p: Provider, own: seq<Event>, e: Event, own': seq<Event>)
    requires Means(s, p, own) && own' == own + (if e.provider == p then [e] else []) && InOrder(own')
    ensures Means(Apply(s, e), p, own')
  {
    if e.provider == p {
      ApplyKeepsMeaning(s, p, own, e);
    } else {
      assert own' == own;
      OthersKeepMeaning(s, p, own, e);
    }
  }

  lemma {:induction false} OfIsInOrder(history: seq<Event>, p: Provider)
    requires InOrder(history)
    ensures InOrder(Of(history, p))
    ensures forall i :: 0 <= i < |Of(history, p)| ==>
                          history != [] && Of(history, p)[i].time <= history[|history| - 1].time
  {
    if history == [] {
    } else {
      var front := history[..|history| - 1];
      OfIsInOrder(front, p);
    }
  }

  lemma NothingMeansNothing(p: Provider)
    ensures Means(State(map[], map[]), p, [])
  {
  }

  lemma {:induction false} HistoryMeaning(history: seq<Event>, p: Provider)
    requires InOrder(history)
    ensures Means(After(history), p, Of(history, p))
  {
    if history == [] {
      NothingMeansNothing(p);
    } else {
      var front, last := history[..|history| - 1], history[|history| - 1];
      HistoryMeaning(front, p);
      OfIsInOrder(history, p);
      NextKeepsMeaning(After(front), p, Of(front, p), last, Of(history, p));
    }
  }

  /** At time now a provider is degraded exactly when some failure of the last two
      minutes was the third or later of a chain: consecutive failures of that
      provider with gaps under a minute and no success between them. */
  lemma FallbackIffDegraded(history: seq<Event>, p: Provider, now: int)
    requires InOrder(history)
    ensures FlagIsLive(After(history), p, now) <==> Degraded(Of(history, p), now)
  {
    HistoryMeaning(history, p);
  }

  lemma FlagExpiry(s: State, p: Provider, own: seq<Event>, now: int)
    requires Means(s, p, own) && InOrder(own) && LiveCount(s, p, now) >= FAILURE_THRESHOLD
    ensures p in s.degraded && s.degraded[p] == s.failures[p].expiry + (COOLDOWN - FAILURE_WINDOW)
  {
    ChainOfThree(own);
    assert ThirdInChain(own, |own| - 1);
    var k: nat :| ThirdInChain(own, k) && own[k].time + COOLDOWN == s.degraded[p];
    assert own[k].time <= own[|own| - 1].time;
  }

  /** While the counter stands at the threshold the flag is up, and it outlives
      the counter by exactly a minute. */
  lemma FlagOutlivesCounter(history: seq<Event>, p: Provider, now: int)
    requires InOrder(history) && LiveCount(After(history), p, now) >= FAILURE_THRESHOLD
    ensures FlagIsLive(After(history), p, now)
    ensures After(history).degraded[p] == After(history).failures[p].expiry + (COOLDOWN - FAILURE_WINDOW)
  {
    HistoryMeaning(history, p);
    OfIsInOrder(history, p);
    FlagExpiry(After(history), p, Of(history, p), now);
  }

  // ---- Three failures in a minute ------------------------------------------

  /** Events k - 2 to k of a provider are failures within one window. */
  ghost predicate ThirdInWindow(own: seq<Event>, k: nat) {
    && 2 <= k < |own| && own[k - 2].kind == Failure && own[k - 1].kind == Failure && own[k].kind == Failure
    && own[k].time < own[k - 2].time + FAILURE_WINDOW
  }

  /** The documented rule: some failure of the cooldown period was the third in a window. */
  ghost predicate DegradedByRule(own: seq<Event>, now: int) {
    exists k: nat :: ThirdInWindow(own, k) && now < own[k].time + COOLDOWN
  }

  /** Failures k - 2 to k, each less than a window after the one before, span a window
      or more. */
  ghost predicate Spread(own: seq<Event>, k: nat) {
    ThirdInChain(own, k) && own[k].time >= own[k - 2].time + FAILURE_WINDOW
  }

  /** After every number of events and at every time both rules say the same. */
  ghost predicate FollowsRule(own: seq<Event>) {
    forall n, now: int :: 0 <= n <= |own| ==> (Degraded(own[..n], now) <==> DegradedByRule(own[..n], now))
  }

  /** The third failure in a window is the third of a chain, so the documented rule never
      degrades a provider that the code does not; the third of a chain comes within two
      windows. */
  lemma ChainOrWindow(own: seq<Event>, k: nat)
    requires InOrder(own)
    ensures ThirdInWindow(own, k) <==> ThirdInChain(own, k) && !Spread(own, k)
    ensures ThirdInChain(own, k) ==> own[k].time < own[k - 2].time + 2 * FAILURE_WINDOW
  {
  }

  lemma PrefixOfOwn(own: seq<Event>, n: nat, k: nat)
    requires n <= |own| && k < n
    ensures ThirdInChain(own[..n], k) <==> ThirdInChain(own, k)
    ensures ThirdInWindow(own[..n], k) <==> ThirdInWindow(own, k)
  {
  }

  /** Right after spread failures the provider is degraded, and at the very end of that
      cooldown no other failure accounts for it. */
  lemma SpreadBreaksRule(own: seq<Event>, k: nat)
    requires InOrder(own) && Spread(own, k)
    ensures Degraded(own[..k + 1], own[k].time + COOLDOWN - 1)
    ensures !DegradedByRule(own[..k + 1], own[k].time + COOLDOWN - 1)
  {
    var upTo, now := own[..k + 1], own[k].time + COOLDOWN - 1;
    PrefixOfOwn(own, k + 1, k);
    assert upTo[k] == own[k];
    if j: nat :| ThirdInWindow(upTo, j) && now < upTo[j].time + COOLDOWN {
      PrefixOfOwn(own, k + 1, j);
    }
  }

  lemma NoSpreadFollowsRule(own: seq<Event>, n: nat, now: int)
    requires InOrder(own) && n <= |own| && forall k: nat :: !Spread(own, k)
    ensures Degraded(own[..n], now) <==> DegradedByRule(own[..n], now)
  {
    forall k: nat
      ensures ThirdInChain(own[..n], k) <==> ThirdInWindow(own[..n], k)
    {
      if k < n {
        PrefixOfOwn(own, n, k);
        ChainOrWindow(own, k);
      }
    }
  }

  lemma FollowsRuleIffNoneSpread(own: seq<Event>)
    requires InOrder(own)
    ensures FollowsRule(own) <==> forall k: nat :: !Spread(own, k)
  {
    if k: nat :| Spread(own, k) {
      SpreadBreaksRule(own, k);
      assert 0 <= k + 1 <= |own|;
    } else {
      forall n, now: int | 0 <= n <= |own|
        ensures Degraded(own[..n], now) <==> DegradedByRule(own[..n], now)
      {
        NoSpreadFollowsRule(own, n, now);
      }
    }
  }

  lemma {:induction false} OfPrefix(history: seq<Event>, p: Provider, n: nat)
    requires n <= |history|
    ensures Of(history[..n], p) <= Of(history, p)
    decreases |history|
  {
    if n == |history| {
      assert history[..n] == history;
    } else {
      var front := history[..|history| - 1];
      OfPrefix(front, p, n);
      assert front[..n] == history[..n];
    }
  }

  /** Every prefix of the events of p is what some prefix of the history has of them. */
  lemma {:induction false} PrefixIsReached(history: seq<Event>, p: Provider, m: nat) returns (n: nat)
    requires m <= |Of(history, p)|
    ensures n <= |history| && Of(history[..n], p) == Of(history, p)[..m]
    decreases |history|
  {
    if m == |Of(history, p)| {
      n := |history|;
      assert history[..n] == history;
    } else {
      var front := history[..|history| - 1];
      n := PrefixIsReached(front, p, m);
      assert front[..n] == history[..n] && Of(front, p)[..m] == Of(history, p)[..m];
    }
  }

  /** Over the whole run, up to every event and at every time, the flag of p is up
      exactly when the documented rule has it up. */
  ghost predicate FlagFollowsRule(history: seq<Event>, p: Provider) {
    forall n, now: int :: 0 <= n <= |history| ==>
      (FlagIsLive(After(history[..n]), p, now) <==> DegradedByRule(Of(history[..n], p), now))
  }

  lemma FlagRuleIsOwnRule(history: seq<Event>, p: Provider)
    requires InOrder(history)
    ensures FlagFollowsRule(history, p) <==> FollowsRule(Of(history, p))
  {
    hide After, Of, FlagIsLive, Degraded, DegradedByRule;
    var own := Of(history, p);
    if FlagFollowsRule(history, p) {
      forall m, now: int | 0 <= m <= |own|
        ensures Degraded(own[..m], now) <==> DegradedByRule(own[..m], now)
      {
        var n := PrefixIsReached(history, p, m);
        FallbackIffDegraded(history[..n], p, now);
      }
    }
    if FollowsRule(own) {
      forall n, now: int | 0 <= n <= |history|
        ensures FlagIsLive(After(history[..n]), p, now) <==> DegradedByRule(Of(history[..n], p), now)
      {
        OfPrefix(history, p, n);
        FallbackIffDegraded(history[..n], p, now);
        assert own[..|Of(history[..n], p)|] == Of(history[..n], p);
      }
    }
  }

  /** The flag follows the documented rule over the whole run if and only if no three
      failures of the provider, each less than 60 s after the one before and with no
      success between, span 60 s or more. */
  lemma FlagFollowsRuleIff(history: seq<Event>, p: Provider)
    requires InOrder(history)
    ensures FlagFollowsRule(history, p) <==> forall k: nat :: !Spread(Of(history, p), k)
  {
    FlagRuleIsOwnRule(history, p);
    OfIsInOrder(history, p);
    FollowsRuleIffNoneSpread(Of(history, p));
  }

  lemma {:induction false} AllOfOne(history: seq<Event>, p: Provider)
    requires forall i :: 0 <= i < |history| ==> history[i].provider == p
    ensures Of(history, p) == history
    decreases |history|
  {
    if history == [] {
    } else {
      AllOfOne(history[..|history| - 1], p);
    }
  }

  /** Three failures spread over just under two minutes mark the provider degraded. */
  lemma SpreadFailuresDegrade(p: Provider)
    ensures var own := [Event(p, 0, Failure), Event(p, 59_999, Failure), Event(p, 119_998, Failure)];
            InOrder(own) && FlagIsLive(After(own), p, 119_998) && !DegradedByRule(own, 119_998)
  {
    var own := [Event(p, 0, Failure), Event(p, 59_999, Failure), Event(p, 119_998, Failure)];
    hide After, Of;
    AllOfOne(own, p);
    FallbackIffDegraded(own, p, 119_998);
    assert ThirdInChain(own, 2);
  }

  // ---- The manager ---------------------------------------------------------

  /** Codes that trigger the fallback: rate limiting and server errors. */
  predicate IsDegradedStatusCode(code: int) {
    code == 429 || 500 <= code <= 599
  }

  lemma {:induction false} AfterOneMore(history: seq<Event>, e: Event)
    requires InOrder(history) && (history != [] ==> history[|history| - 1].time <= e.time)
    ensures InOrder(history + [e]) && After(history + [e]) == Apply(After(history), e)
  {
    assert (history + [e])[..|history|] == history;
  }

  /** Of the three-digit codes, 429 and those of the five hundreds. */
  lemma DegradedCodes(code: int)
    ensures IsDegradedStatusCode(code) <==> code / 100 == 5 || code == 429
  {
  }

  class Manager {
    const enabled: bool
    var failures: map<Provider, Counter>
    var degraded: map<Provider, int>
    ghost var history: seq<Event>

    ghost predicate Valid()
      reads this
    {
      && InOrder(history)
      && State(failures, degraded) == After(history)
      && (!enabled ==> history == [])
    }

    constructor (enabled: bool)
      ensures Valid() && history == [] && this.enabled == enabled
    {
      this.enabled := enabled;
      failures, degraded, history := map[], map[], [];
    }

    ghost predicate NotBefore(now: int)
      reads this
    {
      history != [] ==> history[|history| - 1].time <= now
    }

    method RecordFailure(provider: Provider, now: int)
      requires Valid() && NotBefore(now)
      modifies this
      ensures Valid()
      ensures history == old(history) + if enabled then [Event(provider, now, Failure)] else []
    {
      if !enabled {
        return;
      }
      var count := 1;
      if provider in failures && now < failures[provider].expiry {
        count := failures[provider].count + 1;
      }
      failures := failures[provider := Counter(count, now + FAILURE_WINDOW)];
      if count >= FAILURE_THRESHOLD {
        degraded := degraded[provider := now + COOLDOWN];
      }
      assert State(failures, degraded) == Apply(old(State(failures, degraded)), Event(provider, now, Failure));
      AfterOneMore(history, Event(provider, now, Failure));
      history := history + [Event(provider, now, Failure)];
    }

    method RecordSuccess(provider: Provider, now: int)
      requires Valid() && NotBefore(now)
      modifies this
      ensures Valid()
      ensures history == old(history) + if enabled then [Event(provider, now, Success)] else []
    {
      if !enabled {
        return;
      }
      failures := failures - {provider};
      assert State(failures, degraded) == Apply(old(State(failures, degraded)), Event(provider, now, Success));
      AfterOneMore(history, Event(provider, now, Success));
      history := history + [Event(provider, now, Success)];
    }

    method ShouldFallback(provider: Provider, now: int) returns (fallback: bool)
      requires Valid() && NotBefore(now)
      ensures fallback <==> Degraded(Of(history, provider), now)
    {
      FallbackIffDegraded(history, provider, now);
      if !enabled {
        return false;
      }
      fallback := provider in degraded && now < degraded[provider];
    }
  }
}
