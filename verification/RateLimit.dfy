/** The fixed-window rate limiter: one Redis counter per feature and minute, given
    a lifetime of 70 seconds when it is created. */
module RateLimit {

  type Feature = string

  // Times are in milliseconds.
  const MINUTE := 60_000
  const KEY_TTL := 70_000

  /** What the lifetime of a key exceeds its minute by. */
  const SLACK := KEY_TTL - MINUTE

  /** A request reads its clock at now and reaches Redis at the later time at. */
  datatype Request = Request(feature: Feature, now: nat, at: nat)

  datatype Counter = Counter(count: nat, expiry: nat)

  type Store = map<(Feature, nat), Counter>

  function MinuteOf(r: Request): nat {
    r.now / MINUTE
  }

  function KeyOf(r: Request): (Feature, nat) {
    (r.feature, MinuteOf(r))
  }

  /** INCR, and EXPIRE when the counter was created by it. */
  function Incr(store: Store, key: (Feature, nat), at: nat): Store {
    var live := key in store && at < store[key].expiry;
    var count := 1 + if live then store[key].count else 0;
    store[key := Counter(count, if count == 1 then at + KEY_TTL else store[key].expiry)]
  }

  predicate Limited(limitOf: Feature -> int, feature: Feature) {
    feature != "" && limitOf(feature) > 0
  }

  function After(limitOf: Feature -> int, requests: seq<Request>): Store {
    if requests == [] then map[]
    else
      var r := requests[|requests| - 1];
      var store := After(limitOf, requests[..|requests| - 1]);
      if Limited(limitOf, r.feature) then Incr(store, KeyOf(r), r.at) else store
  }

  /** Whether request i gets past the limiter. */
  predicate Passes(limitOf: Feature -> int, requests: seq<Request>, i: nat)
    requires i < |requests|
  {
    var r := requests[i];
    Limited(limitOf, r.feature) ==>
      Incr(After(limitOf, requests[..i]), KeyOf(r), r.at)[KeyOf(r)].count <= limitOf(r.feature)
  }

  /** Redis sees the requests in this order, each at most lag after its clock. */
  ghost predicate Arrive(requests: seq<Request>, lag: nat) {
    && (forall i :: 0 <= i < |requests| ==> requests[i].now <= requests[i].at <= requests[i].now + lag)
    && (forall i, j :: 0 <= i < j < |requests| ==> requests[i].at <= requests[j].at)
  }

  ghost function Asked(requests: seq<Request>, key: (Feature, nat)): nat {
    if requests == [] then 0
    else
      Asked(requests[..|requests| - 1], key) + if KeyOf(requests[|requests| - 1]) == key then 1 else 0
  }

  /** How many of the first n requests pass for a feature in a minute. */
  ghost function Admitted(limitOf: Feature -> int, requests: seq<Request>, n: nat, key: (Feature, nat)): nat
    requires n <= |requests|
  {
    if n == 0 then 0
    else
      Admitted(limitOf, requests, n - 1, key)
      + if KeyOf(requests[n - 1]) == key && Passes(limitOf, requests, n - 1) then 1 else 0
  }

  // ---- The bound -----------------------------------------------------------

  /** A counter is never reset while requests of its minute still arrive: it holds
      exactly the number of them seen so far. */
  lemma {:induction false} CounterIsExact(
      limitOf: Feature -> int, requests: seq<Request>, lag: nat, key: (Feature, nat))
    requires Arrive(requests, lag) && lag <= SLACK && Limited(limitOf, key.0)
    ensures var store := After(limitOf, requests);
            if Asked(requests, key) == 0 then key !in store
            else
              key in store && store[key].count == Asked(requests, key)
              && store[key].expiry >= key.1 * MINUTE + KEY_TTL
  {
    if requests == [] {
    } else {
      CounterIsExact(limitOf, requests[..|requests| - 1], lag, key);
      var r := requests[|requests| - 1];
      assert r.now < (MinuteOf(r) + 1) * MINUTE && MinuteOf(r) * MINUTE <= r.now;
    }
  }

  lemma PassesIffWithinLimit(
      limitOf: Feature -> int, requests: seq<Request>, lag: nat, i: nat)
    requires Arrive(requests, lag) && lag <= SLACK && i < |requests| && Limited(limitOf, requests[i].feature)
    ensures Passes(limitOf, requests, i)
       <==> Asked(requests[..i + 1], KeyOf(requests[i])) <= limitOf(requests[i].feature)
  {
    var upTo, key := requests[..i + 1], KeyOf(requests[i]);
    assert upTo[..i] == requests[..i];
    CounterIsExact(limitOf, upTo, lag, key);
    assert After(limitOf, upTo) == Incr(After(limitOf, upTo[..i]), key, requests[i].at);
    assert Asked(upTo, key) >= 1;
  }

  /** As long as requests reach Redis within the slack, exactly the first limit
      requests of a feature and minute pass. */
  lemma {:induction false} ExactlyTheLimitPasses(
      limitOf: Feature -> int, requests: seq<Request>, lag: nat, n: nat, key: (Feature, nat))
    requires Arrive(requests, lag) && lag <= SLACK && n <= |requests| && key.0 != "" && limitOf(key.0) > 0
    ensures Admitted(limitOf, requests, n, key)
         == if Asked(requests[..n], key) <= limitOf(key.0) then Asked(requests[..n], key) else limitOf(key.0)
    decreases n
  {
    if n == 0 {
    } else {
      ExactlyTheLimitPasses(limitOf, requests, lag, n - 1, key);
      assert requests[..n][..n - 1] == requests[..n - 1];
      if KeyOf(requests[n - 1]) == key {
        PassesIffWithinLimit(limitOf, requests, lag, n - 1);
      }
    }
  }

  /** Requests of a feature that pass with their clock in [from, from + 60 s). */
  ghost function AdmittedDuring(
      limitOf: Feature -> int, requests: seq<Request>, n: nat, feature: Feature, from: nat): nat
    requires n <= |requests|
  {
    if n == 0 then 0
    else
      var r := requests[n - 1];
      AdmittedDuring(limitOf, requests, n - 1, feature, from)
      + if r.feature == feature && from <= r.now < from + MINUTE && Passes(limitOf, requests, n - 1) then 1 else 0
  }

  lemma {:induction false} TwoMinutesCover(
      limitOf: Feature -> int, requests: seq<Request>, n: nat, feature: Feature, from: nat)
    requires n <= |requests|
    ensures AdmittedDuring(limitOf, requests, n, feature, from)
         <= Admitted(limitOf, requests, n, (feature, from / MINUTE))
            + Admitted(limitOf, requests, n, (feature, from / MINUTE + 1))
    decreases n
  {
    if n == 0 {
    } else {
      TwoMinutesCover(limitOf, requests, n - 1, feature, from);
      var r := requests[n - 1];
      assert from <= r.now < from + MINUTE ==> MinuteOf(r) == from / MINUTE || MinuteOf(r) == from / MINUTE + 1;
    }
  }

  /** Any window of 60 seconds, aligned or not, lets at most twice the limit pass. */
  lemma AnyMinuteLongWindow(
      limitOf: Feature -> int, requests: seq<Request>, lag: nat, feature: Feature, from: nat)
    requires Arrive(requests, lag) && lag <= SLACK && Limited(limitOf, feature)
    ensures AdmittedDuring(limitOf, requests, |requests|, feature, from) <= 2 * limitOf(feature)
  {
    TwoMinutesCover(limitOf, requests, |requests|, feature, from);
    ExactlyTheLimitPasses(limitOf, requests, lag, |requests|, (feature, from / MINUTE));
    ExactlyTheLimitPasses(limitOf, requests, lag, |requests|, (feature, from / MINUTE + 1));
  }

  /** Requests of a feature that pass and reach Redis in [from, from + 60 s). */
  ghost function AdmittedArriving(
      limitOf: Feature -> int, requests: seq<Request>, n: nat, feature: Feature, from: nat): nat
    requires n <= |requests|
  {
    if n == 0 then 0
    else
      var r := requests[n - 1];
      AdmittedArriving(limitOf, requests, n - 1, feature, from)
      + if r.feature == feature && from <= r.at < from + MINUTE && Passes(limitOf, requests, n - 1) then 1 else 0
  }

  /** Their clocks fall into two minutes, or three when the lag is two or more. */
  lemma {:induction false} ThreeMinutesCover(
      limitOf: Feature -> int, requests: seq<Request>, lag: nat, n: nat, feature: Feature, from: nat)
    requires Arrive(requests, lag) && lag <= SLACK && n <= |requests|
    ensures var first := (if from < lag then 0 else from - lag) / MINUTE;
            AdmittedArriving(limitOf, requests, n, feature, from)
            <= Admitted(limitOf, requests, n, (feature, first)) + Admitted(limitOf, requests, n, (feature, first + 1))
               + if lag <= 1 then 0 else Admitted(limitOf, requests, n, (feature, first + 2))
    decreases n
  {
    if n == 0 {
    } else {
      ThreeMinutesCover(limitOf, requests, lag, n - 1, feature, from);
      var r, first := requests[n - 1], (if from < lag then 0 else from - lag) / MINUTE;
      if from <= r.at < from + MINUTE {
        assert r.now <= r.at <= r.now + lag;
        assert MinuteOf(r) == first || MinuteOf(r) == first + 1 || (lag > 1 && MinuteOf(r) == first + 2);
      }
    }
  }

  function Times(lag: nat): nat {
    if lag <= 1 then 2 else 3
  }

  /** By arrival at Redis any 60 seconds let at most three times the limit pass, and at
      most twice the limit when no request takes two milliseconds. */
  lemma AnyMinuteOfArrivals(
      limitOf: Feature -> int, requests: seq<Request>, lag: nat, feature: Feature, from: nat)
    requires Arrive(requests, lag) && lag <= SLACK && Limited(limitOf, feature)
    ensures AdmittedArriving(limitOf, requests, |requests|, feature, from) <= Times(lag) * limitOf(feature)
  {
    var first := (if from < lag then 0 else from - lag) / MINUTE;
    ThreeMinutesCover(limitOf, requests, lag, |requests|, feature, from);
    ExactlyTheLimitPasses(limitOf, requests, lag, |requests|, (feature, first));
    ExactlyTheLimitPasses(limitOf, requests, lag, |requests|, (feature, first + 1));
    ExactlyTheLimitPasses(limitOf, requests, lag, |requests|, (feature, first + 2));
  }

  function Burst(feature: Feature, now: nat, at: nat, n: nat): seq<Request> {
    seq(n, _ => Request(feature, now, at))
  }

  lemma {:induction false} AskedBurst(
      requests: seq<Request>, feature: Feature, now: nat, at: nat, n: nat, key: (Feature, nat))
    ensures Asked(requests + Burst(feature, now, at, n), key)
         == Asked(requests, key) + if (feature, now / MINUTE) == key then n else 0
    decreases n
  {
    if n == 0 {
      assert requests + Burst(feature, now, at, 0) == requests;
    } else {
      var all := requests + Burst(feature, now, at, n);
      AskedBurst(requests, feature, now, at, n - 1, key);
      assert all[..|all| - 1] == requests + Burst(feature, now, at, n - 1);
    }
  }

  lemma {:induction false} AskedGrows(requests: seq<Request>, n: nat, key: (Feature, nat))
    requires n <= |requests|
    ensures Asked(requests[..n], key) <= Asked(requests, key)
    decreases |requests|
  {
    if n == |requests| {
      assert requests[..n] == requests;
    } else {
      var front := requests[..|requests| - 1];
      AskedGrows(front, n, key);
      assert front[..n] == requests[..n];
    }
  }

  /** When no minute is asked for more than the limit, all requests pass. */
  lemma {:induction false} AllPass(
      limitOf: Feature -> int, requests: seq<Request>, lag: nat, n: nat, feature: Feature, from: nat)
    requires Arrive(requests, lag) && lag <= SLACK && n <= |requests| && Limited(limitOf, feature)
    requires forall i :: 0 <= i < |requests| ==>
                           requests[i].feature == feature && from <= requests[i].at < from + MINUTE
    requires forall minute: nat :: Asked(requests, (feature, minute)) <= limitOf(feature)
    ensures AdmittedArriving(limitOf, requests, n, feature, from) == n
    decreases n
  {
    if n == 0 {
    } else {
      hide Passes, Asked, Arrive;
      AllPass(limitOf, requests, lag, n - 1, feature, from);
      AskedGrows(requests, n, KeyOf(requests[n - 1]));
      PassesIffWithinLimit(limitOf, requests, lag, n - 1);
    }
  }

  /** Bursts of the size of the limit, one for each of the minutes that meet. */
  function Bursts(feature: Feature, lag: nat, limit: nat): seq<Request> {
    if lag <= 1 then
      Burst(feature, MINUTE - 1, MINUTE - 1, limit) + Burst(feature, MINUTE, MINUTE, limit)
    else
      Burst(feature, MINUTE - 1, MINUTE + 1, limit) + Burst(feature, MINUTE + 1, MINUTE + 1, limit)
      + Burst(feature, 2 * MINUTE, 2 * MINUTE, limit)
  }

  lemma AskedOneBurst(feature: Feature, now: nat, at: nat, n: nat, key: (Feature, nat))
    ensures Asked(Burst(feature, now, at, n), key) == if (feature, now / MINUTE) == key then n else 0
  {
    AskedBurst([], feature, now, at, n, key);
    assert [] + Burst(feature, now, at, n) == Burst(feature, now, at, n);
  }

  lemma MinutesOfBursts()
    ensures (MINUTE - 1) / MINUTE == 0 && MINUTE / MINUTE == (MINUTE + 1) / MINUTE == 1 && 2 * MINUTE / MINUTE == 2
  {
  }

  lemma {:induction false} AskedBursts(feature: Feature, lag: nat, limit: nat, minute: nat)
    ensures Asked(Bursts(feature, lag, limit), (feature, minute)) <= limit
  {
    hide Asked, Burst;
    MinutesOfBursts();
    var key := (feature, minute);
    if lag <= 1 {
      AskedOneBurst(feature, MINUTE - 1, MINUTE - 1, limit, key);
      AskedBurst(Burst(feature, MINUTE - 1, MINUTE - 1, limit), feature, MINUTE, MINUTE, limit, key);
    } else {
      var first := Burst(feature, MINUTE - 1, MINUTE + 1, limit);
      AskedOneBurst(feature, MINUTE - 1, MINUTE + 1, limit, key);
      AskedBurst(first, feature, MINUTE + 1, MINUTE + 1, limit, key);
      AskedBurst(first + Burst(feature, MINUTE + 1, MINUTE + 1, limit), feature, 2 * MINUTE, 2 * MINUTE, limit, key);
    }
  }

  lemma BurstsArrive(feature: Feature, lag: nat, limit: nat, from: nat)
    requires lag <= SLACK && from == if lag <= 1 then MINUTE - 1 else MINUTE + 1
    ensures var requests := Bursts(feature, lag, limit);
            && Arrive(requests, lag) && |requests| == Times(lag) * limit
            && forall i :: 0 <= i < |requests| ==>
                             requests[i].feature == feature && from <= requests[i].at < from + MINUTE
  {
  }

  /** Neither bound can be lowered: some requests and some 60 seconds reach it. */
  lemma {:induction false} ArrivalBoundIsReached(limitOf: Feature -> int, lag: nat, feature: Feature)
    returns (requests: seq<Request>, from: nat)
    requires lag <= SLACK && Limited(limitOf, feature)
    ensures Arrive(requests, lag)
    ensures AdmittedArriving(limitOf, requests, |requests|, feature, from) == Times(lag) * limitOf(feature)
  {
    var limit: nat := limitOf(feature);
    requests, from := Bursts(feature, lag, limit), if lag <= 1 then MINUTE - 1 else MINUTE + 1;
    BurstsArrive(feature, lag, limit, from);
    hide Bursts, Asked, AdmittedArriving, Arrive;
    forall minute: nat
      ensures Asked(requests, (feature, minute)) <= limit
    {
      AskedBursts(feature, lag, limit, minute);
    }
    AllPass(limitOf, requests, lag, |requests|, feature, from);
  }

  // ---- The slack is exact --------------------------------------------------

  ghost predicate LimitHolds(limitOf: Feature -> int, lag: nat) {
    forall requests, key: (Feature, nat) :: Arrive(requests, lag) && key.0 != "" && limitOf(key.0) > 0 ==>
      Admitted(limitOf, requests, |requests|, key) <= limitOf(key.0)
  }

  /** limit + 1 requests of minute 0: the last one reaches Redis when the key that
      the first created has just expired. */
  function LateRun(feature: Feature, limit: nat): seq<Request> {
    seq(limit, _ => Request(feature, 0, 0)) + [Request(feature, MINUTE - 1, KEY_TTL)]
  }

  lemma {:induction false} EarlyRequestsCounted(limitOf: Feature -> int, feature: Feature, requests: seq<Request>)
    requires Limited(limitOf, feature) && requests != []
    requires forall i :: 0 <= i < |requests| ==> requests[i] == Request(feature, 0, 0)
    ensures After(limitOf, requests) == map[(feature, 0) := Counter(|requests|, KEY_TTL)]
  {
    if |requests| == 1 {
      assert requests[..0] == [];
    } else {
      EarlyRequestsCounted(limitOf, feature, requests[..|requests| - 1]);
    }
  }

  lemma {:induction false} EarlyRequestsPass(
      limitOf: Feature -> int, feature: Feature, requests: seq<Request>, n: nat)
    requires Limited(limitOf, feature) && n <= |requests| && n <= limitOf(feature)
    requires forall i :: 0 <= i < n ==> requests[i] == Request(feature, 0, 0)
    ensures Admitted(limitOf, requests, n, (feature, 0)) == n
    decreases n
  {
    if n == 0 {
    } else {
      EarlyRequestsPass(limitOf, feature, requests, n - 1);
      if n > 1 {
        EarlyRequestsCounted(limitOf, feature, requests[..n - 1]);
      } else {
        assert requests[..0] == [];
      }
    }
  }

  lemma LateRunArrives(feature: Feature, limit: nat, lag: nat)
    requires lag > SLACK
    ensures Arrive(LateRun(feature, limit), lag)
  {
  }

  lemma {:induction false} LastRequestPasses(limitOf: Feature -> int, feature: Feature)
    requires Limited(limitOf, feature)
    ensures Passes(limitOf, LateRun(feature, limitOf(feature)), limitOf(feature))
  {
    var n: nat := limitOf(feature);
    var requests := LateRun(feature, n);
    EarlyRequestsCounted(limitOf, feature, requests[..n]);
  }

  lemma {:induction false} LateRunExceeds(limitOf: Feature -> int, feature: Feature, lag: nat)
    requires Limited(limitOf, feature) && lag > SLACK
    ensures Arrive(LateRun(feature, limitOf(feature)), lag)
    ensures Admitted(limitOf, LateRun(feature, limitOf(feature)), limitOf(feature) + 1, (feature, 0))
         == limitOf(feature) + 1
  {
    LateRunArrives(feature, limitOf(feature), lag);
    LastRequestPasses(limitOf, feature);
    EarlyRequestsPass(limitOf, feature, LateRun(feature, limitOf(feature)), limitOf(feature));
  }

  /** The per-minute limit holds over every run exactly when no request takes more
      than ten seconds from reading its clock to reaching Redis. */
  lemma LimitHoldsIffWithinSlack(limitOf: Feature -> int, feature: Feature, lag: nat)
    requires feature != "" && limitOf(feature) > 0
    ensures LimitHolds(limitOf, lag) <==> lag <= 10_000
  {
    if lag <= SLACK {
      forall requests, key: (Feature, nat) | Arrive(requests, lag) && Limited(limitOf, key.0)
        ensures Admitted(limitOf, requests, |requests|, key) <= limitOf(key.0)
      {
        ExactlyTheLimitPasses(limitOf, requests, lag, |requests|, key);
      }
    } else {
      LateRunExceeds(limitOf, feature, lag);
      var requests, key: (Feature, nat) := LateRun(feature, limitOf(feature)), (feature, 0);
      assert |requests| == limitOf(feature) + 1;
      assert Arrive(requests, lag) && Limited(limitOf, key.0);
      assert Admitted(limitOf, requests, |requests|, key) > limitOf(key.0);
    }
  }

  /** Requests without a feature, and those of features without a positive limit, always
      pass, and leave the counters alone. */
  lemma UnlimitedPass(limitOf: Feature -> int, requests: seq<Request>, i: nat)
    requires i < |requests| && (requests[i].feature == "" || limitOf(requests[i].feature) <= 0)
    ensures Passes(limitOf, requests, i) && After(limitOf, requests[..i + 1]) == After(limitOf, requests[..i])
  {
    assert requests[..i + 1][..i] == requests[..i];
  }

  // ---- The middleware ------------------------------------------------------

  class Limiter {
    const limitOf: Feature -> int
    var store: Store
    ghost var requests: seq<Request>

    ghost predicate Valid()
      reads this
    {
      store == After(limitOf, requests)
    }

    constructor (limitOf: Feature -> int)
      ensures Valid() && requests == [] && this.limitOf == limitOf
    {
      this.limitOf, store, requests := limitOf, map[], [];
    }

    /** passed: the request goes on to the handler, otherwise it is answered 429. */
    method Serve(request: Request) returns (passed: bool)
      requires Valid()
      modifies this
      ensures Valid() && requests == old(requests) + [request]
      ensures passed <==> Passes(limitOf, requests, |requests| - 1)
      ensures request.feature == "" || limitOf(request.feature) <= 0 ==> passed && store == old(store)
    {
      requests := requests + [request];
      assert requests[..|requests| - 1] == old(requests);
      if request.feature == "" {
        return true;
      }
      var limit := limitOf(request.feature);
      if limit <= 0 {
        return true;
      }
      var key := (request.feature, request.now / MINUTE);
      var count, expiry := 1, request.at;
      if key in store && request.at < store[key].expiry {
        count, expiry := store[key].count + 1, store[key].expiry;
      }
      if count == 1 {
        expiry := request.at + KEY_TTL;
      }
      store := store[key := Counter(count, expiry)];
      return !(count > limit);
    }
  }
}
