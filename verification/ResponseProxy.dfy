/** The proxy handler: the response cache, and the choice between the primary
    provider and the fallback. */
module ResponseProxy {

  import opened Collections
  import opened ProviderHealth

  type Bytes = seq<char>

  datatype Detected = Known(provider: Provider) | NotConfigured | Unknown

  function TrimBearer(auth: Bytes): Bytes {
    if "Bearer " <= auth then auth[7..] else auth
  }

  /** The provider behind an authorization header; more specific prefixes first. */
  function DetectProvider(auth: Bytes): (d: Detected)
    ensures d.Known? ==> ':' !in d.provider
  {
    var key := TrimBearer(auth);
    if "sk-ant-" <= key then Known("anthropic")
    else if "sk-" <= key then Known("openai")
    else if "gsk_" <= key then Known("groq")
    else if "AIza" <= key then Known("gemini")
    else if "xai-" <= key then Known("grok")
    else if "mistral-" <= key then Known("mistral")
    else if "together-" <= key then Known("together")
    else if "nvapi-" <= key then Known("nvidia")
    else if "cohere-" <= key then Known("cohere")
    else if "azure-" <= key then NotConfigured
    else Unknown
  }

  /** The headers that carry a key: the key itself, or Bearer and the key. */
  ghost predicate Carries(auth: Bytes, key: Bytes) {
    auth == "Bearer " + key || (auth == key && !("Bearer " <= key))
  }

  lemma CarriedKey(auth: Bytes, key: Bytes)
    requires Carries(auth, key)
    ensures TrimBearer(auth) == key
  {
    assert auth == "Bearer " + key ==> auth[7..] == key;
  }

  /** Which provider a key belongs to by its prefix, in either header form.  The longer
      prefix of anthropic comes before that of openai. */
  lemma PrefixGetsProvider(auth: Bytes, key: Bytes, prefix: Bytes)
    requires Carries(auth, key) && prefix <= key
    ensures prefix == "sk-ant-" ==> DetectProvider(auth) == Known("anthropic")
    ensures prefix == "sk-" && !("sk-ant-" <= key) ==> DetectProvider(auth) == Known("openai")
    ensures prefix == "gsk_" ==> DetectProvider(auth) == Known("groq")
    ensures prefix == "AIza" ==> DetectProvider(auth) == Known("gemini")
    ensures prefix == "xai-" ==> DetectProvider(auth) == Known("grok")
    ensures prefix == "mistral-" ==> DetectProvider(auth) == Known("mistral")
    ensures prefix == "together-" ==> DetectProvider(auth) == Known("together")
    ensures prefix == "nvapi-" ==> DetectProvider(auth) == Known("nvidia")
    ensures prefix == "cohere-" ==> DetectProvider(auth) == Known("cohere")
    ensures prefix == "azure-" ==> DetectProvider(auth) == NotConfigured
  {
    CarriedKey(auth, key);
    hide TrimBearer, Carries;
    assert prefix != [] ==> key[0] == prefix[0];
  }

  lemma SkIsPrefix(key: Bytes)
    ensures "sk-ant-" <= key ==> "sk-" <= key
  {
  }

  /** A key with none of the prefixes belongs to nobody. */
  lemma OtherKeysUnknown(auth: Bytes, key: Bytes)
    requires Carries(auth, key)
    requires !("sk-" <= key) && !("gsk_" <= key) && !("AIza" <= key) && !("xai-" <= key) && !("mistral-" <= key)
    requires !("together-" <= key) && !("nvapi-" <= key) && !("cohere-" <= key) && !("azure-" <= key)
    ensures DetectProvider(auth) == Unknown
  {
    CarriedKey(auth, key);
    hide TrimBearer, Carries;
    SkIsPrefix(key);
  }

  /** The answer of the primary provider, were it asked. */
  datatype Primary = Cancelled | NetworkError | Unreadable | Response(status: int, body: Bytes)

  /** The answer of the fallback provider, were it asked. */
  datatype Fallback = Refused | Answer(status: int, body: Bytes)

  /** tripped: the session's circuit breaker; blocked: the security scan's verdict. */
  datatype Request = Request(isPost: bool, tripped: bool, auth: Bytes, body: Bytes, blocked: bool)

  datatype Reply =
    | Rejected(status: int)
    | Hit(cached: Bytes)
    | Forwarded(code: int, content: Bytes, model: string, usedFallback: bool)
    | Silent  // the client has gone

  /** expiry None: the key never expires. */
  datatype Entry = Entry(body: Bytes, expiry: Option<int>)

  /** A response written to a client after asking upstream. */
  datatype Delivery = Delivery(provider: Provider, request: Bytes, status: int, response: Bytes)

  function Preimage(provider: Provider, body: Bytes): Bytes {
    provider + [':'] + body
  }

  /** No two providers and bodies share a preimage, since no name has a colon. */
  lemma PreimageIsInjective(p: Provider, b: Bytes, q: Provider, c: Bytes)
    requires ':' !in p && ':' !in q && Preimage(p, b) == Preimage(q, c)
    ensures p == q && b == c
  {
    var s, t := Preimage(p, b), Preimage(q, c);
    assert s[|p|] == ':' && t[|q|] == ':';
    assert forall i :: 0 <= i < |p| ==> s[i] == p[i];
    assert forall i :: 0 <= i < |q| ==> t[i] == q[i];
    assert |p| == |q|;
    assert s[..|p|] == p && t[..|q|] == q && s[|p| + 1..] == b && t[|q| + 1..] == c;
  }

  ghost predicate Injective(hash: Bytes -> Bytes) {
    forall x, y :: hash(x) == hash(y) ==> x == y
  }

  ghost predicate Backs(hash: Bytes -> Bytes, key: Bytes, entry: Entry, deliveries: seq<Delivery>, i: int) {
    && 0 <= i < |deliveries| && deliveries[i].status == 200 && ':' !in deliveries[i].provider
    && key == hash(Preimage(deliveries[i].provider, deliveries[i].request))
    && entry.body == deliveries[i].response
  }

  /** Every entry of the cache was delivered, with status 200, to the provider and
      request body it is filed under. */
  ghost predicate Sound(hash: Bytes -> Bytes, cache: map<Bytes, Entry>, deliveries: seq<Delivery>) {
    forall key :: key in cache ==> exists i :: Backs(hash, key, cache[key], deliveries, i)
  }

  ghost predicate DeliveredBefore(deliveries: seq<Delivery>, provider: Provider, request: Bytes, response: Bytes) {
    exists i :: 0 <= i < |deliveries| && deliveries[i] == Delivery(provider, request, 200, response)
  }

  lemma SoundAfterDelivery(
      hash: Bytes -> Bytes, cache: map<Bytes, Entry>, deliveries: seq<Delivery>, d: Delivery, expiry: Option<int>)
    requires Sound(hash, cache, deliveries) && ':' !in d.provider
    ensures Sound(hash, cache, deliveries + [d])
    ensures d.status == 200 ==>
              Sound(hash, cache[hash(Preimage(d.provider, d.request)) := Entry(d.response, expiry)], deliveries + [d])
  {
    var all, key := deliveries + [d], hash(Preimage(d.provider, d.request));
    forall k | k in cache
      ensures exists i :: Backs(hash, k, cache[k], all, i)
    {
      var i :| Backs(hash, k, cache[k], deliveries, i);
      assert Backs(hash, k, cache[k], all, i);
    }
    if d.status == 200 {
      assert Backs(hash, key, Entry(d.response, expiry), all, |deliveries|);
    }
  }

  lemma HitWasDelivered(
      hash: Bytes -> Bytes, cache: map<Bytes, Entry>, deliveries: seq<Delivery>, provider: Provider, body: Bytes)
    requires Injective(hash) && Sound(hash, cache, deliveries) && ':' !in provider
    requires hash(Preimage(provider, body)) in cache
    ensures DeliveredBefore(deliveries, provider, body, cache[hash(Preimage(provider, body))].body)
  {
    var key := hash(Preimage(provider, body));
    var i :| Backs(hash, key, cache[key], deliveries, i);
    PreimageIsInjective(deliveries[i].provider, deliveries[i].request, provider, body);
    assert deliveries[i] == Delivery(provider, body, 200, cache[key].body);
  }

  /** When the answer comes from the fallback: the provider is in cooldown, cannot be
      reached, or answers with a degraded code that the fallback does not share. */
  predicate TakesFallback(degraded: bool, enabled: bool, primary: Primary, fallback: Fallback) {
    && enabled && fallback.Answer?
    && (degraded || primary.NetworkError?
        || (primary.Response? && IsDegradedStatusCode(primary.status) && !IsDegradedStatusCode(fallback.status)))
  }

  /** What the client gets of the two upstream answers. */
  ghost predicate OneSource(
      degraded: bool, enabled: bool, primary: Primary, fallback: Fallback,
      model: string, fallbackModel: string, reply: Reply)
  {
    if TakesFallback(degraded, enabled, primary, fallback) then
      reply == Forwarded(fallback.status, fallback.body, fallbackModel, true)
    else if !degraded && primary.Response? then
      reply == Forwarded(primary.status, primary.body, model, false)
    else if !degraded && primary.Cancelled? then reply == Silent
    else reply == Rejected(502)
  }

  /** What the health record learns: nothing when the primary was not asked or gave
      no status. */
  ghost function Reported(provider: Provider, now: int, degraded: bool, enabled: bool, primary: Primary): seq<Event> {
    if !enabled || degraded then []
    else
      match primary
      case NetworkError => [Event(provider, now, Failure)]
      case Response(status, _) => [Event(provider, now, if IsDegradedStatusCode(status) then Failure else Success)]
      case _ => []
  }

  class Handler {
    const hash: Bytes -> Bytes
    const modelOf: Bytes -> string
    const fallbackModel: string
    const maxBody: nat
    const cacheOn: bool
    const ttl: nat
    const mgr: Manager
    var cache: map<Bytes, Entry>
    ghost var deliveries: seq<Delivery>

    ghost predicate Valid()
      reads this, mgr
    {
      mgr.Valid() && Injective(hash) && Sound(hash, cache, deliveries)
    }

    constructor (hash: Bytes -> Bytes, modelOf: Bytes -> string, fallbackModel: string,
                 maxBody: nat, cacheOn: bool, ttl: nat, mgr: Manager)
      requires Injective(hash) && mgr.Valid()
      ensures Valid() && deliveries == [] && this.mgr == mgr
    {
      this.hash, this.modelOf, this.fallbackModel := hash, modelOf, fallbackModel;
      this.maxBody, this.cacheOn, this.ttl, this.mgr := maxBody, cacheOn, ttl, mgr;
      cache, deliveries := map[], [];
    }

    /** The checks before the cache: the status of the refusal, if any. */
    function Refusal(r: Request): Option<int> {
      if !r.isPost then Some(405)
      else if r.tripped then Some(429)
      else if !DetectProvider(r.auth).Known? then Some(400)
      else if |r.body| > maxBody then Some(413)
      else None
    }

    ghost predicate IsLive(key: Bytes, now: int)
      reads this
    {
      cacheOn && key in cache && (cache[key].expiry.None? || now < cache[key].expiry.value)
    }

    /** The choice between the two providers.  primaryAnswered: the primary gave a
        response, whether or not it is the one returned. */
    method Choose(provider: Provider, model: string, now: int, primary: Primary, fallback: Fallback)
      returns (reply: Reply, primaryAnswered: bool)
      requires mgr.Valid() && mgr.NotBefore(now)
      modifies mgr
      ensures mgr.Valid()
      ensures var degraded := Degraded(Of(old(mgr.history), provider), now);
              && OneSource(degraded, mgr.enabled, primary, fallback, model, fallbackModel, reply)
              && mgr.history == old(mgr.history) + Reported(provider, now, degraded, mgr.enabled, primary)
              && (primaryAnswered <==> !degraded && primary.Response?)
    {
      reply, primaryAnswered := Rejected(502), false;
      var primaryDegraded := mgr.ShouldFallback(provider, now);
      if !primaryDegraded {
        match primary
        case Cancelled =>
          reply := Silent;
        case NetworkError =>
          mgr.RecordFailure(provider, now);
          if mgr.enabled && fallback.Answer? {
            reply := Forwarded(fallback.status, fallback.body, fallbackModel, true);
          }
        case Unreadable =>
        case Response(statusCode, body) =>
          primaryAnswered := true;
          reply := Forwarded(statusCode, body, model, false);
          if IsDegradedStatusCode(statusCode) {
            mgr.RecordFailure(provider, now);
            if mgr.enabled && fallback.Answer? && !IsDegradedStatusCode(fallback.status) {
              reply := Forwarded(fallback.status, fallback.body, fallbackModel, true);
            }
          } else {
            mgr.RecordSuccess(provider, now);
          }
      } else if mgr.enabled && fallback.Answer? {
        reply := Forwarded(fallback.status, fallback.body, fallbackModel, true);
      }
    }

    /** Writes the answer to the client, and to the cache when the primary answered
        and the status is 200. */
    method Deliver(provider: Provider, body: Bytes, reply: Reply, primaryAnswered: bool, now: int)
      requires Valid() && reply.Forwarded? && ':' !in provider
      modifies this
      ensures Valid()
      ensures deliveries == old(deliveries) + [Delivery(provider, body, reply.code, reply.content)]
      ensures var key := hash(Preimage(provider, body));
              var entry := Entry(reply.content, if ttl == 0 then None else Some(now + ttl));
              cache == if primaryAnswered && cacheOn && reply.code == 200 then old(cache)[key := entry] else old(cache)
    {
      var key, expiry := hash(Preimage(provider, body)), if ttl == 0 then None else Some(now + ttl);
      SoundAfterDelivery(hash, cache, deliveries, Delivery(provider, body, reply.code, reply.content), expiry);
      if primaryAnswered && cacheOn && reply.code == 200 {
        cache := cache[key := Entry(reply.content, expiry)];
      }
      deliveries := deliveries + [Delivery(provider, body, reply.code, reply.content)];
    }

    /** The request gets past every check and is not answered from the cache. */
    ghost predicate GoesUpstream(r: Request, now: int)
      reads this
    {
      && Refusal(r).None? && !r.blocked
      && !IsLive(hash(Preimage(DetectProvider(r.auth).provider, r.body)), now)
    }

    method ServeHTTP(r: Request, now: int, primary: Primary, fallback: Fallback) returns (reply: Reply)
      requires Valid() && mgr.NotBefore(now)
      modifies this, mgr
      ensures Valid()
      ensures Refusal(r).Some? ==> reply == Rejected(Refusal(r).value)
      ensures !r.isPost ==> reply == Rejected(405)
      ensures r.isPost && r.tripped ==> reply == Rejected(429)
      ensures r.isPost && !r.tripped && !DetectProvider(r.auth).Known? ==> reply == Rejected(400)
      ensures r.isPost && !r.tripped && DetectProvider(r.auth).Known? && |r.body| > maxBody ==> reply == Rejected(413)
      ensures r.isPost && !r.tripped && DetectProvider(r.auth).Known? && |r.body| <= maxBody && reply.Rejected? ==>
                reply.status == 502 || (r.blocked && reply.status == 400)
      ensures Refusal(r).None? ==>
                var provider := DetectProvider(r.auth).provider;
                var key := hash(Preimage(provider, r.body));
                if old(IsLive(key, now)) then
                  reply == Hit(old(cache)[key].body)
                  && DeliveredBefore(old(deliveries), provider, r.body, reply.cached)
                else if r.blocked then reply == Rejected(400)
                else
                  OneSource(Degraded(Of(old(mgr.history), provider), now), mgr.enabled, primary, fallback,
                            modelOf(r.body), fallbackModel, reply)
      ensures old(GoesUpstream(r, now)) ==>
                var provider := DetectProvider(r.auth).provider;
                var degraded := Degraded(Of(old(mgr.history), provider), now);
                mgr.history == old(mgr.history) + Reported(provider, now, degraded, mgr.enabled, primary)
      ensures !old(GoesUpstream(r, now)) ==> !reply.Forwarded? && mgr.history == old(mgr.history)
      ensures reply.Forwarded? ==>
                var provider := DetectProvider(r.auth).provider;
                var degraded := Degraded(Of(old(mgr.history), provider), now);
                var entry := Entry(reply.content, if ttl == 0 then None else Some(now + ttl));
                deliveries == old(deliveries) + [Delivery(provider, r.body, reply.code, reply.content)]
                && cache == (if !degraded && primary.Response? && cacheOn && reply.code == 200
                             then old(cache)[hash(Preimage(provider, r.body)) := entry]
                             else old(cache))
      ensures !reply.Forwarded? ==> deliveries == old(deliveries) && cache == old(cache)
    {
      hide Degraded, Of, OneSource, Reported, Sound, Injective;
      if !r.isPost {
        return Rejected(405);
      }
      if r.tripped {
        return Rejected(429);
      }
      var detected := DetectProvider(r.auth);
      if !detected.Known? {
        return Rejected(400);
      }
      if |r.body| > maxBody {
        return Rejected(413);
      }
      var key := hash(Preimage(detected.provider, r.body));
      if cacheOn && key in cache && (cache[key].expiry.None? || now < cache[key].expiry.value) {
        HitWasDelivered(hash, cache, deliveries, detected.provider, r.body);
        return Hit(cache[key].body);
      }
      if r.blocked {
        return Rejected(400);
      }
      var primaryAnswered;
      reply, primaryAnswered := Choose(detected.provider, modelOf(r.body), now, primary, fallback);
      if reply.Forwarded? {
        Deliver(detected.provider, r.body, reply, primaryAnswered, now);
      }
    }
  }
}
