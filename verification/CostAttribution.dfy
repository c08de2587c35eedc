/** Cost attribution: each event adds its cost to three daily counters, and the
    metrics endpoint reads the counters of a day back by scanning their keys. */
module CostAttribution {

  type Key = seq<char>

  /** Money is counted in units of 1e-8 USD, of which every price is a multiple. */
  datatype Price = Price(input: nat, output: nat)

  function LookupPrice(model: string): Price {
    if model == "gpt-4o" then Price(500, 1500)
    else if model == "gpt-4-turbo" then Price(1000, 3000)
    else if model == "claude-3-5-sonnet" then Price(300, 1500)
    else if model == "claude-3-opus" then Price(1500, 7500)
    else if model == "gemini-1.5-pro" then Price(125, 500)
    else Price(1000, 3000)
  }

  /** Days are printed as YYYY-MM-DD. */
  predicate IsDay(day: Key) {
    |day| == 10 && ':' !in day
  }

  datatype Event = Event(user: Key, feature: Key, model: Key, inputTokens: int, outputTokens: int, day: Key)

  /** What attribution makes of an event. */
  datatype CostRecord = CostRecord(user: Key, feature: Key, model: Key, cost: int, day: Key)

  datatype Dimension = User | Feature | Model

  function Name(e: CostRecord, d: Dimension): Key {
    match d
    case User => e.user
    case Feature => e.feature
    case Model => e.model
  }

  function Prefix(d: Dimension): Key {
    match d
    case User => "cost:user:"
    case Feature => "cost:feature:"
    case Model => "cost:model:"
  }

  const DAILY: Key := ":daily:"

  function CostKey(d: Dimension, name: Key, day: Key): Key {
    Prefix(d) + name + (DAILY + day)
  }

  function RecordOf(e: Event): CostRecord {
    var price := LookupPrice(e.model);
    CostRecord(e.user, e.feature, e.model, e.inputTokens * price.input + e.outputTokens * price.output, e.day)
  }

  // ---- Keys are read back exactly ------------------------------------------

  function TrimPrefix(s: Key, prefix: Key): Key {
    if prefix <= s then s[|prefix|..] else s
  }

  ghost predicate OccursAt(s: Key, sub: Key, i: int) {
    0 <= i <= |s| - |sub| && s[i..i + |sub|] == sub
  }

  /** Position of the last occurrence, or -1. */
  function LastIndex(s: Key, sub: Key): (i: int)
    ensures i >= 0 ==> OccursAt(s, sub, i)
  {
    if |s| < |sub| then -1
    else if s[|s| - |sub|..] == sub then |s| - |sub|
    else
      var i := LastIndex(s[..|s| - 1], sub);
      assert i >= 0 ==> s[..|s| - 1][i..i + |sub|] == s[i..i + |sub|];
      i
  }

  function ExtractSegment(key: Key, prefix: Key, suffix: Key): Key {
    var s := TrimPrefix(key, prefix);
    var idx := LastIndex(s, suffix);
    if idx >= 0 then s[..idx] else s
  }

  /** The glob prefix*suffix of the scan. */
  predicate Matches(key: Key, prefix: Key, suffix: Key) {
    |prefix| + |suffix| <= |key| && prefix <= key && key[|key| - |suffix|..] == suffix
  }

  lemma LastIndexStep(s: Key, sub: Key)
    requires |s| >= |sub| && |s| > 0 && s[|s| - |sub|..] != sub
    ensures LastIndex(s, sub) == LastIndex(s[..|s| - 1], sub)
  {
  }

  lemma {:induction false} LastDaily(name: Key, day: Key)
    requires ':' !in day
    ensures LastIndex(name + (DAILY + day), DAILY) == |name|
    decreases |day|
  {
    var s := name + (DAILY + day);
    if day == [] {
      assert s[|name|..] == DAILY;
    } else {
      hide LastIndex;
      var tail := s[|s| - |DAILY|..];
      assert tail[|DAILY| - 1] == day[|day| - 1] && DAILY[|DAILY| - 1] == ':';
      LastIndexStep(s, DAILY);
      assert s[..|s| - 1] == name + (DAILY + day[..|day| - 1]);
      LastDaily(name, day[..|day| - 1]);
    }
  }

  /** Names come back whatever characters they contain, ":daily:" included. */
  lemma NameReadsBack(d: Dimension, name: Key, day: Key)
    requires IsDay(day)
    ensures ExtractSegment(CostKey(d, name, day), Prefix(d), DAILY) == name
  {
    hide LastIndex, Prefix;
    var tail := name + (DAILY + day);
    assert CostKey(d, name, day) == Prefix(d) + tail && (Prefix(d) + tail)[|Prefix(d)|..] == tail;
    LastDaily(name, day);
    assert tail[..|name|] == name;
  }

  /** The scan for one dimension and day sees the keys of that dimension and day,
      and no others. */
  lemma ScanSeesOwnKeys(d: Dimension, day: Key, d': Dimension, name: Key, day': Key)
    requires IsDay(day) && IsDay(day')
    ensures Matches(CostKey(d', name, day'), Prefix(d), DAILY + day) <==> d' == d && day' == day
  {
    var key := CostKey(d', name, day');
    assert key[|key| - 17..] == DAILY + day';
    assert (DAILY + day)[7..] == day && (DAILY + day')[7..] == day';
    assert key[5] == Prefix(d')[5];
    if Prefix(d) <= key {
      assert key[5] == Prefix(d)[5];
    }
    assert d' == d ==> Prefix(d) <= key;
  }

  lemma KeysAreDistinct(d: Dimension, name: Key, day: Key, d': Dimension, name': Key, day': Key)
    requires IsDay(day) && IsDay(day')
    ensures CostKey(d, name, day) == CostKey(d', name', day') <==> d == d' && name == name' && day == day'
  {
    if CostKey(d, name, day) == CostKey(d', name', day') {
      ScanSeesOwnKeys(d, day, d, name, day);
      ScanSeesOwnKeys(d, day, d', name', day');
      NameReadsBack(d, name, day);
      NameReadsBack(d', name', day');
    }
  }

  // ---- The counters --------------------------------------------------------

  type Counters = map<Key, int>

  function Incr(m: Counters, key: Key, amount: int): Counters {
    m[key := amount + if key in m then m[key] else 0]
  }

  function KeysOf(e: CostRecord): seq<Key> {
    [CostKey(User, e.user, e.day), CostKey(Feature, e.feature, e.day), CostKey(Model, e.model, e.day)]
  }

  function IncrAll(m: Counters, keys: seq<Key>, amount: int): Counters {
    if keys == [] then m else Incr(IncrAll(m, keys[..|keys| - 1], amount), keys[|keys| - 1], amount)
  }

  function After(records: seq<CostRecord>): Counters {
    if records == [] then map[]
    else
      var last := records[|records| - 1];
      IncrAll(After(records[..|records| - 1]), KeysOf(last), last.cost)
  }

  ghost predicate ValidDays(records: seq<CostRecord>) {
    forall i :: 0 <= i < |records| ==> IsDay(records[i].day)
  }

  /** What the records of a day come to under one name. */
  ghost function Spent(records: seq<CostRecord>, d: Dimension, name: Key, day: Key): int {
    if records == [] then 0
    else
      var last := records[|records| - 1];
      Spent(records[..|records| - 1], d, name, day) + if Name(last, d) == name && last.day == day then last.cost else 0
  }

  ghost function SpentOn(records: seq<CostRecord>, day: Key): int {
    if records == [] then 0
    else
      var last := records[|records| - 1];
      SpentOn(records[..|records| - 1], day) + if last.day == day then last.cost else 0
  }

  ghost function Names(records: seq<CostRecord>, d: Dimension, day: Key): set<Key> {
    set i | 0 <= i < |records| && records[i].day == day :: Name(records[i], d)
  }

  lemma IncrOneEvent(m: Counters, e: CostRecord, d: Dimension, name: Key, day: Key)
    requires IsDay(e.day) && IsDay(day)
    ensures var t, key := IncrAll(m, KeysOf(e), e.cost), CostKey(d, name, day);
            if Name(e, d) == name && e.day == day then key in t && t[key] == e.cost + (if key in m then m[key] else 0)
            else (key in t <==> key in m) && (key in m ==> t[key] == m[key])
  {
    var k := KeysOf(e);
    assert k[..2][..1] == k[..1] && k[..1][..0] == [];
    KeysAreDistinct(User, e.user, e.day, d, name, day);
    KeysAreDistinct(Feature, e.feature, e.day, d, name, day);
    KeysAreDistinct(Model, e.model, e.day, d, name, day);
    var c := e.cost;
    assert IncrAll(m, k[..1], c) == Incr(m, k[0], c);
    assert IncrAll(m, k[..2], c) == Incr(Incr(m, k[0], c), k[1], c);
    assert IncrAll(m, k, c) == Incr(Incr(Incr(m, k[0], c), k[1], c), k[2], c);
  }

  lemma NamesGrow(records: seq<CostRecord>, d: Dimension, day: Key)
    requires records != []
    ensures var front, last := records[..|records| - 1], records[|records| - 1];
            Names(records, d, day) == Names(front, d, day) + if last.day == day then {Name(last, d)} else {}
  {
    var front, last := records[..|records| - 1], records[|records| - 1];
    forall name | name in Names(front, d, day)
      ensures name in Names(records, d, day)
    {
      var i :| 0 <= i < |front| && front[i].day == day && Name(front[i], d) == name;
      assert records[i] == front[i];
    }
    assert forall i :: 0 <= i < |records| && i < |front| ==> records[i] == front[i];
  }

  lemma {:induction false} NoNameNothingSpent(records: seq<CostRecord>, d: Dimension, name: Key, day: Key)
    requires name !in Names(records, d, day)
    ensures Spent(records, d, name, day) == 0
  {
    if records == [] {
    } else {
      NamesGrow(records, d, day);
      NoNameNothingSpent(records[..|records| - 1], d, name, day);
    }
  }

  /** A counter holds the sum of the records under its name and day. */
  lemma {:induction false} CounterIsSpent(records: seq<CostRecord>, d: Dimension, name: Key, day: Key)
    requires ValidDays(records) && IsDay(day)
    ensures var key := CostKey(d, name, day);
            (key in After(records) <==> name in Names(records, d, day))
            && (key in After(records) ==> After(records)[key] == Spent(records, d, name, day))
  {
    if records == [] {
    } else {
      var front, last := records[..|records| - 1], records[|records| - 1];
      CounterIsSpent(front, d, name, day);
      if name !in Names(front, d, day) {
        NoNameNothingSpent(front, d, name, day);
      }
      IncrOneEvent(After(front), last, d, name, day);
      NamesGrow(records, d, day);
    }
  }

  lemma {:induction false} OnlyCostKeys(records: seq<CostRecord>, key: Key)
    requires key in After(records)
    ensures exists i, d :: 0 <= i < |records| && key == CostKey(d, Name(records[i], d), records[i].day)
  {
    var front, last := records[..|records| - 1], records[|records| - 1];
    var k, c, m := KeysOf(last), last.cost, After(front);
    assert k[..2][..1] == k[..1] && k[..1][..0] == [];
    assert IncrAll(m, k[..1], c) == Incr(m, k[0], c);
    assert IncrAll(m, k[..2], c) == Incr(Incr(m, k[0], c), k[1], c);
    if key in m {
      OnlyCostKeys(front, key);
      var i, d :| 0 <= i < |front| && key == CostKey(d, Name(front[i], d), front[i].day);
      assert records[i] == front[i];
    } else {
      assert key == CostKey(User, Name(last, User), last.day) || key == CostKey(Feature, Name(last, Feature), last.day)
          || key == CostKey(Model, Name(last, Model), last.day);
    }
  }

  // ---- Conservation --------------------------------------------------------

  ghost function Total(names: set<Key>, amount: Key -> int): int {
    if names == {} then 0
    else
      var name :| name in names;
      amount(name) + Total(names - {name}, amount)
  }

  lemma {:induction false} TotalRemove(names: set<Key>, amount: Key -> int, name: Key)
    requires name in names
    ensures Total(names, amount) == amount(name) + Total(names - {name}, amount)
  {
    var first :| first in names && Total(names, amount) == amount(first) + Total(names - {first}, amount);
    if first != name {
      TotalRemove(names - {first}, amount, name);
      TotalRemove(names - {name}, amount, first);
      assert names - {first} - {name} == names - {name} - {first};
    }
  }

  lemma {:induction false} TotalSame(names: set<Key>, f: Key -> int, g: Key -> int)
    requires forall name :: name in names ==> f(name) == g(name)
    ensures Total(names, f) == Total(names, g)
  {
    if names == {} {
    } else {
      var name :| name in names;
      TotalRemove(names, f, name);
      TotalRemove(names, g, name);
      TotalSame(names - {name}, f, g);
    }
  }

  ghost function SpentFn(records: seq<CostRecord>, d: Dimension, day: Key): Key -> int {
    name => Spent(records, d, name, day)
  }

  lemma TotalWith(names: set<Key>, f: Key -> int, g: Key -> int, name: Key, c: int)
    requires forall other :: other in names && other != name ==> f(other) == g(other)
    requires g(name) == c + if name in names then f(name) else 0
    ensures Total(names + {name}, g) == Total(names, f) + c
  {
    var others := names - {name};
    TotalSame(others, f, g);
    TotalRemove(names + {name}, g, name);
    assert names + {name} - {name} == others;
    if name in names {
      TotalRemove(names, f, name);
    } else {
      assert others == names;
    }
  }

  lemma MoneyStep(records: seq<CostRecord>, names: set<Key>, name: Key, d: Dimension, day: Key)
    requires records != [] && Name(records[|records| - 1], d) == name
    requires names == Names(records[..|records| - 1], d, day)
    ensures var front, last := records[..|records| - 1], records[|records| - 1];
            Total(if last.day == day then names + {name} else names, SpentFn(records, d, day))
            == Total(names, SpentFn(front, d, day)) + if last.day == day then last.cost else 0
  {
    var front, last := records[..|records| - 1], records[|records| - 1];
    var before, after := SpentFn(front, d, day), SpentFn(records, d, day);
    if last.day == day {
      if name !in names {
        NoNameNothingSpent(front, d, name, day);
      }
      TotalWith(names, before, after, name, last.cost);
    } else {
      TotalSame(names, before, after);
    }
  }

  lemma {:induction false} SpentAddsUp(records: seq<CostRecord>, d: Dimension, day: Key)
    requires ValidDays(records) && IsDay(day)
    ensures Total(Names(records, d, day), SpentFn(records, d, day)) == SpentOn(records, day)
  {
    if records == [] {
      assert Names(records, d, day) == {};
    } else {
      var front, last := records[..|records| - 1], records[|records| - 1];
      SpentAddsUp(front, d, day);
      NamesGrow(records, d, day);
      var names := Names(front, d, day);
      MoneyStep(records, names, Name(last, d), d, day);
      assert Names(records, d, day) == if last.day == day then names + {Name(last, d)} else names;
    }
  }

  /** What the counters of a day hold under each name. */
  ghost function CounterFn(m: Counters, d: Dimension, day: Key): Key -> int {
    name => if CostKey(d, name, day) in m then m[CostKey(d, name, day)] else 0
  }

  /** For each day the user counters, the feature counters and the model counters in
      the store each add up to the cost of all records of that day. */
  lemma MoneyIsConserved(records: seq<CostRecord>, d: Dimension, day: Key)
    requires ValidDays(records) && IsDay(day)
    ensures Total(Names(records, d, day), CounterFn(After(records), d, day)) == SpentOn(records, day)
  {
    hide After, Spent;
    var counted, spent := CounterFn(After(records), d, day), SpentFn(records, d, day);
    forall name | name in Names(records, d, day)
      ensures counted(name) == spent(name)
    {
      CounterIsSpent(records, d, name, day);
    }
    TotalSame(Names(records, d, day), counted, spent);
    SpentAddsUp(records, d, day);
  }

  ghost predicate IsCounterOf(records: seq<CostRecord>, d: Dimension, day: Key, key: Key) {
    exists name :: name in Names(records, d, day) && key == CostKey(d, name, day)
  }

  lemma ScannedIsCounter(records: seq<CostRecord>, d: Dimension, day: Key, key: Key)
    requires ValidDays(records) && IsDay(day)
    requires key in After(records) && Matches(key, Prefix(d), DAILY + day)
    ensures IsCounterOf(records, d, day, key)
  {
    OnlyCostKeys(records, key);
    var i, d' :| 0 <= i < |records| && key == CostKey(d', Name(records[i], d'), records[i].day);
    ScanSeesOwnKeys(d, day, d', Name(records[i], d'), records[i].day);
    assert Name(records[i], d) in Names(records, d, day);
  }

  lemma ReadBack(records: seq<CostRecord>, d: Dimension, day: Key, key: Key) returns (name: Key)
    requires ValidDays(records) && IsDay(day) && IsCounterOf(records, d, day, key)
    ensures name in Names(records, d, day) && key == CostKey(d, name, day) && key in After(records)
    ensures ExtractSegment(key, Prefix(d), DAILY) == name && After(records)[key] == Spent(records, d, name, day)
    ensures forall other :: CostKey(d, other, day) == key ==> other == name
  {
    name :| name in Names(records, d, day) && key == CostKey(d, name, day);
    forall other | CostKey(d, other, day) == key
      ensures other == name
    {
      KeysAreDistinct(d, other, day, d, name, day);
    }
    NameReadsBack(d, name, day);
    CounterIsSpent(records, d, name, day);
  }

  // ---- What tokens cost ----------------------------------------------------

  const CENT := 1_000_000

  /** A million tokens of the model, all of them input or all of them output. */
  function MillionTokens(model: string, output: bool): Event {
    Event("u", "f", model, if output then 0 else 1_000_000, if output then 1_000_000 else 0, "2026-01-01")
  }

  lemma ListedModelsCost()
    ensures RecordOf(MillionTokens("gpt-4o", false)).cost == 500 * CENT
    ensures RecordOf(MillionTokens("gpt-4o", true)).cost == 1500 * CENT
    ensures RecordOf(MillionTokens("gpt-4-turbo", false)).cost == 1000 * CENT
    ensures RecordOf(MillionTokens("gpt-4-turbo", true)).cost == 3000 * CENT
    ensures RecordOf(MillionTokens("claude-3-5-sonnet", false)).cost == 300 * CENT
    ensures RecordOf(MillionTokens("claude-3-5-sonnet", true)).cost == 1500 * CENT
    ensures RecordOf(MillionTokens("claude-3-opus", false)).cost == 1500 * CENT
    ensures RecordOf(MillionTokens("claude-3-opus", true)).cost == 7500 * CENT
    ensures RecordOf(MillionTokens("gemini-1.5-pro", false)).cost == 125 * CENT
    ensures RecordOf(MillionTokens("gemini-1.5-pro", true)).cost == 500 * CENT
  {
  }

  /** Cost grows by the same amount with every token of a kind, and every model that is
      not listed costs what gpt-4-turbo does. */
  lemma CostIsLinear(e: Event)
    ensures RecordOf(e).cost * 1_000_000
         == e.inputTokens * RecordOf(MillionTokens(e.model, false)).cost
            + e.outputTokens * RecordOf(MillionTokens(e.model, true)).cost
    ensures e.model !in ["gpt-4o", "claude-3-5-sonnet", "claude-3-opus", "gemini-1.5-pro"] ==>
              RecordOf(e).cost == RecordOf(e.(model := "gpt-4-turbo")).cost
  {
    var p := LookupPrice(e.model);
    assert e.inputTokens * (1_000_000 * p.input) == e.inputTokens * p.input * 1_000_000;
    assert e.outputTokens * (1_000_000 * p.output) == e.outputTokens * p.output * 1_000_000;
  }

  // ---- The engine and the reader -------------------------------------------

  lemma NoKeys(m: Counters, amount: int)
    ensures IncrAll(m, [], amount) == m
  {
  }

  lemma IncrAllStep(m: Counters, keys: seq<Key>, i: nat, amount: int)
    requires i < |keys|
    ensures IncrAll(m, keys[..i + 1], amount) == Incr(IncrAll(m, keys[..i], amount), keys[i], amount)
  {
    assert keys[..i + 1][..i] == keys[..i];
  }

  lemma AfterOneMore(records: seq<CostRecord>, e: CostRecord)
    ensures After(records + [e]) == IncrAll(After(records), KeysOf(e), e.cost)
  {
    hide IncrAll, KeysOf;
    assert (records + [e])[..|records|] == records;
  }

  class Engine {
    var counters: Counters
    ghost var records: seq<CostRecord>

    ghost predicate Valid()
      reads this
    {
      counters == After(records) && ValidDays(records)
    }

    constructor ()
      ensures Valid() && records == []
    {
      counters, records := map[], [];
    }

    /** Process with its three increments. */
    method Process(event: Event) returns (record: CostRecord)
      requires Valid() && IsDay(event.day)
      modifies this
      ensures Valid() && records == old(records) + [record]
      ensures record == RecordOf(event)
    {
      hide IncrAll, After, LookupPrice;
      var price := LookupPrice(event.model);
      var cost := event.inputTokens * price.input + event.outputTokens * price.output;
      record := CostRecord(event.user, event.feature, event.model, cost, event.day);
      var keys := KeysOf(record);
      assert IncrAll(counters, keys[..0], cost) == counters by {
        NoKeys(counters, cost);
      }
      for i := 0 to |keys|
        invariant counters == IncrAll(old(counters), keys[..i], cost)
        invariant records == old(records)
      {
        IncrAllStep(old(counters), keys, i, cost);
        counters := counters[keys[i] := cost + if keys[i] in counters then counters[keys[i]] else 0];
      }
      assert keys[..|keys|] == keys;
      AfterOneMore(records, record);
      records := records + [record];
    }

    /** The scan visits the matching keys in any order. */
    method ScanCostKeys(d: Dimension, day: Key) returns (result: map<Key, int>)
      requires Valid() && IsDay(day)
      ensures result.Keys == Names(records, d, day)
      ensures forall name :: name in result ==> result[name] == Spent(records, d, name, day)
    {
      hide After, Spent, Names, CostKey, ExtractSegment;
      result := map[];
      var todo := set key | key in counters && Matches(key, Prefix(d), DAILY + day);
      forall key | key in todo
        ensures IsCounterOf(records, d, day, key)
      {
        ScannedIsCounter(records, d, day, key);
      }
      forall name | name in Names(records, d, day)
        ensures CostKey(d, name, day) in todo
      {
        CounterIsSpent(records, d, name, day);
        ScanSeesOwnKeys(d, day, d, name, day);
      }
      while todo != {}
        invariant forall key :: key in todo ==> IsCounterOf(records, d, day, key)
        invariant forall name :: name in Names(records, d, day) ==> name in result || CostKey(d, name, day) in todo
        invariant forall name :: name in result ==>
                    name in Names(records, d, day) && result[name] == Spent(records, d, name, day)
        decreases todo
      {
        var key :| key in todo;
        ghost var name := ReadBack(records, d, day, key);
        result := result[ExtractSegment(key, Prefix(d), DAILY) := counters[key]];
        todo := todo - {key};
      }
    }
  }
}
