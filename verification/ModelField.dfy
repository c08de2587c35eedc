/** Which value the rewriting of the model name replaces: the exact condition under
    which it is that of a given key, on every body. */
module ModelField {

  import opened Collections
  import opened ModelRewrite

  const MODEL: Bytes := "model"

  /** The parts of a text put together again with a quote between each two. */
  function Join(parts: seq<Bytes>): Bytes
    requires parts != []
  {
    if |parts| == 1 then parts[0] else parts[0] + ['"'] + Join(parts[1..])
  }

  /** The parts between the quotes of a text.  Every text is the join of its parts. */
  ghost predicate Parts(parts: seq<Bytes>) {
    parts != [] && forall i :: 0 <= i < |parts| ==> '"' !in parts[i]
  }

  /** White space only, around the colon at position c. */
  ghost predicate ColonAt(gap: Bytes, c: nat) {
    c < |gap| && gap[c] == ':' && AllSpace(gap[..c]) && AllSpace(gap[c + 1..])
  }

  ghost predicate ColonGap(gap: Bytes) {
    exists c: nat :: ColonAt(gap, c)
  }

  /** Part p is "model", and a colon and the opening quote of a string follow it. */
  ghost predicate KeyPart(parts: seq<Bytes>, p: nat) {
    && Parts(parts) && 1 <= p && p + 3 < |parts| && parts[p] == MODEL && ColonGap(parts[p + 1])
  }

  /** Length of the run of backslashes at the end. */
  function Backslashes(part: Bytes): nat {
    if part == [] || part[|part| - 1] != '\\' then 0 else 1 + Backslashes(part[..|part| - 1])
  }

  /** The quote after the part is escaped. */
  predicate Escapes(part: Bytes) {
    Backslashes(part) % 2 == 1
  }

  /** Parts i to q are one string: the first quote that is not escaped comes after q. */
  ghost predicate OneString(parts: seq<Bytes>, i: nat, q: nat) {
    && i <= q < |parts| - 1 && !Escapes(parts[q])
    && (forall k :: i <= k < q ==> Escapes(parts[k]))
  }

  /** Part p is a key "model" whose value is the string of parts p + 2 to q. */
  ghost predicate ModelKey(parts: seq<Bytes>, p: nat, q: nat) {
    KeyPart(parts, p) && OneString(parts, p + 2, q)
  }

  /** The parts with m as the only part of that value. */
  function SetValue(parts: seq<Bytes>, p: nat, q: nat, m: Bytes): (set': seq<Bytes>)
    requires p + 2 <= q < |parts|
    ensures set' != []
  {
    parts[..p + 2] + [m] + parts[q + 1..]
  }

  /** A colon stands between some earlier "model" and the one of part p. */
  ghost predicate ColonBefore(parts: seq<Bytes>, p: nat)
    requires p < |parts|
  {
    exists j, k :: 1 <= j < k < p && parts[j] == MODEL && ':' in parts[k]
  }

  lemma CutStep(s: Bytes, at: nat, rest: seq<Bytes>)
    requires at < |s| && s[at] == '"' && '"' !in s[..at] && Parts(rest) && Join(rest) == s[at + 1..]
    ensures Parts([s[..at]] + rest) && Join([s[..at]] + rest) == s
  {
    assert ([s[..at]] + rest)[1..] == rest;
    assert s == s[..at] + ['"'] + s[at + 1..];
  }

  /** A text cut at its quotes. */
  function Cut(s: Bytes): (parts: seq<Bytes>)
    ensures Parts(parts) && Join(parts) == s
    ensures |parts| == 1 <==> '"' !in s
    decreases |s|
  {
    var at := IndexByte(s, '"', 0);
    if at == -1 then [s]
    else
      var rest := Cut(s[at + 1..]);
      CutStep(s, at, rest);
      [s[..at]] + rest
  }

  lemma Regroup(a: Bytes, b: Bytes, c: Bytes)
    ensures a + (b + c) == (a + b) + c
  {
  }

  lemma {:induction false} JoinSplit(parts: seq<Bytes>, i: nat)
    requires 0 < i < |parts|
    ensures Join(parts) == Join(parts[..i]) + ['"'] + Join(parts[i..])
    decreases i
  {
    if i == 1 {
      assert parts[..1] == [parts[0]];
    } else {
      var rest := parts[1..];
      JoinSplit(rest, i - 1);
      assert parts[..i][1..] == rest[..i - 1] && parts[i..] == rest[i - 1..];
      Regroup(parts[0] + ['"'], Join(rest[..i - 1]), ['"'] + Join(rest[i - 1..]));
    }
  }

  lemma JoinOne(part: Bytes)
    ensures Join([part]) == part
  {
  }

  lemma JoinConcat(a: seq<Bytes>, b: seq<Bytes>)
    requires a != [] && b != []
    ensures Join(a + b) == Join(a) + ['"'] + Join(b)
  {
    JoinSplit(a + b, |a|);
    assert (a + b)[..|a|] == a && (a + b)[|a|..] == b;
  }

  /** Where the quote before part i stands. */
  function QuoteBefore(parts: seq<Bytes>, i: nat): (at: nat)
    requires 0 < i < |parts|
  {
    |Join(parts[..i])|
  }

  lemma QuoteIsThere(parts: seq<Bytes>, i: nat)
    requires 0 < i < |parts|
    ensures QuoteBefore(parts, i) < |Join(parts)| && Join(parts)[QuoteBefore(parts, i)] == '"'
  {
    JoinSplit(parts, i);
  }

  lemma NextQuote(parts: seq<Bytes>, i: nat)
    requires 0 < i < |parts| - 1
    ensures QuoteBefore(parts, i + 1) == QuoteBefore(parts, i) + 1 + |parts[i]|
    ensures QuoteBefore(parts, i + 1) < |Join(parts)|
    ensures Join(parts)[QuoteBefore(parts, i) + 1..QuoteBefore(parts, i + 1)] == parts[i]
  {
    var upTo := parts[..i + 1];
    JoinSplit(upTo, i);
    assert upTo[..i] == parts[..i] && upTo[i..] == [parts[i]];
    JoinSplit(parts, i + 1);
  }

  lemma {:induction false} QuotesInOrder(parts: seq<Bytes>, i: nat, j: nat)
    requires 0 < i <= j < |parts|
    ensures QuoteBefore(parts, i) + (j - i) <= QuoteBefore(parts, j)
    decreases j
  {
    if i == j {
    } else {
      QuotesInOrder(parts, i, j - 1);
      NextQuote(parts, j - 1);
    }
  }

  /** more starts with a quote, or is nothing. */
  lemma WordBeforeQuote(word: Bytes, more: Bytes)
    requires '"' !in word && (more == [] || more[0] == '"')
    requires |word + more| >= 6 && MODEL + ['"'] <= word + more
    ensures word == MODEL && more != []
  {
    var s := word + more;
    assert s[..6] == MODEL + ['"'];
    assert forall k :: 0 <= k < 5 ==> s[k] == s[..6][k] == MODEL[k] && MODEL[k] != '"';
    assert s[5] == s[..6][5] == '"';
    assert forall k :: 0 <= k < |word| ==> s[k] == word[k];
    assert more != [] ==> s[|word|] == '"';
    assert |word| == 5;
    assert word == s[..6][..5];
  }

  /** A key that starts at the quote before the second part is that part. */
  lemma KeyAtFront(parts: seq<Bytes>)
    requires Parts(parts) && |parts| > 1 && KeyAt(Join(parts), |parts[0]|)
    ensures |parts| > 2 && parts[1] == MODEL
  {
    var rest, s, n := Join(parts[1..]), Join(parts), |parts[0]|;
    assert s[n + 1..] == rest;
    assert s[n + 1..n + 7] == MODEL + ['"'];
    assert rest[..6] == s[n + 1..n + 7];
    var more := if |parts| == 2 then [] else ['"'] + Join(parts[2..]);
    assert parts[1..][1..] == parts[2..];
    assert rest == parts[1] + more;
    WordBeforeQuote(parts[1], more);
  }

  /** A key does not start inside the first part; one after it starts in the others. */
  lemma KeyAfterFront(parts: seq<Bytes>, at: nat)
    requires Parts(parts) && KeyAt(Join(parts), at)
    ensures |parts| > 1 && at >= |parts[0]|
    ensures at > |parts[0]| ==> KeyAt(Join(parts[1..]), at - |parts[0]| - 1)
  {
    assert forall k :: 0 <= k < |parts[0]| ==> Join(parts)[k] == parts[0][k];
    assert |parts| > 1 ==> Join(parts)[|parts[0]| + 1..] == Join(parts[1..]);
  }

  /** A key stands only where a part is the word. */
  lemma {:induction false} KeyIsPart(parts: seq<Bytes>, at: nat) returns (i: nat)
    requires Parts(parts) && KeyAt(Join(parts), at)
    ensures 0 < i < |parts| - 1 && parts[i] == MODEL && QuoteBefore(parts, i) == at
    decreases |parts|
  {
    hide KeyAt;
    KeyAfterFront(parts, at);
    if at == |parts[0]| {
      KeyAtFront(parts);
      i := 1;
      assert parts[..1] == [parts[0]];
    } else {
      i := KeyIsPart(parts[1..], at - |parts[0]| - 1);
      assert parts[..i + 1][1..] == parts[1..][..i];
      i := i + 1;
    }
  }

  lemma PartIsKey(parts: seq<Bytes>, i: nat)
    requires 0 < i < |parts| - 1 && parts[i] == MODEL
    ensures KeyAt(Join(parts), QuoteBefore(parts, i))
  {
    QuoteIsThere(parts, i);
    NextQuote(parts, i);
    QuoteIsThere(parts, i + 1);
    var s, q := Join(parts), QuoteBefore(parts, i);
    var word := s[q + 1..q + 6];
    assert word == MODEL;
    assert word[0] == s[q + 1] && word[1] == s[q + 2] && word[2] == s[q + 3];
    assert word[3] == s[q + 4] && word[4] == s[q + 5];
  }

  lemma {:induction false} NoColonInJoin(parts: seq<Bytes>)
    requires parts != [] && forall i :: 0 <= i < |parts| ==> ':' !in parts[i]
    ensures ':' !in Join(parts)
    decreases |parts|
  {
    if |parts| == 1 {
    } else {
      NoColonInJoin(parts[1..]);
    }
  }

  lemma FirstModel(parts: seq<Bytes>, p: nat) returns (j: nat)
    requires 1 <= p < |parts| && parts[p] == MODEL
    ensures 1 <= j <= p && parts[j] == MODEL && forall i :: 1 <= i < j ==> parts[i] != MODEL
  {
    j := 1;
    while parts[j] != MODEL
      invariant 1 <= j <= p && forall i :: 1 <= i < j ==> parts[i] != MODEL
      decreases p - j
    {
      j := j + 1;
    }
  }

  lemma NoEarlierKey(parts: seq<Bytes>, j: nat)
    requires Parts(parts) && 1 <= j < |parts| && forall i :: 1 <= i < j ==> parts[i] != MODEL
    ensures forall k: nat :: k < QuoteBefore(parts, j) ==> !KeyAt(Join(parts), k)
  {
    forall k: nat | k < QuoteBefore(parts, j)
      ensures !KeyAt(Join(parts), k)
    {
      if KeyAt(Join(parts), k) {
        var i := KeyIsPart(parts, k);
        if j <= i {
          QuotesInOrder(parts, j, i);
        }
      }
    }
  }

  /** Parts j to p hold no colon, so there is none from the quote before part j to
      the quote after part p. */
  lemma NoColonBetween(parts: seq<Bytes>, j: nat, p: nat)
    requires 0 < j <= p < |parts| - 1 && forall k :: j <= k <= p ==> ':' !in parts[k]
    ensures QuoteBefore(parts, p + 1) < |Join(parts)|
    ensures forall k :: QuoteBefore(parts, j) <= k <= QuoteBefore(parts, p + 1) ==> Join(parts)[k] != ':'
  {
    var upTo, between := parts[..p + 1], parts[j..p + 1];
    JoinSplit(parts, p + 1);
    JoinSplit(upTo, j);
    assert upTo[..j] == parts[..j] && upTo[j..] == between;
    forall i | 0 <= i < |between|
      ensures ':' !in between[i]
    {
      assert between[i] == parts[j + i];
    }
    NoColonInJoin(between);
    hide Join;
    assert Join(parts) == Join(parts[..j]) + ['"'] + Join(between) + ['"'] + Join(parts[p + 1..]);
  }

  /** What stands from the quote before a colon gap to the quote after it. */
  lemma GapLayout(parts: seq<Bytes>, i: nat, c: nat)
    requires 0 < i < |parts| - 1 && ColonAt(parts[i], c)
    ensures var s, from, to := Join(parts), QuoteBefore(parts, i), QuoteBefore(parts, i + 1);
            from + 1 + c < to < |s| && s[from + 1 + c] == ':'
            && (forall k :: from < k < from + 1 + c ==> IsSpace(s[k]))
            && (forall k :: from + 1 + c < k < to ==> IsSpace(s[k]))
  {
    NextQuote(parts, i);
    var s, gap, from := Join(parts), parts[i], QuoteBefore(parts, i);
    var to := QuoteBefore(parts, i + 1);
    assert s[from + 1..to][c] == s[from + 1 + c];
    forall k | from < k < from + 1 + c
      ensures IsSpace(s[k])
    {
      assert s[k] == s[from + 1..to][k - from - 1] == gap[..c][k - from - 1];
    }
    forall k | from + 1 + c < k < to
      ensures IsSpace(s[k])
    {
      assert s[k] == s[from + 1..to][k - from - 1] == gap[c + 1..][k - from - 2 - c];
    }
  }

  /** Without a colon in between, the value of the key is what gets located. */
  lemma KeyIsLocated(parts: seq<Bytes>, p: nat)
    requires KeyPart(parts, p) && !ColonBefore(parts, p)
    ensures Locate(Join(parts)) == Some(QuoteBefore(parts, p + 2))
  {
    hide Join, QuoteBefore, Locate;
    var s := Join(parts);
    var j := FirstModel(parts, p);
    var c: nat :| ColonAt(parts[p + 1], c);
    var start, from, v := QuoteBefore(parts, j), QuoteBefore(parts, p + 1), QuoteBefore(parts, p + 2);
    PartIsKey(parts, j);
    NoEarlierKey(parts, j);
    NextQuote(parts, j);
    QuotesInOrder(parts, j + 1, p + 1);
    forall k | j <= k <= p
      ensures ':' !in parts[k]
    {
      assert j < k < p ==> !(parts[j] == MODEL && ':' in parts[k]);
    }
    NoColonBetween(parts, j, p);
    QuoteIsThere(parts, p + 2);
    GapLayout(parts, p + 1, c);
    LayoutIsLocated(s, start, from + 1 + c, v);
  }

  lemma SlicesAround(s: Bytes, a: Bytes, b: Bytes)
    requires s == a + ['"'] + b
    ensures |a| < |s| && s[..|a| + 1] == a + ['"'] && s[|a| + 1..] == b
  {
  }

  lemma AroundQuote(parts: seq<Bytes>, i: nat)
    requires 0 < i < |parts|
    ensures QuoteBefore(parts, i) < |Join(parts)|
    ensures Join(parts)[..QuoteBefore(parts, i) + 1] == Join(parts[..i]) + ['"']
    ensures Join(parts)[QuoteBefore(parts, i) + 1..] == Join(parts[i..])
  {
    hide Join;
    JoinSplit(parts, i);
    SlicesAround(Join(parts), Join(parts[..i]), Join(parts[i..]));
  }

  lemma SetJoin(before: seq<Bytes>, m: Bytes, after: seq<Bytes>)
    requires before != [] && after != []
    ensures Join(before + [m] + after) == Join(before) + ['"'] + m + ['"'] + Join(after)
  {
    hide Join;
    JoinConcat(before + [m], after);
    JoinConcat(before, [m]);
    JoinOne(m);
  }

  lemma SetParts(parts: seq<Bytes>, i: nat, q: nat, m: Bytes)
    requires 0 < i <= q < |parts| - 1
    ensures QuoteBefore(parts, i) < QuoteBefore(parts, q + 1) < |Join(parts)|
    ensures Join(parts[..i] + [m] + parts[q + 1..])
         == Join(parts)[..QuoteBefore(parts, i) + 1] + m + ['"'] + Join(parts)[QuoteBefore(parts, q + 1) + 1..]
  {
    hide Join, QuoteBefore;
    QuotesInOrder(parts, i, q + 1);
    AroundQuote(parts, i);
    AroundQuote(parts, q + 1);
    SetJoin(parts[..i], m, parts[q + 1..]);
  }

  /** The first quote after the one before part i is the one after it. */
  lemma ClosingQuote(parts: seq<Bytes>, i: nat)
    requires Parts(parts) && 0 < i < |parts| - 1
    ensures QuoteBefore(parts, i) < |Join(parts)|
    ensures IndexByte(Join(parts), '"', QuoteBefore(parts, i) + 1) == QuoteBefore(parts, i + 1)
  {
    hide Join, QuoteBefore;
    var s, open, close := Join(parts), QuoteBefore(parts, i), QuoteBefore(parts, i + 1);
    NextQuote(parts, i);
    QuoteIsThere(parts, i + 1);
    forall k | open < k < close
      ensures s[k] != '"'
    {
      assert s[k] == s[open + 1..close][k - open - 1];
    }
  }

  /** What a rewrite does when the value of the key is located: it sets the text up to
      the next quote, escaped or not. */
  lemma SetsFirstPart(parts: seq<Bytes>, p: nat, m: Bytes)
    requires KeyPart(parts, p) && !ColonBefore(parts, p)
    ensures Rewrite(Join(parts), m) == Join(SetValue(parts, p, p + 2, m))
  {
    hide Join, QuoteBefore;
    var s := Join(parts);
    KeyIsLocated(parts, p);
    RewriteShape(s, m);
    SetParts(parts, p + 2, p + 2, m);
    ClosingQuote(parts, p + 2);
  }

  /** When the value has an escaped quote, a part of it is left behind. */
  lemma LeavesPartOfValue(parts: seq<Bytes>, p: nat, q: nat, m: Bytes)
    requires KeyPart(parts, p) && !ColonBefore(parts, p) && p + 2 < q < |parts| - 1
    ensures |Rewrite(Join(parts), m)| > |Join(SetValue(parts, p, q, m))|
  {
    hide Join, QuoteBefore, Rewrite;
    SetsFirstPart(parts, p, m);
    SetParts(parts, p + 2, p + 2, m);
    SetParts(parts, p + 2, q, m);
    QuotesInOrder(parts, p + 3, q + 1);
  }

  /** With a colon in between, what gets located, if anything, stands before the key. */
  lemma LocatedTooEarly(parts: seq<Bytes>, p: nat)
    requires KeyPart(parts, p) && ColonBefore(parts, p)
    ensures Locate(Join(parts)).Some? ==> Locate(Join(parts)).value <= QuoteBefore(parts, p)
  {
    hide Join, QuoteBefore;
    var s := Join(parts);
    var j, k :| 1 <= j < k < p && parts[j] == MODEL && ':' in parts[k];
    var x :| 0 <= x < |parts[k]| && parts[k][x] == ':';
    PartIsKey(parts, j);
    QuotesInOrder(parts, j, k);
    NextQuote(parts, k);
    QuoteIsThere(parts, k + 1);
    QuotesInOrder(parts, k + 1, p);
    var colon := QuoteBefore(parts, k) + 1 + x;
    assert s[colon] == s[QuoteBefore(parts, k) + 1..QuoteBefore(parts, k + 1)][x] == ':';
    assert 0 <= IndexKey(s, 0) <= QuoteBefore(parts, j);
    assert IndexByte(s, ':', IndexKey(s, 0)) <= colon;
  }

  lemma MissesTheKey(parts: seq<Bytes>, p: nat, q: nat) returns (m: Bytes)
    requires KeyPart(parts, p) && ColonBefore(parts, p) && p + 2 <= q < |parts| - 1
    ensures Rewrite(Join(parts), m) != Join(SetValue(parts, p, q, m))
  {
    hide Join, QuoteBefore, Locate;
    var s := Join(parts);
    LocatedTooEarly(parts, p);
    QuotesInOrder(parts, p, p + 2);
    match Locate(s) {
      case None =>
        m := s;
        SetParts(parts, p + 2, q, m);
      case Some(v) =>
        var end := QuoteBefore(parts, p + 2);
        QuoteIsThere(parts, p + 2);
        m := if s[v + 1] == 'x' then "y" else "x";
        SetParts(parts, p + 2, q, m);
        assert Rewrite(s, m)[v + 1] == m[0];
        assert Join(SetValue(parts, p, q, m))[v + 1] == s[..end + 1][v + 1] == s[v + 1];
    }
  }

  /** Whatever the name, a rewrite makes it the whole value of the key and changes
      nothing else. */
  ghost predicate RewritesValue(parts: seq<Bytes>, p: nat, q: nat)
    requires p + 2 <= q < |parts|
  {
    forall m :: Rewrite(Join(parts), m) == Join(SetValue(parts, p, q, m))
  }

  /** On every body and for every one of its keys "model" with a string value: a rewrite
      sets exactly that value, to any name, if and only if no colon stands between an
      earlier quoted "model" and the key, and the value has no escaped quote. */
  lemma SetsTheKeyIff(parts: seq<Bytes>, p: nat, q: nat)
    requires ModelKey(parts, p, q)
    ensures RewritesValue(parts, p, q) <==> !ColonBefore(parts, p) && q == p + 2
  {
    hide Rewrite, Join, SetValue, ColonBefore;
    if ColonBefore(parts, p) {
      var m := MissesTheKey(parts, p, q);
    } else if q != p + 2 {
      LeavesPartOfValue(parts, p, q, []);
    } else {
      forall m
        ensures Rewrite(Join(parts), m) == Join(SetValue(parts, p, q, m))
      {
        SetsFirstPart(parts, p, m);
      }
    }
  }

  /** A value with an escaped quote: its rest stays behind, and the body is no longer
      well formed. */
  lemma EscapedQuoteCutsValue(m: Bytes)
    ensures var head := "{\"model\":\"";
            Rewrite(head + "a\\" + ['"'] + "b\"}", m) == head + m + ['"'] + "b\"}"
  {
    var head := "{\"model\":\"";
    assert head[1] == '"' && head[2] == 'm' && head[7] == '"' && head[8] == ':' && head[9] == '"' && |head| == 10;
    ReplacesAfterHead(head, 1, 8, "a\\", "b\"}", m);
  }

  /** A nested object with the key: its value is replaced, and the request's own model
      stays. */
  lemma NestedKeyIsReplaced(m: Bytes)
    ensures var head := "{\"meta\":{\"model\":\"";
            Rewrite(head + "x" + ['"'] + "},\"model\":\"gpt-4o\"}", m)
            == head + m + ['"'] + "},\"model\":\"gpt-4o\"}"
  {
    var head := "{\"meta\":{\"model\":\"";
    assert head[9] == '"' && head[10] == 'm' && head[15] == '"' && head[16] == ':' && head[17] == '"' && |head| == 18;
    assert head[1] == '"' && head[2] == 'm' && head[3] == 'e' && head[6] == '"' && head[7] == ':' && head[8] == '{';
    ReplacesAfterHead(head, 9, 16, "x", "},\"model\":\"gpt-4o\"}", m);
  }

  // ---- Bodies that are one flat object -------------------------------------

  /** Key and value as they are spelled, with their escapes. */
  datatype Field = Field(key: Bytes, value: Bytes)

  function Quoted(s: Bytes): Bytes {
    ['"'] + s + ['"']
  }

  function Member(field: Field): Bytes {
    Quoted(field.key) + ":" + Quoted(field.value)
  }

  /** What stands before a field that follows these. */
  function Before(fields: seq<Field>): Bytes {
    if fields == [] then "{" else Before(fields[..|fields| - 1]) + Member(fields[|fields| - 1]) + ","
  }

  /** What stands after a field that these follow. */
  function After(fields: seq<Field>): Bytes {
    if fields == [] then "}" else "," + Member(fields[0]) + After(fields[1..])
  }

  function ObjectText(fields: seq<Field>): Bytes
    requires fields != []
  {
    "{" + Member(fields[0]) + After(fields[1..])
  }

  /** Every quote inside is escaped, and the closing one is not. */
  ghost predicate WellEscaped(s: Bytes) {
    var parts := Cut(s);
    && !Escapes(parts[|parts| - 1])
    && (forall k :: 0 <= k < |parts| - 1 ==> Escapes(parts[k]))
  }

  /** The text, after its last escaped quote if it has one, is the word. */
  ghost predicate SpellsModel(s: Bytes) {
    Cut(s)[|Cut(s)| - 1] == MODEL
  }

  /** Before field q no key spells "model", and no value except the one right before it. */
  ghost predicate NoModelBefore(fields: seq<Field>, q: nat)
    requires q <= |fields|
  {
    forall i :: 0 <= i < q ==> !SpellsModel(fields[i].key) && (SpellsModel(fields[i].value) ==> i + 1 == q)
  }

  lemma {:induction false} SplitObject(fields: seq<Field>, q: nat)
    requires q < |fields|
    ensures ObjectText(fields) == Before(fields[..q]) + Member(fields[q]) + After(fields[q + 1..])
    decreases q
  {
    hide Member;
    if q == 0 {
    } else {
      SplitObject(fields, q - 1);
      assert fields[q..][1..] == fields[q + 1..] && fields[..q][..q - 1] == fields[..q - 1];
      var before, member, after := Before(fields[..q - 1]), Member(fields[q - 1]), After(fields[q + 1..]);
      Regroup(before + member, "," + Member(fields[q]), after);
      Regroup(before + member, ",", Member(fields[q]));
    }
  }

  /** The parts of a member, between the quotes around it. */
  function MemberParts(key: seq<Bytes>, value: seq<Bytes>): seq<Bytes> {
    key + [":"] + value
  }

  lemma MemberJoin(key: seq<Bytes>, value: seq<Bytes>)
    requires Parts(key) && Parts(value)
    ensures Parts(MemberParts(key, value))
    ensures ['"'] + Join(MemberParts(key, value)) + ['"'] == Member(Field(Join(key), Join(value)))
  {
    hide Join;
    JoinConcat(key, [":"]);
    JoinConcat(key + [":"], value);
    JoinOne(":");
  }

  lemma PartsConcat(a: seq<Bytes>, b: seq<Bytes>)
    requires Parts(a) && Parts(b)
    ensures Parts(a + b)
  {
  }

  function BeforeParts(fields: seq<Field>): (parts: seq<Bytes>)
    ensures Parts(parts)
  {
    if fields == [] then ["{"]
    else
      var before, last := BeforeParts(fields[..|fields| - 1]), fields[|fields| - 1];
      var member := MemberParts(Cut(last.key), Cut(last.value));
      MemberJoin(Cut(last.key), Cut(last.value));
      PartsConcat(before, member);
      PartsConcat(before + member, [","]);
      before + member + [","]
  }

  lemma SurroundedJoin(a: seq<Bytes>, b: seq<Bytes>, c: seq<Bytes>)
    requires a != [] && b != [] && c != []
    ensures Join(a + b + c) == Join(a) + (['"'] + Join(b) + ['"']) + Join(c)
  {
    hide Join;
    JoinConcat(a + b, c);
    JoinConcat(a, b);
  }

  lemma {:induction false} BeforeJoin(fields: seq<Field>)
    ensures Join(BeforeParts(fields)) == Before(fields)
    decreases |fields|
  {
    hide Join, Cut, Member, MemberParts;
    if fields == [] {
      JoinOne("{");
    } else {
      var front, last := fields[..|fields| - 1], fields[|fields| - 1];
      BeforeJoin(front);
      MemberJoin(Cut(last.key), Cut(last.value));
      SurroundedJoin(BeforeParts(front), MemberParts(Cut(last.key), Cut(last.value)), [","]);
      JoinOne(",");
    }
  }

  ghost predicate HasModel(parts: seq<Bytes>) {
    exists j :: 1 <= j < |parts| && parts[j] == MODEL
  }

  ghost predicate ColonAfterModel(parts: seq<Bytes>) {
    exists j, k :: 1 <= j < k < |parts| && parts[j] == MODEL && ':' in parts[k]
  }

  lemma WordDoesNotEscape()
    ensures !Escapes(MODEL)
  {
    assert MODEL[|MODEL| - 1] == 'l';
  }

  /** Only the last part of a string can be the word; the others end in a backslash. */
  lemma ModelIsLast(s: Bytes, k: nat)
    requires WellEscaped(s) && k < |Cut(s)| && Cut(s)[k] == MODEL
    ensures k == |Cut(s)| - 1 && SpellsModel(s)
  {
    hide Cut, Escapes;
    WordDoesNotEscape();
  }

  /** One more member: there is a colon after a "model" exactly when there was one
      already, or the key of the member is one. */
  lemma OneMoreMember(parts: seq<Bytes>, key: Bytes, value: Bytes)
    requires parts != [] && WellEscaped(key) && WellEscaped(value)
    ensures var more := parts + MemberParts(Cut(key), Cut(value)) + [","];
            && (HasModel(more) <==> HasModel(parts) || SpellsModel(key) || SpellsModel(value))
            && (ColonAfterModel(more) <==> HasModel(parts) || SpellsModel(key))
  {
    hide Cut, WellEscaped, Escapes;
    var n, keys, values := |parts|, Cut(key), Cut(value);
    var more := parts + MemberParts(keys, values) + [","];
    var colon, comma := n + |keys|, n + |keys| + 1 + |values|;
    assert |more| == comma + 1 && more[colon] == ":" && more[comma] == ",";
    assert forall j :: 0 <= j < n ==> more[j] == parts[j];
    assert forall j :: n <= j < colon ==> more[j] == keys[j - n];
    assert forall j :: colon < j < comma ==> more[j] == values[j - colon - 1];
    assert more[colon - 1] == keys[|keys| - 1] && more[comma - 1] == values[|values| - 1];
    forall j | 1 <= j < |more| && more[j] == MODEL
      ensures HasModel(parts) || (j < colon && SpellsModel(key)) || (j == comma - 1 && SpellsModel(value))
    {
      if n <= j < colon {
        ModelIsLast(key, j - n);
      } else if colon < j < comma {
        ModelIsLast(value, j - colon - 1);
      }
    }
    assert ':' in more[colon];
  }

  ghost predicate AllEscaped(fields: seq<Field>) {
    forall i :: 0 <= i < |fields| ==> WellEscaped(fields[i].key) && WellEscaped(fields[i].value)
  }

  lemma NothingBefore()
    ensures !HasModel(BeforeParts([])) && !ColonAfterModel(BeforeParts([]))
  {
  }

  lemma {:induction false} BeforeColons(fields: seq<Field>)
    requires AllEscaped(fields)
    ensures HasModel(BeforeParts(fields))
       <==> exists i :: 0 <= i < |fields| && (SpellsModel(fields[i].key) || SpellsModel(fields[i].value))
    ensures ColonAfterModel(BeforeParts(fields)) <==> !NoModelBefore(fields, |fields|)
    decreases |fields|
  {
    hide Cut, SpellsModel, WellEscaped, MemberParts, HasModel, ColonAfterModel;
    if fields == [] {
      NothingBefore();
    } else {
      var front, last := fields[..|fields| - 1], fields[|fields| - 1];
      BeforeColons(front);
      OneMoreMember(BeforeParts(front), last.key, last.value);
      assert forall i :: 0 <= i < |front| ==> fields[i] == front[i];
    }
  }

  /** The parts of an object around its field q, whose key is "model". */
  function ObjectParts(fields: seq<Field>, q: nat): seq<Bytes>
    requires q < |fields|
  {
    BeforeParts(fields[..q]) + MemberParts([MODEL], Cut(fields[q].value)) + Cut(After(fields[q + 1..]))
  }

  lemma MemberIsNotEmpty(key: seq<Bytes>, value: seq<Bytes>)
    ensures |MemberParts(key, value)| == |key| + 1 + |value|
  {
  }

  lemma ObjectJoin(fields: seq<Field>, q: nat, value: seq<Bytes>)
    requires q < |fields| && fields[q].key == MODEL && Parts(value)
    ensures Join(BeforeParts(fields[..q]) + MemberParts([MODEL], value) + Cut(After(fields[q + 1..])))
         == ObjectText(fields[q := Field(MODEL, Join(value))])
  {
    hide Join, Cut, Member, MemberParts, Before, After, BeforeParts;
    var set' := fields[q := Field(MODEL, Join(value))];
    SplitObject(set', q);
    assert set'[..q] == fields[..q] && set'[q + 1..] == fields[q + 1..];
    BeforeJoin(fields[..q]);
    JoinOne(MODEL);
    MemberJoin([MODEL], value);
    MemberIsNotEmpty([MODEL], value);
    SurroundedJoin(BeforeParts(fields[..q]), MemberParts([MODEL], value), Cut(After(fields[q + 1..])));
  }

  lemma JustColon()
    ensures ColonGap(":")
  {
    assert ColonAt(":", 0);
  }

  lemma ObjectHasKey(fields: seq<Field>, q: nat)
    requires q < |fields| && fields[q].key == MODEL && WellEscaped(fields[q].value)
    ensures var p := |BeforeParts(fields[..q])|;
            ModelKey(ObjectParts(fields, q), p, p + 1 + |Cut(fields[q].value)|)
  {
    hide Cut, Escapes, BeforeParts, After, ColonGap;
    JustColon();
    var before, value, after := BeforeParts(fields[..q]), Cut(fields[q].value), Cut(After(fields[q + 1..]));
    var parts, p := ObjectParts(fields, q), |before|;
    assert parts == before + [MODEL] + [":"] + value + after;
    assert parts[p] == MODEL && parts[p + 1] == ":";
    assert forall k :: 0 <= k < |value| ==> parts[p + 2 + k] == value[k];
    assert '"' !in MODEL && '"' !in ":";
    forall k | p + 2 <= k < p + 1 + |value|
      ensures Escapes(parts[k])
    {
      assert parts[k] == value[k - p - 2];
    }
  }

  /** Whatever the name, a rewrite makes it the value of field q and changes nothing else. */
  ghost predicate RewritesField(fields: seq<Field>, q: nat)
    requires q < |fields|
  {
    forall m :: Rewrite(ObjectText(fields), m) == ObjectText(fields[q := Field(fields[q].key, m)])
  }

  /** Whether a value is cut at its quotes or not, the text is the same. */
  lemma SameJoin(before: seq<Bytes>, value: seq<Bytes>, after: seq<Bytes>, m: Bytes)
    requires before != [] && value != [] && after != [] && Join(value) == m
    ensures Join(before + MemberParts([MODEL], value) + after) == Join(before + MemberParts([MODEL], [m]) + after)
  {
    hide Join;
    JoinOne(m);
    SurroundedJoin(before, MemberParts([MODEL], value), after);
    SurroundedJoin(before, MemberParts([MODEL], [m]), after);
    JoinConcat([MODEL] + [":"], value);
    JoinConcat([MODEL] + [":"], [m]);
  }

  lemma FieldIsValue(fields: seq<Field>, q: nat)
    requires q < |fields| && fields[q].key == MODEL
    ensures var p, n := |BeforeParts(fields[..q])|, |Cut(fields[q].value)|;
            p + 1 + n < |ObjectParts(fields, q)|
            && (RewritesField(fields, q) <==> RewritesValue(ObjectParts(fields, q), p, p + 1 + n))
  {
    hide Rewrite, Join, Cut, BeforeParts, After, ObjectText;
    var parts, p, value := ObjectParts(fields, q), |BeforeParts(fields[..q])|, Cut(fields[q].value);
    ObjectJoin(fields, q, value);
    assert fields[q := Field(MODEL, Join(value))] == fields;
    forall m
      ensures Join(SetValue(parts, p, p + 1 + |value|, m)) == ObjectText(fields[q := Field(MODEL, m)])
    {
      ObjectJoin(fields, q, Cut(m));
      SameJoin(BeforeParts(fields[..q]), Cut(m), Cut(After(fields[q + 1..])), m);
      assert SetValue(parts, p, p + 1 + |value|, m)
          == BeforeParts(fields[..q]) + MemberParts([MODEL], [m]) + Cut(After(fields[q + 1..]));
    }
  }

  /** On an object of string fields a rewrite sets the model field, to any name, if and
      only if its value has no escaped quote and no field before it spells "model" as
      its key, or as its value, other than the value right before the field. */
  lemma SetsTheModelFieldIff(fields: seq<Field>, q: nat)
    requires AllEscaped(fields) && q < |fields| && fields[q].key == MODEL
    ensures RewritesField(fields, q) <==> NoModelBefore(fields, q) && '"' !in fields[q].value
  {
    hide RewritesField, RewritesValue, Cut, BeforeParts, WellEscaped, SpellsModel;
    var before, n := BeforeParts(fields[..q]), |Cut(fields[q].value)|;
    ObjectHasKey(fields, q);
    SetsTheKeyIff(ObjectParts(fields, q), |before|, |before| + 1 + n);
    FieldIsValue(fields, q);
    BeforeColons(fields[..q]);
    assert n == 1 <==> '"' !in fields[q].value;
    assert ColonBefore(ObjectParts(fields, q), |before|) <==> ColonAfterModel(before) by {
      assert forall k :: 0 <= k < |before| ==> ObjectParts(fields, q)[k] == before[k];
    }
    assert NoModelBefore(fields[..q], q) <==> NoModelBefore(fields, q) by {
      assert forall i :: 0 <= i < q ==> fields[..q][i] == fields[i];
    }
  }
}
