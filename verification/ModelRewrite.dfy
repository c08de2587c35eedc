/** The fallback call replaces the model name in the request body by position,
    without parsing the JSON around it. */
module ModelRewrite {

  import opened Collections

  type Bytes = seq<char>

  const KEY: Bytes := ['"', 'm', 'o', 'd', 'e', 'l', '"']

  predicate KeyAt(s: Bytes, i: nat) {
    && i + 7 <= |s| && s[i] == '"' && s[i + 1] == 'm' && s[i + 2] == 'o' && s[i + 3] == 'd'
    && s[i + 4] == 'e' && s[i + 5] == 'l' && s[i + 6] == '"'
  }

  /** The first "model" at position i or later, or -1. */
  function IndexKey(s: Bytes, i: nat): (p: int)
    requires i <= |s|
    ensures p == -1 || (i <= p && KeyAt(s, p))
    ensures forall k: nat :: i <= k && (p == -1 || k < p) ==> !KeyAt(s, k)
    decreases |s| - i
  {
    if i == |s| then -1 else if KeyAt(s, i) then i else IndexKey(s, i + 1)
  }

  /** The first c at position i or later, or -1. */
  function IndexByte(s: Bytes, c: char, i: nat): (p: int)
    requires i <= |s|
    ensures p == -1 || (i <= p < |s| && s[p] == c)
    ensures forall k :: i <= k < (if p == -1 then |s| else p) ==> s[k] != c
    decreases |s| - i
  {
    if i == |s| then -1 else if s[i] == c then i else IndexByte(s, c, i + 1)
  }

  /** The white space of section 2 of RFC 8259. */
  predicate IsSpace(c: char) {
    c == ' ' || c == '\t' || c == '\n' || c == '\r'
  }

  predicate AllSpace(s: Bytes) {
    forall k :: 0 <= k < |s| ==> s[k] in " \t\n\r"
  }

  /** Where trimming white space from position i on stops. */
  function SkipSpace(s: Bytes, i: nat): (p: nat)
    requires i <= |s|
    ensures i <= p <= |s| && (p < |s| ==> !IsSpace(s[p]))
    ensures forall k :: i <= k < p ==> IsSpace(s[k])
    decreases |s| - i
  {
    if i == |s| || !IsSpace(s[i]) then i else SkipSpace(s, i + 1)
  }

  /** Position of the opening quote of the value to replace. */
  function Locate(s: Bytes): (v: Option<nat>)
    ensures v.Some? ==> v.value < |s| && s[v.value] == '"'
  {
    var start := IndexKey(s, 0);
    if start == -1 then None
    else
      var colon := IndexByte(s, ':', start);
      if colon == -1 then None
      else
        var afterColon := SkipSpace(s, colon + 1);
        if afterColon == |s| || s[afterColon] != '"' then None
        else Some(IndexByte(s, '"', colon + 1))
  }

  /** One past the closing quote.  Without one the search yields -1, and the
      arithmetic on it ends just after the opening quote. */
  function ValueEnd(s: Bytes, valStart: nat): (e: nat)
    requires valStart < |s|
    ensures valStart < e <= |s|
  {
    var close := IndexByte(s, '"', valStart + 1);
    var offset := if close == -1 then -1 else close - (valStart + 1);
    valStart + 1 + offset + 1
  }

  function Rewrite(s: Bytes, newModel: Bytes): Bytes {
    match Locate(s)
    case None => s
    case Some(valStart) => s[..valStart] + ['"'] + newModel + ['"'] + s[ValueEnd(s, valStart)..]
  }

  /** The text between the quotes of the located value, if it is terminated. */
  function Read(s: Bytes): Option<Bytes> {
    match Locate(s)
    case None => None
    case Some(valStart) =>
      var close := IndexByte(s, '"', valStart + 1);
      if close == -1 then None else Some(s[valStart + 1..close])
  }

  // ---- Where the value is --------------------------------------------------

  /** The first key at start, the first colon after it, then white space only up
      to the quote at v. */
  ghost predicate Layout(s: Bytes, start: nat, colon: nat, v: nat) {
    && start + 7 <= colon < v < |s| && s[v] == '"' && s[colon] == ':'
    && KeyAt(s, start) && (forall k: nat :: k < start ==> !KeyAt(s, k))
    && (forall k :: start <= k < colon ==> s[k] != ':')
    && (forall k :: colon < k < v ==> IsSpace(s[k]))
  }

  lemma LayoutIsLocated(s: Bytes, start: nat, colon: nat, v: nat)
    requires Layout(s, start, colon, v)
    ensures Locate(s) == Some(v)
  {
    assert IndexKey(s, 0) == start;
    assert IndexByte(s, ':', start) == colon;
    assert SkipSpace(s, colon + 1) == v;
    assert IndexByte(s, '"', colon + 1) == v;
  }

  lemma LocatedHasLayout(s: Bytes) returns (start: nat, colon: nat)
    requires Locate(s).Some?
    ensures Layout(s, start, colon, Locate(s).value)
  {
    start := IndexKey(s, 0);
    colon := IndexByte(s, ':', start);
    assert IndexByte(s, '"', colon + 1) == SkipSpace(s, colon + 1);
  }

  ghost predicate HasLayout(s: Bytes) {
    exists start, colon, v :: Layout(s, start, colon, v)
  }

  /** Every name leaves a body unchanged exactly when it has no such layout: no "model",
      no colon after it, or something else than a string after the colon. */
  lemma UnchangedIffNoLayout(s: Bytes)
    ensures (forall m :: Rewrite(s, m) == s) <==> !HasLayout(s)
  {
    if start, colon, v :| Layout(s, start, colon, v) {
      LayoutIsLocated(s, start, colon, v);
      assert |Rewrite(s, s + s)| > |s|;
    } else if Locate(s).Some? {
      var start, colon := LocatedHasLayout(s);
    }
  }

  /** Only the text up to the opening quote decides where the value is. */
  lemma SamePlace(s: Bytes, t: Bytes)
    requires Locate(s).Some? && Locate(s).value < |t|
    requires forall k :: 0 <= k <= Locate(s).value ==> t[k] == s[k]
    ensures Locate(t) == Locate(s)
  {
    var start, colon := LocatedHasLayout(s);
    forall k: nat | k < start
      ensures !KeyAt(t, k)
    {
      assert !KeyAt(s, k);
    }
    LayoutIsLocated(t, start, colon, Locate(s).value);
  }

  // ---- The overwrite laws --------------------------------------------------

  /** What follows the value, after its closing quote if it has one. */
  function Kept(s: Bytes): Bytes
    requires Locate(s).Some?
  {
    s[ValueEnd(s, Locate(s).value)..]
  }

  lemma RewriteShape(s: Bytes, m: Bytes)
    requires Locate(s).Some?
    ensures Rewrite(s, m) == s[..Locate(s).value + 1] + m + ['"'] + Kept(s)
  {
    var v := Locate(s).value;
    assert s[..v + 1] == s[..v] + ['"'];
  }

  lemma RewriteKeepsPlace(s: Bytes, m: Bytes)
    requires Locate(s).Some?
    ensures Locate(Rewrite(s, m)) == Locate(s)
    ensures Rewrite(s, m) == s[..Locate(s).value + 1] + m + ['"'] + Kept(s)
  {
    RewriteShape(s, m);
    SamePlace(s, Rewrite(s, m));
  }

  /** After head the value m is closed by its first quote. */
  lemma Closing(head: Bytes, m: Bytes, rest: Bytes)
    ensures var p := IndexByte(head + m + ['"'] + rest, '"', |head|);
            |head| <= p <= |head| + |m| && (p == |head| + |m| <==> '"' !in m)
  {
    var s := head + m + ['"'] + rest;
    assert s[|head| + |m|] == '"';
    assert forall k :: 0 <= k < |m| ==> s[|head| + k] == m[k];
  }

  lemma ReadAt(head: Bytes, m: Bytes, rest: Bytes)
    requires head != [] && Locate(head + m + ['"'] + rest) == Some(|head| - 1)
    ensures Read(head + m + ['"'] + rest) == Some(m) <==> '"' !in m
  {
    Closing(head, m, rest);
    assert (head + m + ['"'] + rest)[|head|..|head| + |m|] == m;
  }

  /** Reading back gives the new name exactly when the name has no quote in it. */
  lemma ReadsBack(s: Bytes, m: Bytes)
    requires Locate(s).Some?
    ensures Read(Rewrite(s, m)) == Some(m) <==> '"' !in m
  {
    RewriteKeepsPlace(s, m);
    ReadAt(s[..Locate(s).value + 1], m, Kept(s));
  }

  lemma KeptAt(head: Bytes, m: Bytes, rest: Bytes)
    requires head != [] && Locate(head + m + ['"'] + rest) == Some(|head| - 1)
    ensures '"' !in m ==> Kept(head + m + ['"'] + rest) == rest
    ensures '"' in m ==> |Kept(head + m + ['"'] + rest)| > |rest|
  {
    Closing(head, m, rest);
  }

  lemma KeptAfterRewrite(s: Bytes, m: Bytes)
    requires Locate(s).Some?
    ensures Locate(Rewrite(s, m)) == Locate(s)
    ensures Rewrite(s, m)[..Locate(s).value + 1] == s[..Locate(s).value + 1]
    ensures '"' !in m ==> Kept(Rewrite(s, m)) == Kept(s)
    ensures '"' in m ==> |Kept(Rewrite(s, m))| > |Kept(s)|
  {
    RewriteKeepsPlace(s, m);
    KeptAt(s[..Locate(s).value + 1], m, Kept(s));
  }

  lemma SameFront(front: Bytes, x: Bytes, y: Bytes)
    ensures front + x == front + y <==> x == y
  {
    assert (front + x)[|front|..] == x && (front + y)[|front|..] == y;
  }

  /** Two bodies that agree up to the opening quote are rewritten alike exactly when
      the same text follows their values. */
  lemma RewriteAlike(s: Bytes, t: Bytes, m: Bytes)
    requires Locate(s).Some? && Locate(t) == Locate(s)
    requires t[..Locate(s).value + 1] == s[..Locate(s).value + 1]
    ensures Rewrite(t, m) == Rewrite(s, m) <==> Kept(t) == Kept(s)
  {
    RewriteShape(s, m);
    RewriteShape(t, m);
    SameFront(s[..Locate(s).value + 1] + m + ['"'], Kept(s), Kept(t));
  }

  /** The second write wins on every body, exactly when the first name has no
      quote in it or there was nothing to rewrite. */
  lemma SecondWriteWins(s: Bytes, m1: Bytes, m2: Bytes)
    ensures Rewrite(Rewrite(s, m1), m2) == Rewrite(s, m2) <==> Locate(s).None? || '"' !in m1
  {
    if Locate(s).Some? {
      KeptAfterRewrite(s, m1);
      RewriteAlike(s, Rewrite(s, m1), m2);
    }
  }

  lemma RestoredIff(s: Bytes, from: nat, close: nat, m: Bytes)
    requires from <= close < |s| && s[close] == '"'
    ensures s[..from] + m + ['"'] + s[close + 1..] == s <==> s[from..close] == m
  {
    var t := s[..from] + m + ['"'] + s[close + 1..];
    assert s == s[..from] + s[from..close] + ['"'] + s[close + 1..];
    if t == s {
      assert |m| == close - from && t[from..close] == m;
    }
  }

  /** Rewriting a terminated value to itself changes nothing; an unterminated one
      no rewrite leaves alone. */
  lemma IdentityRewrite(s: Bytes, m: Bytes)
    requires Locate(s).Some?
    ensures Rewrite(s, m) == s <==> Read(s) == Some(m)
  {
    hide Locate, Rewrite;
    var v := Locate(s).value;
    RewriteShape(s, m);
    var close := IndexByte(s, '"', v + 1);
    if close == -1 {
      assert |Kept(s)| == |s| - (v + 1);
    } else {
      assert Kept(s) == s[close + 1..];
      RestoredIff(s, v + 1, close, m);
    }
  }

  lemma HeadIsLaidOut(pre: Bytes, space1: Bytes, space2: Bytes)
    requires IndexKey(pre + KEY, 0) == |pre|
    requires AllSpace(space1) && AllSpace(space2)
    ensures var head := pre + KEY + space1 + [':'] + space2 + ['"'];
            Layout(head, |pre|, |pre| + 7 + |space1|, |head| - 1)
  {
    var head := pre + KEY + space1 + [':'] + space2 + ['"'];
    var n, colon := |pre + KEY|, |pre| + 7 + |space1|;
    assert forall k :: 0 <= k < n ==> head[k] == (pre + KEY)[k];
    forall k: nat | k < |pre|
      ensures !KeyAt(head, k)
    {
      assert !KeyAt(pre + KEY, k);
    }
    assert forall k :: |pre| <= k < n ==> head[k] == KEY[k - |pre|] && head[k] != ':';
    assert forall k :: n <= k < colon ==> head[k] == space1[k - n];
    assert forall k :: colon < k < |head| - 1 ==> head[k] == space2[k - colon - 1];
  }

  lemma LocatedAfterHead(head: Bytes, start: nat, colon: nat, rest: Bytes)
    requires head != [] && Layout(head, start, colon, |head| - 1)
    ensures Locate(head + rest) == Some(|head| - 1)
  {
    LayoutIsLocated(head, start, colon, |head| - 1);
    SamePlace(head, head + rest);
  }

  lemma ReplacesAfterHead(head: Bytes, start: nat, colon: nat, value: Bytes, post: Bytes, m: Bytes)
    requires head != [] && Layout(head, start, colon, |head| - 1) && '"' !in value
    ensures Rewrite(head + value + ['"'] + post, m) == head + m + ['"'] + post
  {
    var s := head + value + ['"'] + post;
    LocatedAfterHead(head, start, colon, value + ['"'] + post);
    assert s == head + (value + ['"'] + post);
    RewriteShape(s, m);
    KeptAt(head, value, post);
    assert s[..|head|] == head;
  }

  /** On a body that spells the first "model" as a key with a terminated string
      value, exactly that value is replaced. */
  lemma ReplacesTheField(
      pre: Bytes, space1: Bytes, space2: Bytes, value: Bytes, post: Bytes, m: Bytes)
    requires IndexKey(pre + KEY, 0) == |pre| && '"' !in value
    requires AllSpace(space1) && AllSpace(space2)
    ensures var head := pre + KEY + space1 + [':'] + space2 + ['"'];
            Rewrite(head + value + ['"'] + post, m) == head + m + ['"'] + post
  {
    var head := pre + KEY + space1 + [':'] + space2 + ['"'];
    HeadIsLaidOut(pre, space1, space2);
    ReplacesAfterHead(head, |pre|, |pre| + 7 + |space1|, value, post, m);
  }

  /** When "model" occurs as a value, the value of the next field is replaced,
      although the body has no field of that name. */
  lemma CanReplaceAnotherField(m: Bytes)
    ensures var head := "{\"a\":\"model\",\"b\":\"";
            Rewrite(head + "c" + ['"'] + "}", m) == head + m + ['"'] + "}"
  {
    var head := "{\"a\":\"model\",\"b\":\"";
    assert head[5] == '"' && head[6] == 'm' && head[11] == '"' && head[15] == '"' && head[16] == ':' && head[17] == '"';
    ReplacesAfterHead(head, 5, 16, "c", "}", m);
  }
}
