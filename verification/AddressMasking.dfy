/** The last pattern of the masker, IPv4 addresses, written out: what it matches,
    what a left-to-right search finds, and that nothing it matches survives. */
module AddressMasking {

  import opened Masking

  const PLACEHOLDER: Text := "[IP_ADDRESS]"
  const OCTETS: nat := 4

  predicate IsDigit(c: char) { '0' <= c <= '9' }

  /** A word character of the expression syntax. */
  predicate IsWord(c: char) { IsDigit(c) || 'A' <= c <= 'Z' || 'a' <= c <= 'z' || c == '_' }

  ghost predicate AllDigits(t: Text) {
    forall k :: 0 <= k < |t| ==> IsDigit(t[k])
  }

  /** 25[0-5], 2[0-4]\d, or [01]?\d\d? */
  predicate Octet(t: Text) {
    || (|t| == 3 && t[0] == '2' && t[1] == '5' && '0' <= t[2] <= '5')
    || (|t| == 3 && t[0] == '2' && '0' <= t[1] <= '4' && IsDigit(t[2]))
    || (|t| == 3 && (t[0] == '0' || t[0] == '1') && IsDigit(t[1]) && IsDigit(t[2]))
    || (|t| == 2 && IsDigit(t[0]) && IsDigit(t[1]))
    || (|t| == 1 && IsDigit(t[0]))
  }

  /** n octets with dots between them. */
  predicate Dotted(t: Text, n: nat)
    decreases n, 1
  {
    if n <= 1 then Octet(t) else exists k :: 0 <= k < |t| && FirstOctetEnds(t, n, k)
  }

  /** The first of n > 1 octets is followed by the dot at position k. */
  predicate FirstOctetEnds(t: Text, n: nat, k: nat)
    requires n > 1 && k < |t|
    decreases n, 0
  {
    Octet(t[..k]) && t[k] == '.' && Dotted(t[k + 1..], n - 1)
  }

  predicate WordAt(text: Text, i: int) {
    0 <= i < |text| && IsWord(text[i])
  }

  /** \b at position i. */
  predicate Boundary(text: Text, i: int) {
    WordAt(text, i - 1) != WordAt(text, i)
  }

  predicate AddressAt(text: Text, lo: nat, hi: nat) {
    lo < hi <= |text| && Boundary(text, lo) && Boundary(text, hi) && Dotted(text[lo..hi], OCTETS)
  }

  // ---- Octets --------------------------------------------------------------

  function DigitValue(c: char): nat
    requires IsDigit(c)
  {
    c as int - '0' as int
  }

  function Value(t: Text): nat
    requires AllDigits(t)
  {
    if t == [] then 0 else 10 * Value(t[..|t| - 1]) + DigitValue(t[|t| - 1])
  }

  lemma ThreeDigits(t: Text)
    requires AllDigits(t) && |t| == 3
    ensures Value(t) == 100 * DigitValue(t[0]) + 10 * DigitValue(t[1]) + DigitValue(t[2])
  {
    var u := t[..2];
    var v := u[..1];
    assert v[..0] == [] && Value(v) == DigitValue(t[0]);
    assert Value(u) == 10 * Value(v) + DigitValue(t[1]);
  }

  /** An octet is one to three digits, leading zeros allowed, of value at most 255. */
  lemma OctetIsByte(t: Text)
    requires AllDigits(t)
    ensures Octet(t) <==> 1 <= |t| <= 3 && Value(t) <= 255
  {
    if |t| == 3 {
      ThreeDigits(t);
      var a, b, c := DigitValue(t[0]), DigitValue(t[1]), DigitValue(t[2]);
      assert (t[0] == '0' <==> a == 0) && (t[0] == '1' <==> a == 1) && (t[0] == '2' <==> a == 2);
      assert ('0' <= t[1] <= '4' <==> b <= 4) && (t[1] == '5' <==> b == 5) && ('0' <= t[2] <= '5' <==> c <= 5);
    } else if |t| == 2 {
      assert t[..1][..0] == [] && Value(t[..1]) == DigitValue(t[0]);
    }
  }

  ghost predicate DigitsAndDots(t: Text) {
    forall i :: 0 <= i < |t| ==> IsDigit(t[i]) || t[i] == '.'
  }

  lemma OctetThenDot(front: Text, back: Text, t: Text)
    requires Octet(front) && DigitsAndDots(back) && back != [] && t == front + ['.'] + back
    ensures DigitsAndDots(t) && t[0] == front[0] && t[|t| - 1] == back[|back| - 1]
  {
    assert DigitsAndDots(front + ['.']);
  }

  /** Digits and dots only, starting and ending with a digit. */
  lemma {:induction false} DottedChars(t: Text, n: nat)
    requires Dotted(t, n)
    ensures t != [] && IsDigit(t[0]) && IsDigit(t[|t| - 1]) && DigitsAndDots(t)
    decreases n
  {
    if n <= 1 {
    } else {
      var k :| 0 <= k < |t| && FirstOctetEnds(t, n, k);
      DottedChars(t[k + 1..], n - 1);
      OctetThenDot(t[..k], t[k + 1..], t);
    }
  }

  lemma SameFirstDot(t: Text, h: nat, k: nat, j: nat)
    requires h <= |t| && k < |t| && j < h && Octet(t[..k]) && Octet(t[..j]) && t[k] == '.' && t[j] == '.'
    ensures j == k
  {
    assert forall i :: 0 <= i < k ==> t[..k][i] != '.';
    assert forall i :: 0 <= i < j ==> t[..j][i] != '.';
  }

  lemma FirstDot(t: Text, h: nat, n: nat) returns (j: nat)
    requires h <= |t| && n > 1 && Dotted(t[..h], n)
    ensures j < h && Octet(t[..j]) && t[j] == '.' && Dotted(t[j + 1..][..h - j - 1], n - 1)
  {
    var s := t[..h];
    var i :| 0 <= i < |s| && FirstOctetEnds(s, n, i);
    j := i;
    assert s[..j] == t[..j] && s[j + 1..] == t[j + 1..][..h - j - 1];
  }

  /** A longer match with the same start goes on with a digit, so the boundary
      fixes where a match ends. */
  lemma {:induction false} LongerGoesOnWithDigit(t: Text, h: nat, n: nat)
    requires h < |t| && Dotted(t, n) && Dotted(t[..h], n)
    ensures IsDigit(t[h])
    decreases n
  {
    if n <= 1 {
    } else {
      var k :| 0 <= k < |t| && FirstOctetEnds(t, n, k);
      var j := FirstDot(t, h, n);
      SameFirstDot(t, h, k, j);
      LongerGoesOnWithDigit(t[k + 1..], h - k - 1, n - 1);
    }
  }

  lemma EndsFirst(text: Text, lo: nat, h1: nat, h2: nat)
    requires AddressAt(text, lo, h1) && AddressAt(text, lo, h2)
    ensures h2 <= h1
  {
    hide Dotted;
    if h1 < h2 {
      var t := text[lo..h2];
      assert t[..h1 - lo] == text[lo..h1];
      LongerGoesOnWithDigit(t, h1 - lo, OCTETS);
      DottedChars(text[lo..h1], OCTETS);
    }
  }

  lemma EndIsUnique(text: Text, lo: nat, h1: nat, h2: nat)
    requires AddressAt(text, lo, h1) && AddressAt(text, lo, h2)
    ensures h1 == h2
  {
    if h1 < h2 {
      EndsFirst(text, lo, h1, h2);
    } else if h2 < h1 {
      EndsFirst(text, lo, h2, h1);
    }
  }

  // ---- The search ----------------------------------------------------------

  /** The end of the match that starts at lo, tried from hi on. */
  function EndFrom(text: Text, lo: nat, hi: nat): (end: nat)
    ensures end <= |text| ==> AddressAt(text, lo, end)
    ensures end > |text| ==> forall h :: h >= hi ==> !AddressAt(text, lo, h)
    decreases |text| - hi
  {
    if hi > |text| then |text| + 1
    else if AddressAt(text, lo, hi) then hi
    else EndFrom(text, lo, hi + 1)
  }

  /** All matches from position from on: the leftmost, then those after its end. */
  function FindAddresses(text: Text, from: nat): seq<Span>
    decreases |text| - from
  {
    if from >= |text| then []
    else
      var end := EndFrom(text, from, 0);
      if end <= |text| then [Span(from, end)] + FindAddresses(text, end)
      else FindAddresses(text, from + 1)
  }

  lemma {:induction false} FoundAreProper(text: Text, from: nat, start: nat)
    requires start <= from <= |text|
    ensures ProperFrom(text, FindAddresses(text, from), start)
    decreases |text| - from
  {
    hide Dotted;
    if from == |text| {
    } else {
      var end := EndFrom(text, from, 0);
      if end <= |text| {
        FoundAreProper(text, end, end);
      } else {
        FoundAreProper(text, from + 1, start);
      }
    }
  }

  /** The first found span is the leftmost match; none found, none there. */
  lemma {:induction false} FirstIsLeftmost(text: Text, from: nat)
    requires from <= |text|
    ensures var spans := FindAddresses(text, from);
            if spans == [] then forall lo, hi :: lo >= from ==> !AddressAt(text, lo, hi)
            else
              from <= spans[0].lo && AddressAt(text, spans[0].lo, spans[0].hi)
              && spans[1..] == FindAddresses(text, spans[0].hi)
              && forall lo, hi :: from <= lo < spans[0].lo ==> !AddressAt(text, lo, hi)
    decreases |text| - from
  {
    hide Dotted;
    if from == |text| || EndFrom(text, from, 0) <= |text| {
    } else {
      FirstIsLeftmost(text, from + 1);
    }
  }

  // ---- Nothing survives ----------------------------------------------------

  /** What the replacement makes of the text from position from on. */
  function Cleaned(text: Text, from: nat): Text
    requires from <= |text|
  {
    FoundAreProper(text, from, from);
    Replace(text, FindAddresses(text, from), PLACEHOLDER, from)
  }

  lemma CleanedStep(text: Text, from: nat, lo: nat, hi: nat)
    requires from <= |text| && FindAddresses(text, from) != []
    requires FindAddresses(text, from)[0] == Span(lo, hi)
    ensures from <= lo < hi <= |text| && AddressAt(text, lo, hi)
    ensures Cleaned(text, from) == text[from..lo] + PLACEHOLDER + Cleaned(text, hi)
  {
    hide Dotted;
    FirstIsLeftmost(text, from);
    FoundAreProper(text, from, from);
    FoundAreProper(text, hi, hi);
  }

  /** The character before an address, and the one after it, are no word characters. */
  lemma AddressEdges(text: Text, lo: nat, hi: nat)
    requires AddressAt(text, lo, hi)
    ensures WordAt(text, lo) && WordAt(text, hi - 1) && !WordAt(text, lo - 1) && !WordAt(text, hi)
    ensures forall i :: lo <= i < hi ==> IsDigit(text[i]) || text[i] == '.'
  {
    hide Dotted;
    var t := text[lo..hi];
    DottedChars(t, OCTETS);
    assert t[0] == text[lo] && t[|t| - 1] == text[hi - 1];
    forall i | lo <= i < hi
      ensures IsDigit(text[i]) || text[i] == '.'
    {
      assert text[i] == t[i - lo];
    }
  }

  /** An address seen in one text is an address in another that agrees on it and
      has no word characters around it. */
  lemma Transfer(s: Text, lo: nat, hi: nat, t: Text, at: nat)
    requires AddressAt(s, lo, hi) && at + (hi - lo) <= |t| && t[at..at + (hi - lo)] == s[lo..hi]
    requires !WordAt(t, at - 1) && !WordAt(t, at + (hi - lo))
    ensures AddressAt(t, at, at + (hi - lo))
  {
    hide Dotted;
    AddressEdges(s, lo, hi);
    var n := hi - lo;
    assert t[at] == t[at..at + n][0] == s[lo..hi][0] == s[lo];
    assert t[at + n - 1] == t[at..at + n][n - 1] == s[lo..hi][n - 1] == s[hi - 1];
  }

  /** from is the start of the text or the end of a match. */
  ghost predicate Resumes(text: Text, from: nat) {
    from == 0 || (from <= |text| && exists lo: nat :: AddressAt(text, lo, from))
  }

  /** An address that starts where the search resumes would touch a word character. */
  lemma NoWordBefore(text: Text, from: nat)
    requires from <= |text| && Resumes(text, from)
    ensures from > 0 ==> WordAt(text, from - 1) && !WordAt(text, from)
  {
    hide Dotted;
    if from > 0 {
      var lo: nat :| AddressAt(text, lo, from);
      AddressEdges(text, lo, from);
    }
  }

  lemma NoneInLastStretch(text: Text, from: nat, a: nat, b: nat)
    requires from <= |text| && Resumes(text, from) && FindAddresses(text, from) == []
    ensures !AddressAt(text[from..], a, b)
  {
    hide Dotted;
    var s := text[from..];
    if AddressAt(s, a, b) {
      AddressEdges(s, a, b);
      assert forall i :: 0 <= i < |s| ==> s[i] == text[from + i];
      NoWordBefore(text, from);
      assert text[from + a..from + b] == s[a..b];
      Transfer(s, a, b, text, from + a);
      FirstIsLeftmost(text, from);
    }
  }

  lemma NoneInGap(text: Text, from: nat, lo: nat, rest: Text, a: nat, b: nat)
    requires from <= lo <= |text| && Resumes(text, from) && b <= lo - from
    requires WordAt(text, lo) && !WordAt(text, lo - 1)
    requires forall l, h :: from <= l < lo ==> !AddressAt(text, l, h)
    ensures !AddressAt(text[from..lo] + rest, a, b)
  {
    hide Dotted;
    var s := text[from..lo] + rest;
    if AddressAt(s, a, b) {
      AddressEdges(s, a, b);
      assert forall i :: 0 <= i < lo - from ==> s[i] == text[from + i];
      NoWordBefore(text, from);
      assert text[from + a..from + b] == s[a..b];
      Transfer(s, a, b, text, from + a);
    }
  }

  lemma NoneInRest(front: Text, rest: Text, a: nat, b: nat)
    requires front != [] && !IsWord(front[|front| - 1]) && a >= |front|
    requires AddressAt(front + rest, a, b)
    ensures AddressAt(rest, a - |front|, b - |front|)
  {
    hide Dotted;
    var s := front + rest;
    AddressEdges(s, a, b);
    assert forall i :: |front| <= i < |s| ==> s[i] == rest[i - |front|];
    assert rest[a - |front|..b - |front|] == s[a..b];
    Transfer(s, a, b, rest, a - |front|);
  }

  lemma PlaceholderChars()
    ensures |PLACEHOLDER| == 12 && !IsWord(PLACEHOLDER[11])
    ensures forall i :: 0 <= i < 12 ==> !IsDigit(PLACEHOLDER[i]) && PLACEHOLDER[i] != '.'
  {
  }

  lemma NoneAcrossPlaceholder(front: Text, rest: Text, a: nat, b: nat)
    requires AddressAt(front + PLACEHOLDER + rest, a, b)
    ensures b <= |front| || a >= |front| + |PLACEHOLDER|
  {
    hide Dotted;
    PlaceholderChars();
    var s := front + PLACEHOLDER + rest;
    AddressEdges(s, a, b);
    var i := if a < |front| then |front| else a;
    assert |front| <= i < |front| + 12 ==> s[i] == PLACEHOLDER[i - |front|];
  }

  lemma NoneInStep(text: Text, from: nat, lo: nat, rest: Text, a: nat, b: nat)
    requires from <= lo <= |text| && Resumes(text, from)
    requires WordAt(text, lo) && !WordAt(text, lo - 1)
    requires forall l, h :: from <= l < lo ==> !AddressAt(text, l, h)
    requires forall l, h :: !AddressAt(rest, l, h)
    ensures !AddressAt(text[from..lo] + PLACEHOLDER + rest, a, b)
  {
    hide Dotted;
    var gap := text[from..lo];
    if AddressAt(gap + PLACEHOLDER + rest, a, b) {
      NoneAcrossPlaceholder(gap, rest, a, b);
      if b <= |gap| {
        assert gap + PLACEHOLDER + rest == gap + (PLACEHOLDER + rest);
        NoneInGap(text, from, lo, PLACEHOLDER + rest, a, b);
      } else {
        PlaceholderChars();
        NoneInRest(gap + PLACEHOLDER, rest, a, b);
      }
    }
  }

  /** Nothing the pattern matches is left, not even with the word boundaries a
      placeholder makes. */
  lemma {:induction false} CleanedIsClean(text: Text, from: nat, a: nat, b: nat)
    requires from <= |text| && Resumes(text, from)
    ensures !AddressAt(Cleaned(text, from), a, b)
    decreases |text| - from
  {
    hide Dotted;
    var spans := FindAddresses(text, from);
    if spans == [] {
      NoneInLastStretch(text, from, a, b);
    } else {
      var lo, hi := spans[0].lo, spans[0].hi;
      CleanedStep(text, from, lo, hi);
      FirstIsLeftmost(text, from);
      AddressEdges(text, lo, hi);
      forall l, h
        ensures !AddressAt(Cleaned(text, hi), l, h)
      {
        CleanedIsClean(text, hi, l, h);
      }
      NoneInStep(text, from, lo, Cleaned(text, hi), a, b);
    }
  }

  /** The pattern as the masker has it. */
  function AddressPattern(): Pattern {
    Pattern("IP_ADDRESS", text => FindAddresses(text, 0), PLACEHOLDER)
  }

  lemma AddressPatternFinds()
    ensures Finds(AddressPattern())
  {
    forall text
      ensures ProperFrom(text, AddressPattern().find(text), 0)
    {
      FoundAreProper(text, 0, 0);
    }
  }

  /** Whatever the patterns before it, when this pattern comes last no address is
      left in the masked text. */
  lemma NoAddressSurvives(patterns: seq<Pattern>, text: Text, lo: nat, hi: nat)
    requires ValidPatterns(patterns + [AddressPattern()])
    ensures !AddressAt(Masked(patterns + [AddressPattern()], text).masked, lo, hi)
  {
    var all := patterns + [AddressPattern()];
    assert all[..|all| - 1] == patterns;
    assert forall i :: 0 <= i < |patterns| ==> patterns[i] == all[i];
    var before := Masked(all[..|all| - 1], text).masked;
    CleanedIsClean(before, 0, lo, hi);
  }

  /** The pattern may come after any others that do not have its name, and then leaves
      no address in any text. */
  lemma LastPatternCleans(patterns: seq<Pattern>)
    requires ValidPatterns(patterns) && forall i :: 0 <= i < |patterns| ==> patterns[i].name != "IP_ADDRESS"
    ensures ValidPatterns(patterns + [AddressPattern()])
    ensures forall text, lo, hi :: !AddressAt(Masked(patterns + [AddressPattern()], text).masked, lo, hi)
  {
    hide Finds, AddressAt, Masked;
    AddressPatternFinds();
    forall text, lo, hi
      ensures !AddressAt(Masked(patterns + [AddressPattern()], text).masked, lo, hi)
    {
      NoAddressSurvives(patterns, text, lo, hi);
    }
  }

  // ---- What an address is --------------------------------------------------

  ghost predicate FourOctets(t: Text) {
    exists a, b, c, d ::
      Octet(a) && Octet(b) && Octet(c) && Octet(d) && t == a + "." + (b + "." + (c + "." + d))
  }

  lemma DottedTail(t: Text, n: nat) returns (front: Text, rest: Text)
    requires n > 1 && Dotted(t, n)
    ensures Octet(front) && Dotted(rest, n - 1) && t == front + "." + rest
  {
    var k :| 0 <= k < |t| && FirstOctetEnds(t, n, k);
    front, rest := t[..k], t[k + 1..];
  }

  lemma DottedFromTail(front: Text, rest: Text, n: nat)
    requires n > 1 && Octet(front) && Dotted(rest, n - 1)
    ensures Dotted(front + "." + rest, n)
  {
    var t := front + "." + rest;
    assert t[..|front|] == front && t[|front| + 1..] == rest;
    assert FirstOctetEnds(t, n, |front|);
  }

  lemma LastOctet(t: Text)
    ensures Dotted(t, 1) <==> Octet(t)
  {
  }

  lemma FourFromDotted(t: Text)
    requires Dotted(t, OCTETS)
    ensures FourOctets(t)
  {
    hide Octet, Dotted;
    var a, t1 := DottedTail(t, OCTETS);
    var b, t2 := DottedTail(t1, 3);
    var c, d := DottedTail(t2, 2);
    LastOctet(d);
    assert t == a + "." + (b + "." + (c + "." + d));
  }

  lemma DottedFromFour(t: Text)
    requires FourOctets(t)
    ensures Dotted(t, OCTETS)
  {
    hide Octet, Dotted;
    var a, b, c, d :|
      Octet(a) && Octet(b) && Octet(c) && Octet(d) && t == a + "." + (b + "." + (c + "." + d));
    LastOctet(d);
    DottedFromTail(c, d, 2);
    DottedFromTail(b, c + "." + d, 3);
    DottedFromTail(a, b + "." + (c + "." + d), OCTETS);
  }

  /** An address is four octets with dots between them, and no word character right
      before or after it. */
  lemma AddressIsFourOctets(text: Text, lo: nat, hi: nat)
    ensures AddressAt(text, lo, hi)
       <==> lo < hi <= |text| && FourOctets(text[lo..hi]) && !WordAt(text, lo - 1) && !WordAt(text, hi)
  {
    hide Dotted, FourOctets, Octet;
    if AddressAt(text, lo, hi) {
      AddressEdges(text, lo, hi);
      FourFromDotted(text[lo..hi]);
    }
    if lo < hi <= |text| && FourOctets(text[lo..hi]) && !WordAt(text, lo - 1) && !WordAt(text, hi) {
      DottedFromFour(text[lo..hi]);
      DottedChars(text[lo..hi], OCTETS);
      assert text[lo..hi][0] == text[lo] && text[lo..hi][hi - lo - 1] == text[hi - 1];
    }
  }

  /** A letter, a digit or an underscore right before or after it makes it no address;
      anything else does not. */
  lemma WordCharacters(c: char)
    ensures IsWord(c) <==> var code := c as int; 48 <= code <= 57 || 65 <= code <= 90 || code == 95 || 97 <= code <= 122
  {
  }
}
