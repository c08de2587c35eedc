/** The overlap of character trigrams that flags a repeated agent step. */
module Similarity {

  import opened Collections

  type Text = seq<char>

  const MAX_BYTES := 500

  ghost predicate Ascii(s: Text) {
    forall i :: 0 <= i < |s| ==> s[i] < 128 as char
  }

  /** decode stands for the conversion of bytes to runes; it leaves ASCII alone. */
  ghost predicate Decodes(decode: Text -> Text) {
    forall s :: Ascii(s) ==> decode(s) == s
  }

  function Cut(s: Text): Text {
    if |s| > MAX_BYTES then s[..MAX_BYTES] else s
  }

  function Trigram(runes: Text, i: nat): Text
    requires i + 3 <= |runes|
  {
    runes[i..i + 3]
  }

  /** The trigrams that start before position n. */
  function TrigramsBefore(runes: Text, n: nat): set<Text>
    requires n > 0 ==> n + 2 <= |runes|
  {
    set i: nat | i < n :: Trigram(runes, i)
  }

  function TrigramsOf(runes: Text): set<Text> {
    TrigramsBefore(runes, if |runes| < 3 then 0 else |runes| - 2)
  }

  function Smaller(x: nat, y: nat): nat { if y < x then y else x }

  ghost function Overlap(s: set<Text>, t: set<Text>): real {
    if s == {} || t == {} then 0.0 else |s * t| as real / Smaller(|s|, |t|) as real
  }

  ghost function Score(decode: Text -> Text, a: Text, b: Text): real {
    if a == b then 1.0
    else if |a| < 3 || |b| < 3 then 0.0
    else Overlap(TrigramsOf(decode(Cut(a))), TrigramsOf(decode(Cut(b))))
  }

  method BuildTrigrams(runes: Text) returns (out: set<Text>)
    ensures out == TrigramsOf(runes)
  {
    out := {};
    var i := 0;
    while i + 2 < |runes|
      invariant i == 0 || i + 2 <= |runes|
      invariant out == TrigramsBefore(runes, i)
    {
      out := out + {Trigram(runes, i)};
      i := i + 1;
    }
  }

  /** The counting loop, in whatever order the map is iterated. */
  method CountCommon(trigramsA: set<Text>, trigramsB: set<Text>) returns (intersection: nat)
    ensures intersection == |trigramsA * trigramsB|
  {
    var todo := trigramsA;
    intersection := 0;
    while todo != {}
      invariant todo <= trigramsA
      invariant intersection == |(trigramsA - todo) * trigramsB|
      decreases todo
    {
      var k :| k in todo;
      ghost var seen := trigramsA - todo;
      todo := todo - {k};
      assert trigramsA - todo == seen + {k};
      if k in trigramsB {
        assert (seen + {k}) * trigramsB == seen * trigramsB + {k};
        intersection := intersection + 1;
      } else {
        assert (seen + {k}) * trigramsB == seen * trigramsB;
      }
    }
    assert trigramsA - todo == trigramsA;
  }

  method StringSimilarity(decode: Text -> Text, a: Text, b: Text) returns (r: real)
    ensures r == Score(decode, a, b)
  {
    if a == b {
      return 1.0;
    }
    if |a| < 3 || |b| < 3 {
      return 0.0;
    }
    var a', b' := a, b;
    if |a'| > MAX_BYTES {
      a' := a'[..MAX_BYTES];
    }
    if |b'| > MAX_BYTES {
      b' := b'[..MAX_BYTES];
    }
    var trigramsA := BuildTrigrams(decode(a'));
    var trigramsB := BuildTrigrams(decode(b'));
    if |trigramsA| == 0 || |trigramsB| == 0 {
      return 0.0;
    }
    var intersection := CountCommon(trigramsA, trigramsB);
    var smaller := |trigramsA|;
    if |trigramsB| < smaller {
      smaller := |trigramsB|;
    }
    return intersection as real / smaller as real;
  }

  // ---- Laws ----------------------------------------------------------------

  lemma {:induction false} SubsetSize(s: set<Text>, t: set<Text>)
    requires s <= t
    ensures |s| <= |t| && (|s| == |t| ==> s == t)
    decreases |s|
  {
    if s != {} {
      var x :| x in s;
      SubsetSize(s - {x}, t - {x});
      assert s == s - {x} + {x} && t == t - {x} + {x};
    } else {
      assert |t| == 0 ==> t == {};
    }
  }

  /** The overlap is one exactly when one set contains the other. */
  lemma OverlapLaws(s: set<Text>, t: set<Text>)
    ensures Overlap(s, t) == Overlap(t, s) && 0.0 <= Overlap(s, t) <= 1.0
    ensures Overlap(s, t) == 1.0 <==> s != {} && t != {} && (s <= t || t <= s)
    ensures s != {} && |s| <= |t| ==> Overlap(s, t) * |s| as real == |s * t| as real
  {
    assert s * t == t * s;
    SubsetSize(s * t, s);
    SubsetSize(s * t, t);
    if s != {} && t != {} {
      Share(|s * t|, Smaller(|s|, |t|));
      assert s <= t ==> s * t == s;
      assert t <= s ==> s * t == t;
      SubsetSize(if s <= t then s else s * t, t);
      SubsetSize(if t <= s then t else s * t, s);
    }
  }

  lemma ScoreLaws(decode: Text -> Text, a: Text, b: Text)
    ensures Score(decode, a, b) == Score(decode, b, a) && 0.0 <= Score(decode, a, b) <= 1.0
  {
    OverlapLaws(TrigramsOf(decode(Cut(a))), TrigramsOf(decode(Cut(b))));
  }

  lemma PartHasFewerTrigrams(whole: Text, k: nat, part: Text)
    requires k + |part| <= |whole| && part == whole[k..k + |part|]
    ensures TrigramsOf(part) <= TrigramsOf(whole)
  {
    forall t | t in TrigramsOf(part)
      ensures t in TrigramsOf(whole)
    {
      var i: nat :| i < |part| - 2 && t == Trigram(part, i);
      assert part[i] == whole[k + i] && part[i + 1] == whole[k + i + 1] && part[i + 2] == whole[k + i + 2];
      assert t == Trigram(whole, k + i);
    }
  }

  /** A step that repeats a stretch of the previous one, in either direction, scores
      one: ASCII texts of 3 to 500 characters. */
  lemma PartScoresOne(decode: Text -> Text, whole: Text, k: nat, part: Text)
    requires Decodes(decode) && Ascii(whole) && 3 <= |part| && |whole| <= MAX_BYTES
    requires k + |part| <= |whole| && part == whole[k..k + |part|]
    ensures Score(decode, whole, part) == 1.0 && Score(decode, part, whole) == 1.0
  {
    assert Ascii(part);
    PartHasFewerTrigrams(whole, k, part);
    assert Trigram(part, 0) in TrigramsOf(part) && Trigram(whole, 0) in TrigramsOf(whole);
    OverlapLaws(TrigramsOf(whole), TrigramsOf(part));
  }

  function First500(s: Text): Text {
    s[..if |s| < 500 then |s| else 500]
  }

  /** Different texts score zero exactly when one has fewer than three bytes or they
      share no trigram in their first 500 bytes. */
  lemma ZeroIff(decode: Text -> Text, a: Text, b: Text)
    requires a != b
    ensures Score(decode, a, b) == 0.0
       <==> |a| < 3 || |b| < 3 || TrigramsOf(decode(First500(a))) !! TrigramsOf(decode(First500(b)))
  {
    assert First500(a) == Cut(a) && First500(b) == Cut(b);
    var s, t := TrigramsOf(decode(Cut(a))), TrigramsOf(decode(Cut(b)));
    if s != {} && t != {} {
      SubsetSize(s * t, s);
      SubsetSize(s * t, t);
      Share(|s * t|, Smaller(|s|, |t|));
      if s * t == {} {
        assert forall x :: x in s && x in t ==> x in s * t;
      }
    }
  }
}
