/** The agreement score of the cross-model verifier: the two-row Levenshtein
    computation, the edit sequences it stands for, and the ratio built on it. */
module EditDistance {

  import opened Collections

  type Text = seq<char>

  /** The rune cap of the ratio. */
  const MAX_RUNES: nat := 1000

  // ---- The meaning: sequences of single-character edits --------------------

  ghost predicate Deletes(x: Text, y: Text, i: nat) {
    i < |x| && y == x[..i] + x[i + 1..]
  }

  ghost predicate Substitutes(x: Text, y: Text, i: nat) {
    i < |x| && |y| == |x| && y == x[i := y[i]]
  }

  /** y is x with one character deleted, inserted or replaced, anywhere. */
  ghost predicate OneEdit(x: Text, y: Text) {
    || (exists i: nat :: Deletes(x, y, i))
    || (exists i: nat :: Deletes(y, x, i))
    || (exists i: nat :: Substitutes(x, y, i))
  }

  /** A sequence of texts from a to b, each one edit away from the previous. */
  ghost predicate IsEditSequence(p: seq<Text>, a: Text, b: Text) {
    && |p| > 0 && p[0] == a && p[|p| - 1] == b
    && forall i :: 0 <= i < |p| - 1 ==> OneEdit(p[i], p[i + 1])
  }

  /** d edits turn a into b, and no fewer do. */
  ghost predicate IsEditDistance(a: Text, b: Text, d: nat) {
    && (exists p :: IsEditSequence(p, a, b) && |p| == d + 1)
    && (forall p :: IsEditSequence(p, a, b) ==> |p| >= d + 1)
  }

  // ---- The recurrence, with a true minimum in every cell -------------------

  function Min(x: nat, y: nat): nat { if x <= y then x else y }

  function Max(x: nat, y: nat): nat { if x <= y then y else x }

  function Mismatch(c: char, d: char): nat { if c == d then 0 else 1 }

  function Init(s: Text): Text
    requires s != []
  {
    s[..|s| - 1]
  }

  function Last(s: Text): char
    requires s != []
  {
    s[|s| - 1]
  }

  function Dist(a: Text, b: Text): nat
    decreases |a| + |b|
  {
    if a == [] then |b|
    else if b == [] then |a|
    else
      Min(Dist(Init(a), Init(b)) + Mismatch(Last(a), Last(b)),
          Min(Dist(Init(a), b) + 1, Dist(a, Init(b)) + 1))
  }

  // ---- Metric laws ---------------------------------------------------------

  lemma {:induction false} LengthBounds(a: Text, b: Text)
    ensures |a| <= |b| + Dist(a, b) && |b| <= |a| + Dist(a, b)
    ensures Dist(a, b) <= Max(|a|, |b|)
    decreases |a| + |b|
  {
    if a == [] || b == [] {
    } else {
      LengthBounds(Init(a), Init(b));
      LengthBounds(Init(a), b);
      LengthBounds(a, Init(b));
    }
  }

  lemma {:induction false} Symmetry(a: Text, b: Text)
    ensures Dist(a, b) == Dist(b, a)
    decreases |a| + |b|
  {
    if a == [] || b == [] {
    } else {
      Symmetry(Init(a), Init(b));
      Symmetry(Init(a), b);
      Symmetry(a, Init(b));
    }
  }

  lemma {:induction false} ZeroIffEqual(a: Text, b: Text)
    ensures Dist(a, b) == 0 <==> a == b
    decreases |a| + |b|
  {
    if a == [] || b == [] {
    } else {
      ZeroIffEqual(Init(a), Init(b));
      assert a == Init(a) + [Last(a)] && b == Init(b) + [Last(b)];
    }
  }

  lemma {:induction false} Triangle(a: Text, b: Text, c: Text)
    ensures Dist(a, c) <= Dist(a, b) + Dist(b, c)
    decreases |a| + |b| + |c|
  {
    LengthBounds(a, b);
    LengthBounds(b, c);
    LengthBounds(a, c);
    if a == [] || b == [] || c == [] {
    } else {
      Triangle(Init(a), b, c);
      Triangle(a, b, Init(c));
      Triangle(a, Init(b), c);
      Triangle(a, Init(b), Init(c));
      Triangle(Init(a), Init(b), c);
      Triangle(Init(a), Init(b), Init(c));
    }
  }

  // ---- The recurrence is the edit distance ---------------------------------

  lemma {:induction false} CommonSuffix(x: Text, y: Text, s: Text)
    ensures Dist(x + s, y + s) <= Dist(x, y)
    decreases |s|
  {
    if s == [] {
      assert x + s == x && y + s == y;
    } else {
      assert Init(x + s) == x + Init(s) && Init(y + s) == y + Init(s);
      CommonSuffix(x, y, Init(s));
    }
  }

  lemma DropOne(u: Text, c: char, s: Text)
    ensures Dist(u + [c] + s, u + s) <= 1
  {
    CommonSuffix(u + [c], u, s);
    ZeroIffEqual(u, u);
    assert Init(u + [c]) == u;
  }

  lemma DeleteCostsOne(x: Text, y: Text, i: nat)
    requires Deletes(x, y, i)
    ensures Dist(x, y) <= 1
  {
    DropOne(x[..i], x[i], x[i + 1..]);
    assert x == x[..i] + [x[i]] + x[i + 1..];
  }

  lemma OneEditCostsOne(x: Text, y: Text)
    requires OneEdit(x, y)
    ensures Dist(x, y) <= 1
  {
    if i: nat :| Deletes(x, y, i) {
      DeleteCostsOne(x, y, i);
    } else if i: nat :| Deletes(y, x, i) {
      DeleteCostsOne(y, x, i);
      Symmetry(x, y);
    } else {
      var i: nat :| Substitutes(x, y, i);
      var u, s := x[..i], x[i + 1..];
      assert x == u + [x[i]] + s && y == u + [y[i]] + s;
      CommonSuffix(u + [x[i]], u + [y[i]], s);
      ZeroIffEqual(u, u);
      assert Init(u + [x[i]]) == u && Init(u + [y[i]]) == u;
    }
  }

  lemma {:induction false} NoShorterSequence(p: seq<Text>, a: Text, b: Text)
    requires IsEditSequence(p, a, b)
    ensures Dist(a, b) + 1 <= |p|
    decreases |p|
  {
    if |p| == 1 {
      ZeroIffEqual(a, b);
    } else {
      OneEditCostsOne(p[0], p[1]);
      NoShorterSequence(p[1..], p[1], b);
      Triangle(a, p[1], b);
    }
  }

  lemma AppendToBoth(x: Text, y: Text, c: char)
    requires OneEdit(x, y)
    ensures OneEdit(x + [c], y + [c])
  {
    if i: nat :| Deletes(x, y, i) {
      assert Deletes(x + [c], y + [c], i);
    } else if i: nat :| Deletes(y, x, i) {
      assert Deletes(y + [c], x + [c], i);
    } else {
      var i: nat :| Substitutes(x, y, i);
      assert Substitutes(x + [c], y + [c], i);
    }
  }

  lemma AppendToSequence(p: seq<Text>, a: Text, b: Text, c: char) returns (q: seq<Text>)
    requires IsEditSequence(p, a, b)
    ensures IsEditSequence(q, a + [c], b + [c]) && |q| == |p|
  {
    q := seq(|p|, i requires 0 <= i < |p| => p[i] + [c]);
    forall i | 0 <= i < |q| - 1
      ensures OneEdit(q[i], q[i + 1])
    {
      AppendToBoth(p[i], p[i + 1], c);
    }
  }

  lemma PrependEdit(x: Text, p: seq<Text>, a: Text, b: Text)
    requires IsEditSequence(p, a, b) && OneEdit(x, a)
    ensures IsEditSequence([x] + p, x, b)
  {
    var q := [x] + p;
    forall i | 0 <= i < |q| - 1
      ensures OneEdit(q[i], q[i + 1])
    {
      if i > 0 {
        assert q[i] == p[i - 1] && q[i + 1] == p[i];
      }
    }
  }

  lemma AppendEdit(p: seq<Text>, a: Text, b: Text, y: Text)
    requires IsEditSequence(p, a, b) && OneEdit(b, y)
    ensures IsEditSequence(p + [y], a, y)
  {
  }

  lemma {:induction false} ShortestSequence(a: Text, b: Text) returns (p: seq<Text>)
    ensures IsEditSequence(p, a, b) && |p| == Dist(a, b) + 1
    decreases |a| + |b|, 1
  {
    if a == [] && b == [] {
      p := [a];
    } else if b == [] || (a != [] && Dist(a, b) == Dist(Init(a), b) + 1) {
      p := ShortestSequence(Init(a), b);
      assert Deletes(a, Init(a), |a| - 1);
      PrependEdit(a, p, Init(a), b);
      p := [a] + p;
    } else if a == [] || Dist(a, b) == Dist(a, Init(b)) + 1 {
      p := ShortestSequence(a, Init(b));
      assert Deletes(b, Init(b), |b| - 1);
      AppendEdit(p, a, Init(b), b);
      p := p + [b];
    } else {
      p := ShortestByLastColumn(a, b);
    }
  }

  lemma {:induction false} ShortestByLastColumn(a: Text, b: Text) returns (p: seq<Text>)
    requires a != [] && b != []
    requires Dist(a, b) == Dist(Init(a), Init(b)) + Mismatch(Last(a), Last(b))
    ensures IsEditSequence(p, a, b) && |p| == Dist(a, b) + 1
    decreases |a| + |b|, 0
  {
    p := ShortestSequence(Init(a), Init(b));
    p := AppendToSequence(p, Init(a), Init(b), Last(a));
    assert a == Init(a) + [Last(a)] && b == Init(b) + [Last(b)];
    if Last(a) != Last(b) {
      assert Substitutes(Init(b) + [Last(a)], b, |b| - 1);
      AppendEdit(p, a, Init(b) + [Last(a)], b);
      p := p + [b];
    }
  }

  /** The recurrence is exactly the length of a shortest edit sequence. */
  lemma DistIsEditDistance(a: Text, b: Text)
    ensures IsEditDistance(a, b, Dist(a, b))
  {
    var p := ShortestSequence(a, b);
    forall q | IsEditSequence(q, a, b)
      ensures |q| >= Dist(a, b) + 1
    {
      NoShorterSequence(q, a, b);
    }
  }

  // ---- The two-row computation ---------------------------------------------

  lemma {:induction false} Recurrence(a: Text, b: Text)
    requires a != [] && b != [] && Last(a) == Last(b)
    ensures Dist(a, b) == Min(Dist(Init(a), Init(b)), Min(Dist(Init(a), b) + 1, Dist(a, Init(b)) + 1))
  {
  }

  lemma {:induction false} DropLast(a: Text)
    requires a != []
    ensures Dist(a, Init(a)) <= 1 && Dist(Init(a), a) <= 1
  {
    hide Dist;
    DeleteCostsOne(a, Init(a), |a| - 1);
    Symmetry(a, Init(a));
  }

  /** Neighbouring cells differ by at most one, which is why a match may take
      the diagonal without comparing it with the other two neighbours. */
  lemma {:induction false} MatchTakesDiagonal(a: Text, b: Text)
    requires a != [] && b != [] && Last(a) == Last(b)
    ensures Dist(a, b) == Dist(Init(a), Init(b))
  {
    hide Dist, Init;
    Recurrence(a, b);
    DropLast(a);
    DropLast(b);
    Triangle(Init(a), b, Init(b));
    Triangle(Init(a), a, Init(b));
  }

  /** The cell of row i and column j. */
  ghost function Cell(a: Text, b: Text, i: nat, j: nat): nat
    requires i <= |a| && j <= |b|
  {
    Dist(a[..i], b[..j])
  }

  function MinOf3(a: nat, b: nat, c: nat): (m: nat)
    ensures m <= a && m <= b && m <= c && (m == a || m == b || m == c)
  {
    if a <= b && a <= c then a else if b <= c then b else c
  }

  lemma CellStep(a: Text, b: Text, i: nat, j: nat)
    requires 1 <= i <= |a| && 1 <= j <= |b|
    ensures a[i - 1] == b[j - 1] ==> Cell(a, b, i, j) == Cell(a, b, i - 1, j - 1)
    ensures a[i - 1] != b[j - 1] ==>
              Cell(a, b, i, j) == 1 + MinOf3(Cell(a, b, i - 1, j - 1), Cell(a, b, i - 1, j), Cell(a, b, i, j - 1))
  {
    var x, y := a[..i], b[..j];
    assert Init(x) == a[..i - 1] && Init(y) == b[..j - 1];
    if Last(x) == Last(y) {
      MatchTakesDiagonal(x, y);
    }
  }

  method LevenshteinDist(a: Text, b: Text) returns (d: nat)
    ensures IsEditDistance(a, b, d)
    ensures d == Dist(a, b)
  {
    var la, lb := |a|, |b|;
    var prev := new nat[lb + 1];
    var curr := new nat[lb + 1];
    for j := 0 to lb + 1
      invariant forall k :: 0 <= k < j ==> prev[k] == k
    {
      prev[j] := j;
    }
    forall j | 0 <= j <= lb
      ensures prev[j] == Cell(a, b, 0, j)
    {
      assert |b[..j]| == j;
    }
    for i := 1 to la + 1
      invariant prev != curr && prev.Length == curr.Length == lb + 1
      invariant fresh(prev) && fresh(curr)
      invariant forall j :: 0 <= j <= lb ==> prev[j] == Cell(a, b, i - 1, j)
    {
      curr[0] := i;
      assert curr[0] == Cell(a, b, i, 0);
      for j := 1 to lb + 1
        invariant forall k :: 0 <= k <= lb ==> prev[k] == Cell(a, b, i - 1, k)
        invariant forall k :: 0 <= k < j ==> curr[k] == Cell(a, b, i, k)
      {
        CellStep(a, b, i, j);
        if a[i - 1] == b[j - 1] {
          curr[j] := prev[j - 1];
        } else {
          curr[j] := 1 + MinOf3(prev[j - 1], prev[j], curr[j - 1]);
        }
      }
      prev, curr := curr, prev;
    }
    d := prev[lb];
    assert a[..la] == a && b[..lb] == b;
    DistIsEditDistance(a, b);
  }

  // ---- The ratio -----------------------------------------------------------

  function Cut(s: Text): Text {
    if |s| > MAX_RUNES then s[..MAX_RUNES] else s
  }

  function First1000(s: Text): Text {
    s[..Min(|s|, 1000)]
  }

  /** One minus the share of the longer text that has to be edited. */
  ghost function Ratio(a: Text, b: Text): real {
    var n := Max(|Cut(a)|, |Cut(b)|);
    if n == 0 then 1.0 else 1.0 - Dist(Cut(a), Cut(b)) as real / n as real
  }

  method LevenshteinRatio(a: Text, b: Text) returns (r: real)
    ensures r == Ratio(a, b)
  {
    var ra, rb := a, b;
    if |ra| > MAX_RUNES {
      ra := ra[..MAX_RUNES];
    }
    if |rb| > MAX_RUNES {
      rb := rb[..MAX_RUNES];
    }
    var la, lb := |ra|, |rb|;
    if la == 0 && lb == 0 {
      return 1.0;
    }
    if la == 0 || lb == 0 {
      LengthBounds(ra, rb);
      return 0.0;
    }
    var dist := LevenshteinDist(ra, rb);
    var maxLen := la;
    if lb > maxLen {
      maxLen := lb;
    }
    return 1.0 - dist as real / maxLen as real;
  }

  lemma {:induction false} RatioLaws(a: Text, b: Text)
    ensures 0.0 <= Ratio(a, b) <= 1.0
    ensures Ratio(a, b) == Ratio(b, a)
    ensures Ratio(a, b) == 1.0 <==> First1000(a) == First1000(b)
    ensures (1.0 - Ratio(a, b)) * Max(|First1000(a)|, |First1000(b)|) as real
         == Dist(First1000(a), First1000(b)) as real
  {
    hide Dist;
    assert First1000(a) == Cut(a) && First1000(b) == Cut(b);
    Symmetry(Cut(a), Cut(b));
    LengthBounds(Cut(a), Cut(b));
    ZeroIffEqual(Cut(a), Cut(b));
    var n := Max(|Cut(a)|, |Cut(b)|);
    if n > 0 {
      Share(Dist(Cut(a), Cut(b)), n);
    }
  }
}
