/** What several components need of options, sums over sequences and finite sets. */
module Collections {

  datatype Option<T> = None | Some(value: T)

  /** The weights of the items, each at its position, added up. */
  ghost function Sum<T>(items: seq<T>, weight: (T, nat) -> nat): nat {
    if items == [] then 0
    else Sum(items[..|items| - 1], weight) + weight(items[|items| - 1], |items| - 1)
  }

  lemma {:induction false} SumUpdate<T>(items: seq<T>, weight: (T, nat) -> nat, i: nat, x: T)
    requires i < |items|
    ensures Sum(items[i := x], weight) + weight(items[i], i) == Sum(items, weight) + weight(x, i)
    decreases |items|
  {
    var n := |items| - 1;
    if i == n {
      assert items[i := x][..n] == items[..n];
    } else {
      assert items[i := x][..n] == items[..n][i := x];
      SumUpdate(items[..n], weight, i, x);
    }
  }

  lemma {:induction false} SumIsZero<T>(items: seq<T>, weight: (T, nat) -> nat)
    requires forall i :: 0 <= i < |items| ==> weight(items[i], i) == 0
    ensures Sum(items, weight) == 0
    decreases |items|
  {
    if items == [] {
    } else {
      SumIsZero(items[..|items| - 1], weight);
    }
  }

  lemma {:induction false} SomeWeight<T>(items: seq<T>, weight: (T, nat) -> nat) returns (i: nat)
    requires Sum(items, weight) > 0
    ensures i < |items| && weight(items[i], i) > 0
    decreases |items|
  {
    var n := |items| - 1;
    if weight(items[n], n) > 0 {
      i := n;
    } else {
      i := SomeWeight(items[..n], weight);
    }
  }

  lemma {:induction false} SumOfEqual<T>(items: seq<T>, weight: (T, nat) -> nat, each: nat)
    requires forall i :: 0 <= i < |items| ==> weight(items[i], i) == each
    ensures Sum(items, weight) == |items| * each
    decreases |items|
  {
    if items == [] {
    } else {
      SumOfEqual(items[..|items| - 1], weight, each);
    }
  }

  lemma Assoc<T>(a: seq<T>, b: seq<T>, c: seq<T>)
    ensures a + b + c == a + (b + c)
  {
  }

  lemma {:induction false} SubsetOfRange(s: set<nat>, n: nat)
    requires forall x :: x in s ==> x < n
    ensures |s| <= n
    decreases n
  {
    if n == 0 {
      assert s == {};
    } else {
      SubsetOfRange(s - {n - 1}, n - 1);
    }
  }

  lemma SignOfProduct(a: real, b: real)
    requires b > 0.0
    ensures (a > 0.0 <==> a * b > 0.0) && (a == 0.0 <==> a * b == 0.0)
  {
  }

  lemma QuotientOf(x: real, y: real, q: real)
    requires 0.0 <= x <= y && y > 0.0 && q * y == x
    ensures 0.0 <= q <= 1.0 && (q == 0.0 <==> x == 0.0) && (q == 1.0 <==> x == y)
  {
    assert (1.0 - q) * y == y - q * y;
    SignOfProduct(q, y);
    SignOfProduct(1.0 - q, y);
  }

  /** The share of n in m: none exactly for 0, one exactly for all. */
  lemma Share(n: nat, m: nat)
    requires n <= m && m > 0
    ensures 0.0 <= n as real / m as real <= 1.0 && n as real / m as real * m as real == n as real
    ensures (n as real / m as real == 0.0 <==> n == 0) && (n as real / m as real == 1.0 <==> n == m)
  {
    var q := n as real / m as real;
    assert q * m as real == n as real;
    QuotientOf(n as real, m as real, q);
  }
}
