/** Products, quotients and remainders, one step at a time. */
module Arith {

  function Pair(q: nat, r: nat, n: nat): nat { q * n + r }

  function Div(x: nat, n: nat): nat
    requires n > 0
  {
    x / n
  }

  lemma JoinPair(x: nat, n: nat)
    requires n > 0
    ensures Pair(x / n, x % n, n) == x && x % n < n
  {
  }

  lemma SplitPair(q: nat, r: nat, n: nat)
    requires r < n
    ensures Pair(q, r, n) / n == q && Pair(q, r, n) % n == r
  {
    var x := Pair(q, r, n);
    JoinPair(x, n);
    var q', r' := x / n, x % n;
    Dist(q' - q, q, n);
    if q < q' {
      MulLe(1, q' - q, n);
    } else if q' < q {
      MulLe(1, q - q', n);
      Dist(q - q', q', n);
    }
  }

  lemma PairBound(q: nat, r: nat, n: nat, m: nat)
    requires q < m && r < n
    ensures Pair(q, r, n) < m * n
  {
    assert q * n + n == (q + 1) * n <= m * n by { MulLe(q + 1, m, n); }
  }

  lemma DivBound(x: nat, n: nat, m: nat)
    requires n > 0 && x < m * n
    ensures x / n < m
  {
    if x / n >= m {
      MulLe(m, x / n, n);
      JoinPair(x, n);
    }
  }

  lemma Dist(x: int, y: int, n: int)
    ensures (x + y) * n == x * n + y * n
  {
  }

  lemma MulLe(a: int, b: int, n: nat)
    requires a <= b
    ensures a * n <= b * n
  {
  }
}
