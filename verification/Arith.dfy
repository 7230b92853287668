/** Products and quotients of natural numbers. */
module Arith {
  lemma {:induction false} MulMono(c: nat, a: nat, b: nat)
    requires a <= b
    ensures c * a <= c * b
  {
    if c > 0 {
      MulMono(c - 1, a, b);
      assert c * a == (c - 1) * a + a;
      assert c * b == (c - 1) * b + b;
    }
  }

  lemma DivFacts(a: nat, m: nat)
    requires m > 1
    ensures a == m * (a / m) + a % m && 0 <= a % m < m
    ensures a / m <= a
  {
    var d := a / m;
    MulMono(d, 1, m);
    assert d * m == m * d;
  }

  lemma DivUnique(a: nat, m: nat, v: nat, r: nat)
    requires m > 0 && r < m && a == m * v + r
    ensures a / m == v && a % m == r
  {
    var d, e := a / m, a % m;
    assert a == m * d + e;
    assert m * (v + 1) == m * v + m && m * (d + 1) == m * d + m;
    if d > v {
      MulMono(m, v + 1, d);
    } else if d < v {
      MulMono(m, d + 1, v);
    }
  }

  lemma QuotientFits(a: nat, m: nat)
    requires m > 0
    ensures a / m <= a
  {
    if m > 1 {
      DivFacts(a, m);
    }
  }
}
