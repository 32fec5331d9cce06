/** Products and quotients of variables, one fact at a time. */
module Arithmetic {

  lemma Larger(a: nat, b: nat, c: nat)
    requires b <= c
    ensures 0 <= a * b <= a * c
  {
  }

  lemma AddOne(n: nat, m: int)
    ensures n * (m + 1) == n * m + n
  {
  }

  lemma Regroup(a: nat, b: nat, c: nat)
    ensures a * (b * c) == b * (a * c)
  {
  }

  lemma Less(a: nat, b: nat, c: nat)
    requires b <= c
    ensures a * (c - b) == a * c - a * b
  {
  }

  lemma Above(w: nat, a: nat, b: nat)
    ensures a > b ==> w * a >= w * b + w
  {
    if a > b {
      Larger(w, b + 1, a);
      assert w * (b + 1) == w * b + w;
    }
  }

  lemma QuotientBelow(a: nat, b: nat)
    requires b > 0
    ensures 0 <= a / b <= a && b * (a / b) <= a
  {
    var q := a / b;
    Larger(q, 1, b);
  }

  lemma QuotientSmall(a: nat, b: nat)
    requires b > 1
    ensures a / b <= a / 2
    ensures a >= b ==> a / b >= 1
  {
    QuotientBelow(a, b);
    Larger(a / b, 2, b);
  }

  lemma Divided(a: nat, d: nat)
    requires d > 0
    ensures a == d * (a / d) + a % d && 0 <= a / d && a % d < d
  {
  }

  lemma DivisionIsUnique(n: nat, d: nat, q: nat, r: nat)
    requires d > 0 && n == d * q + r && r < d
    ensures n / d == q
  {
    var p, m := n / d, n % d;
    assert n == d * p + m;
    Above(d, p, q);
    Above(d, q, p);
  }

  lemma QuotientOfSum(a: nat, b: nat, d: nat)
    requires d > 0
    ensures (a + b) / d == a / d + (a % d + b) / d
  {
    var m := a % d;
    Divided(a, d);
    Divided(m + b, d);
    Less(d, a / d, a / d + (m + b) / d);
    DivisionIsUnique(a + b, d, a / d + (m + b) / d, (m + b) % d);
  }

  lemma QuotientZero(a: nat, b: nat)
    requires b > 0
    ensures a / b == 0 <==> a < b
  {
    if a < b {
      DivisionIsUnique(a, b, 0, a);
    }
  }
}
