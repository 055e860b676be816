/** Divisibility, congruence and integer powers. */
module Congruence {
  import opened Digits
  import opened Bits
  import opened BigIntAddMul

  ghost predicate Divides(d: int, x: int)
    requires d > 0
  {
    x % d == 0
  }

  ghost predicate Cong(a: int, b: int, m: int)
    requires m > 0
  {
    Divides(m, a - b)
  }

  /** No common divisor but 1. */
  ghost predicate Coprime(a: int, b: int) {
    forall d: int :: d > 0 && Divides(d, a) && Divides(d, b) ==> d == 1
  }

  function Power(b: int, e: nat): int {
    if e == 0 then 1 else b * Power(b, e - 1)
  }

  lemma DividesMultiple(d: int, k: int)
    requires d > 0
    ensures Divides(d, k * d)
  {
    DivUnique(k * d, d, k, 0);
  }

  lemma DividesCombination(d: int, x: int, y: int, k: int)
    requires d > 0 && Divides(d, x) && Divides(d, y)
    ensures Divides(d, x + k * y)
  {
    var a, b := x / d, y / d;
    assert x == a * d && y == b * d;
    assert k * (b * d) == k * b * d;
    SplitMul(a, k * b, d);
    DividesMultiple(d, a + k * b);
  }

  lemma DividesScaled(d: int, k: int, y: int)
    requires d > 0 && Divides(d, y)
    ensures Divides(d, k * y)
  {
    DividesMultiple(d, 0);
    DividesCombination(d, 0, y, k);
  }

  lemma CongTrans(a: int, b: int, c: int, m: int)
    requires m > 0 && Cong(a, b, m) && Cong(b, c, m)
    ensures Cong(a, c, m)
  {
    DividesCombination(m, a - b, b - c, 1);
  }

  lemma CongSymm(a: int, b: int, m: int)
    requires m > 0 && Cong(a, b, m)
    ensures Cong(b, a, m)
  {
    DividesScaled(m, -1, a - b);
  }

  lemma CongMul(a: int, b: int, c: int, m: int)
    requires m > 0 && Cong(a, b, m)
    ensures Cong(a * c, b * c, m) && Cong(c * a, c * b, m)
  {
    DividesScaled(m, c, a - b);
    MulDifference(a, b, c);
  }

  lemma MulDifference(a: int, b: int, c: int)
    ensures c * (a - b) == a * c - b * c == c * a - c * b
  {}

  lemma CongMul2(a: int, b: int, c: int, d: int, m: int)
    requires m > 0 && Cong(a, b, m) && Cong(c, d, m)
    ensures Cong(a * c, b * d, m)
  {
    CongMul(a, b, c, m);
    CongMul(c, d, b, m);
    CongTrans(a * c, b * c, b * d, m);
  }

  /** Residues in one range are equal when congruent. */
  lemma CongUnique(a: int, b: int, m: int)
    requires m > 0 && Cong(a, b, m) && -m < a - b < m
    ensures a == b
  {
    var k := (a - b) / m;
    assert a - b == k * m;
    if k >= 1 {
      MulMono(1, k, m);
    } else if k <= -1 {
      MulMono(k, -1, m);
    }
  }

  lemma {:induction false} PowerAdd(b: int, i: nat, j: nat)
    ensures Power(b, i + j) == Power(b, i) * Power(b, j)
  {
    if i > 0 {
      PowerAdd(b, i - 1, j);
      assert b * (Power(b, i - 1) * Power(b, j)) == b * Power(b, i - 1) * Power(b, j);
    }
  }

  lemma {:induction false} PowerSquare(b: int, e: nat)
    ensures Power(b * b, e) == Power(b, 2 * e)
  {
    if e > 0 {
      PowerSquare(b, e - 1);
      assert Power(b, 2 * e) == b * (b * Power(b, 2 * e - 2));
      assert b * (b * Power(b, 2 * e - 2)) == b * b * Power(b, 2 * e - 2);
    }
  }

  lemma {:induction false} PowerMul(a: int, b: int, e: nat)
    ensures Power(a * b, e) == Power(a, e) * Power(b, e)
  {
    if e > 0 {
      PowerMul(a, b, e - 1);
      Exchange(a, b, Power(a, e - 1), Power(b, e - 1));
    }
  }

  lemma Exchange(a: int, b: int, x: int, y: int)
    ensures a * b * (x * y) == a * x * (b * y)
  {
    assert b * (x * y) == x * (b * y);
  }

  lemma {:induction false} PowerOne(e: nat)
    ensures Power(1, e) == 1
  {
    if e > 0 {
      PowerOne(e - 1);
    }
  }

  lemma {:induction false} PowerCong(a: int, b: int, e: nat, m: int)
    requires m > 0 && Cong(a, b, m)
    ensures Cong(Power(a, e), Power(b, e), m)
  {
    if e > 0 {
      PowerCong(a, b, e - 1, m);
      CongMul2(a, b, Power(a, e - 1), Power(b, e - 1), m);
    }
  }

  /** One division step of Euclid keeps the common divisors. */
  lemma EuclidStep(d: int, a: int, b: int, q: int, c: int)
    requires d > 0 && a == q * b + c
    ensures Divides(d, a) && Divides(d, b) <==> Divides(d, b) && Divides(d, c)
  {
    if Divides(d, a) && Divides(d, b) {
      DividesCombination(d, a, b, -q);
      assert -q * b == -(q * b);
    }
    if Divides(d, b) && Divides(d, c) {
      DividesCombination(d, c, b, q);
    }
  }

  /** An integer with an inverse modulo m is coprime to m. */
  lemma InverseImpliesCoprime(b: int, x: int, m: int)
    requires m > 0 && Cong(b * x, 1, m)
    ensures Coprime(b, m)
  {
    forall d: int | d > 0 && Divides(d, b) && Divides(d, m)
      ensures d == 1
    {
      DividesScaled(d, x, b);
      var k := (b * x - 1) / m;
      assert b * x - 1 == k * m;
      DividesScaled(d, k, m);
      DividesCombination(d, x * b, k * m, -1);
      assert Divides(d, 1);
      if d > 1 {
        DivUnique(1, d, 0, 1);
      }
    }
  }
}
