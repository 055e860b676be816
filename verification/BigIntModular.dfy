/** Modular inverse and modular power. */
module BigIntModular {
  import opened Digits
  import opened Bits
  import opened BigIntViews
  import opened BigIntAddMul
  import opened BigIntDiv
  import opened BigIntFloor
  import opened BigIntBits
  import opened Congruence
  import opened IntValues

  /** The scratch sizes computed before any digit is touched. */
  datatype Capacities = Capacities(residue: nat, product: nat, diff: nat, reduction: nat)

  ghost predicate Suffices(c: Capacities, base: Num, modulo: Num) {
    && |modulo.digits| <= c.residue
    && 2 * c.residue <= c.product && c.product < c.diff
    && |base.digits| <= c.reduction && c.diff <= c.reduction
  }

  /** The floor remainder, through scratch of the given capacities. */
  method FloorModInto(capacity: nat, left: Num, right: Num, c: Capacities) returns (r: Num)
    requires Normalized(left) && Normalized(right) && right.signum != 0
    requires |left.digits| <= c.reduction
    requires |right.digits| <= c.residue <= capacity
    ensures Normalized(r) && Int(r) == FloorMod(Int(left), Int(right))
    ensures Abs(r) < Abs(right) && |r.digits| <= |right.digits|
  {
    var quotient := new MutView(c.reduction);
    var remainder := new MutView(c.reduction);
    var adjustedQuotient := new MutView(c.reduction + 1);
    var adjustedRemainder := new MutView(c.residue);
    ghost var q;
    ReductionFits(left, right, c.reduction);
    q, r := FloorDivmodViews(quotient, remainder, adjustedQuotient, adjustedRemainder, left, right);
    NormalizedPositive(right);
    FloorUnique(Int(left), Int(right), Int(q), Int(r));
    NormalizedPositive(r);
    LengthMonotone(r, right);
    var dest := new MutView(capacity);
    dest.CopyFrom(r);
    r := dest.View();
  }

  lemma {:induction false} ReductionFits(left: Num, right: Num, reduction: nat)
    requires Normalized(left) && Normalized(right) && right.signum != 0 && |left.digits| <= reduction
    ensures Abs(left) >= Abs(right) ==> |right.digits| <= reduction && |left.digits| - |right.digits| < reduction
    ensures RoundsDown(left, right) ==> QuotientAtMost(left, right, reduction + 1)
  {
    if Abs(left) >= Abs(right) {
      LengthMonotone(right, left);
    }
    if left.signum != 0 {
      QuotientIsShorter(left, right, reduction + 1);
    }
  }

  lemma FloorModCong(a: int, b: int)
    requires b != 0
    ensures Cong(FloorMod(a, b), a, if b > 0 then b else -b)
    ensures b > 0 ==> 0 <= FloorMod(a, b) < b
    ensures b < 0 ==> b < FloorMod(a, b) <= 0
  {
    FloorUnique(a, b, 0, 0);
    var q := FloorDiv(a, b);
    DividesMultiple(if b > 0 then b else -b, if b > 0 then -q else q);
    SignFlips(q, b);
  }

  /** Congruent to a, and in the residue range of b: that is the floor remainder. */
  lemma FloorModUnique(a: int, b: int, r: int)
    requires b != 0 && Cong(r, a, if b > 0 then b else -b)
    requires if b > 0 then 0 <= r < b else b < r <= 0
    ensures r == FloorMod(a, b)
  {
    var m := if b > 0 then b else -b;
    FloorModCong(a, b);
    CongSymm(FloorMod(a, b), a, m);
    CongTrans(r, a, FloorMod(a, b), m);
    CongUnique(r, FloorMod(a, b), m);
  }

  method Multiply(capacity: nat, left: Num, right: Num) returns (p: Num)
    requires Normalized(left) && Normalized(right) && |left.digits| + |right.digits| <= capacity
    ensures Normalized(p) && Int(p) == Int(left) * Int(right) && |p.digits| <= capacity
  {
    var dest := new MutView(capacity);
    MulInto(dest, left, right);
    p := dest.View();
  }

  method Subtract(capacity: nat, left: Num, right: Num) returns (d: Num)
    requires Normalized(left) && Normalized(right)
    requires |left.digits| < capacity && |right.digits| < capacity
    ensures Normalized(d) && Int(d) == Int(left) - Int(right) && |d.digits| <= capacity
  {
    var dest := new MutView(capacity);
    SubInto(dest, left, right);
    d := dest.View();
  }

  /** What every round of the extended Euclid loop keeps, for base b and modulus M. */
  ghost predicate Euclid(b: int, M: int, r0: int, r1: int, t0: int, t1: int) {
    && 0 <= r1 < r0 <= M && 0 <= t0 < M && 0 <= t1 < M
    && Cong(t0 * b, r0, M) && Cong(t1 * b, r1, M)
    && forall d: int :: d > 0 ==> (Divides(d, r0) && Divides(d, r1) <==> Divides(d, b) && Divides(d, M))
  }

  lemma EuclidStart(b: int, M: int)
    requires M > 1
    ensures Euclid(b, M, M, FloorMod(b, M), 0, 1)
  {
    FloorModCong(b, M);
    var r := FloorMod(b, M);
    CongSymm(r, b, M);
    DividesMultiple(M, -1);
    FloorUnique(b, M, 0, 0);
    var q := FloorDiv(b, M);
    forall d: int | d > 0
      ensures Divides(d, M) && Divides(d, r) <==> Divides(d, b) && Divides(d, M)
    {
      EuclidStep(d, b, M, q, r);
    }
  }

  lemma EuclidRound(b: int, M: int, r0: int, r1: int, t0: int, t1: int, q: int, r2: int, t2: int)
    requires M > 1 && Euclid(b, M, r0, r1, t0, t1) && r1 > 0
    requires r0 == q * r1 + r2 && 0 <= r2 < r1
    requires 0 <= t2 < M && Cong(t2, t0 - q * t1, M)
    ensures Euclid(b, M, r1, r2, t1, t2)
  {
    CoefficientRound(b, M, r0, r1, t0, t1, q, r2, t2);
    forall d: int | d > 0
      ensures Divides(d, r1) && Divides(d, r2) <==> Divides(d, b) && Divides(d, M)
    {
      EuclidStep(d, r0, r1, q, r2);
    }
  }

  lemma CoefficientRound(b: int, M: int, r0: int, r1: int, t0: int, t1: int, q: int, r2: int, t2: int)
    requires M > 1 && Cong(t0 * b, r0, M) && Cong(t1 * b, r1, M)
    requires r0 == q * r1 + r2 && Cong(t2, t0 - q * t1, M)
    ensures Cong(t2 * b, r2, M)
  {
    CongMul(t2, t0 - q * t1, b, M);
    DividesCombination(M, t0 * b - r0, t1 * b - r1, -q);
    RoundAlgebra(b, r0, r1, t0, t1, q, r2);
    CongTrans(t2 * b, (t0 - q * t1) * b, r2, M);
  }

  lemma RoundAlgebra(b: int, r0: int, r1: int, t0: int, t1: int, q: int, r2: int)
    requires r0 == q * r1 + r2
    ensures (t0 - q * t1) * b - r2 == t0 * b - r0 + -q * (t1 * b - r1)
  {
    SplitMul(t0, -(q * t1), b);
    assert -(q * t1) * b == -(q * (t1 * b));
    assert -q * (t1 * b - r1) == -(q * (t1 * b)) + q * r1;
  }

  /** When the remainder reaches zero, the last nonzero one is 1 exactly for a coprime base. */
  lemma EuclidDone(b: int, M: int, g: int, t0: int, t1: int)
    requires M > 1 && Euclid(b, M, g, 0, t0, t1)
    ensures g == 1 <==> Coprime(b, M)
    ensures g == 1 ==> Cong(t0 * b, 1, M)
  {
    DividesMultiple(g, 1);
    DividesMultiple(g, 0);
    assert Divides(g, b) && Divides(g, M);
    if g == 1 {
      forall d: int | d > 0 && Divides(d, b) && Divides(d, M)
        ensures d == 1
      {
        assert Divides(d, 1);
        if d > 1 {
          DivUnique(1, d, 0, 1);
        }
      }
    }
  }

  lemma {:induction false} OneValue(v: Num)
    requires Normalized(v)
    ensures v == ONE <==> Int(v) == 1
    ensures Int(ONE) == 1 && Normalized(ONE)
  {
    OneDigitValue(ONE.digits);
    if Int(v) == 1 {
      NormalizedUnique(v, ONE);
    }
  }

  /** One division round: quotient, next remainder and next coefficient. */
  method EuclidDivide(oldR: Num, r: Num, oldT: Num, t: Num, absModulo: Num, c: Capacities, ghost b: int)
    returns (nextR: Num, nextT: Num)
    requires Normalized(absModulo) && absModulo.signum == 1 && Abs(absModulo) > 1
    requires |absModulo.digits| <= c.residue && 2 * c.residue <= c.product && c.product < c.diff <= c.reduction
    requires Normalized(oldR) && Normalized(r) && Normalized(oldT) && Normalized(t) && r.signum != 0
    requires Euclid(b, Abs(absModulo), Int(oldR), Int(r), Int(oldT), Int(t))
    ensures Normalized(nextR) && Normalized(nextT)
    ensures Euclid(b, Abs(absModulo), Int(r), Int(nextR), Int(t), Int(nextT))
    ensures Int(nextR) < Int(r)
  {
    NormalizedPositive(oldR);
    NormalizedPositive(r);
    LengthMonotone(oldR, absModulo);
    LengthMonotone(r, oldR);
    var quotient := new MutView(c.residue);
    var remainder := new MutView(c.residue);
    AbsDivmodInto(quotient, remainder, oldR, r);
    nextR := remainder.View();
    var q := quotient.View();
    QuotientSize(q, r, oldR);
    LengthMonotone(t, absModulo);
    LengthMonotone(oldT, absModulo);
    var product := Multiply(c.product, q, t);
    var diff := Subtract(c.diff, oldT, product);
    nextT := FloorModInto(c.residue, diff, absModulo, c);
    FloorModCong(Int(diff), Int(absModulo));
    EuclidRound(b, Abs(absModulo), Int(oldR), Int(r), Int(oldT), Int(t), Int(q), Int(nextR), Int(nextT));
  }

  lemma {:induction false} QuotientSize(q: Num, r: Num, dividend: Num)
    requires Normalized(q) && Normalized(r) && Normalized(dividend) && Abs(r) > 0
    requires Abs(q) * Abs(r) <= Abs(dividend)
    ensures |q.digits| <= |dividend.digits|
  {
    MulMono(1, Abs(r), Abs(q));
    LengthMonotone(q, dividend);
  }

  /** The inverse of base modulo |modulo|, with modulo's sign; zero exactly when there is none. */
  method ModularInverse(base: Num, modulo: Num, c: Capacities) returns (x: Num)
    requires Normalized(base) && Normalized(modulo) && Abs(modulo) > 1 && Suffices(c, base, modulo)
    ensures Normalized(x) && |x.digits| <= |modulo.digits|
    ensures x.signum != 0 <==> Coprime(Int(base), Abs(modulo))
    ensures x.signum != 0 <==> Invertible(Int(base), Abs(modulo))
    ensures x.signum != 0 ==> x.signum == modulo.signum && Cong(Int(base) * Int(x), 1, Abs(modulo))
    ensures x.signum != 0 ==> Abs(x) < Abs(modulo)
  {
    var absModulo := AbsView(modulo);
    ghost var b, M := Int(base), Abs(modulo);
    var oldR := absModulo;
    var r := FloorModInto(c.residue, base, absModulo, c);
    var oldT, t := ZERO, ONE;
    OneValue(t);
    EuclidStart(b, M);
    while r.signum != 0
      invariant Normalized(oldR) && Normalized(r) && Normalized(oldT) && Normalized(t)
      invariant Euclid(b, M, Int(oldR), Int(r), Int(oldT), Int(t))
      decreases Int(r)
    {
      var nextR, nextT := EuclidDivide(oldR, r, oldT, t, absModulo, c, b);
      oldR, r := r, nextR;
      oldT, t := t, nextT;
    }
    EuclidDone(b, M, Int(oldR), Int(oldT), Int(t));
    OneValue(oldR);
    if oldR != ONE {
      NoInverse(b, M);
      return ZERO;
    }
    NormalizedPositive(oldT);
    LengthMonotone(oldT, absModulo);
    x := FloorModInto(c.residue, oldT, modulo, c);
    InverseOf(b, Int(oldT), modulo, x);
    assert IsInverse(b, Int(x), M);
  }

  /** Some integer is an inverse of b modulo m. */
  ghost predicate Invertible(b: int, m: int)
    requires m > 0
  {
    exists x :: IsInverse(b, x, m)
  }

  ghost predicate IsInverse(b: int, x: int, m: int)
    requires m > 0
  {
    Cong(b * x, 1, m)
  }

  lemma NoInverse(b: int, m: int)
    requires m > 0 && !Coprime(b, m)
    ensures !Invertible(b, m)
  {
    forall x
      ensures !IsInverse(b, x, m)
    {
      if IsInverse(b, x, m) {
        InverseImpliesCoprime(b, x, m);
      }
    }
  }

  /** A residue that inverts p modulo m is the only one, so the result of a negative power is determined. */
  lemma InverseUnique(p: int, r: int, s: int, m: int)
    requires m != 0 && Residue(r, m) && Residue(s, m)
    requires Cong(r * p, 1, if m > 0 then m else -m) && Cong(s * p, 1, if m > 0 then m else -m)
    ensures r == s
  {
    var M := if m > 0 then m else -m;
    CongMul(s * p, 1, r, M);
    CongMul(r * p, 1, s, M);
    assert r * (s * p) == r * p * s;
    CongSymm(r * (s * p), r, M);
    CongTrans(r, r * p * s, s, M);
    CongUnique(r, s, M);
  }

  lemma {:induction false} InverseOf(b: int, t: int, modulo: Num, x: Num)
    requires Normalized(modulo) && Abs(modulo) > 1 && Normalized(x)
    requires Int(modulo) != 0 && Int(x) == FloorMod(t, Int(modulo)) && Cong(t * b, 1, Abs(modulo))
    ensures x.signum == modulo.signum && Cong(b * Int(x), 1, Abs(modulo))
  {
    var M := Abs(modulo);
    NormalizedPositive(modulo);
    NormalizedPositive(x);
    FloorModCong(t, Int(modulo));
    CongMul(Int(x), t, b, M);
    CongTrans(b * Int(x), t * b, 1, M);
    if Int(x) == 0 {
      CongUnique(0, 1, M);
    }
  }

  /** r is a floor residue of modulus b. */
  ghost predicate Residue(r: int, b: int) {
    if b > 0 then 0 <= r < b else b < r <= 0
  }

  /** One exponent bit: the product of the result and the remaining power keeps its residue. */
  lemma PowerRound(res: int, pow: int, e: nat, res': int, pow': int, target: int, M: int)
    requires M > 0 && Cong(res * Power(pow, e), target, M)
    requires Cong(res', if e % 2 == 1 then res * pow else res, M)
    requires e / 2 == 0 || Cong(pow', pow * pow, M)
    ensures Cong(res' * Power(pow', e / 2), target, M)
  {
    var h := e / 2;
    var sq := Power(pow * pow, h);
    PowerSquare(pow, h);
    var step := if e % 2 == 1 then res * pow else res;
    assert step * sq == res * Power(pow, e) by {
      if e % 2 == 1 {
        assert Power(pow, e) == pow * Power(pow, 2 * h);
        assert res * pow * sq == res * (pow * sq);
      }
    }
    if h == 0 {
      assert Power(pow', h) == 1 == sq;
      CongMul(res', step, 1, M);
    } else {
      PowerCong(pow', pow * pow, h, M);
      CongMul2(res', step, Power(pow', h), sq, M);
    }
    CongTrans(res' * Power(pow', h), step * sq, target, M);
  }

  lemma {:induction false} NextExponent(E: nat, i: nat)
    ensures E / Pow2(i + 1) == E / Pow2(i) / 2 && E / Pow2(i) >= 0
  {
    DivDiv(E, Pow2(i), 2);
  }

  /** One multiplication reduced by the modulus. */
  method MulMod(left: Num, right: Num, modulo: Num, c: Capacities) returns (r: Num)
    requires Normalized(left) && Normalized(right) && Normalized(modulo) && modulo.signum != 0
    requires |left.digits| <= |modulo.digits| && |right.digits| <= |modulo.digits|
    requires |modulo.digits| <= c.residue && 2 * c.residue <= c.product <= c.reduction
    ensures Normalized(r) && |r.digits| <= |modulo.digits|
    ensures Abs(modulo) > 0 && Int(modulo) != 0
    ensures Cong(Int(r), Int(left) * Int(right), Abs(modulo)) && Residue(Int(r), Int(modulo))
  {
    var product := Multiply(c.product, left, right);
    r := FloorModInto(c.residue, product, modulo, c);
    NormalizedPositive(modulo);
    FloorModCong(Int(product), Int(modulo));
  }

  /** Square and multiply over the exponent's bits, from the lowest. */
  method PowerLoop(one: Num, x: Num, exponent: Num, modulo: Num, c: Capacities) returns (result: Num)
    requires Normalized(one) && Normalized(x) && Normalized(exponent) && Normalized(modulo) && Abs(modulo) > 0
    requires |one.digits| <= |modulo.digits| && |x.digits| <= |modulo.digits|
    requires |modulo.digits| <= c.residue && 2 * c.residue <= c.product <= c.reduction
    requires Residue(Int(one), Int(modulo)) && Cong(Int(one), 1, Abs(modulo))
    ensures Normalized(result) && Residue(Int(result), Int(modulo))
    ensures Cong(Int(result), Power(Int(x), Abs(exponent)), Abs(modulo))
  {
    ghost var E, M := Abs(exponent), Abs(modulo);
    ghost var target := Power(Int(x), E);
    var power := x;
    result := one;
    var bits := AbsBitLength(exponent);
    var i := 0;
    NormalizedPositive(modulo);
    assert E / Pow2(0) == E;
    CongMul(Int(one), 1, target, M);
    while i < bits
      invariant 0 <= i <= bits && E / Pow2(i) >= 0
      invariant Normalized(result) && Normalized(power)
      invariant |result.digits| <= |modulo.digits| && |power.digits| <= |modulo.digits|
      invariant Residue(Int(result), Int(modulo))
      invariant Cong(Int(result) * Power(Int(power), E / Pow2(i)), target, M)
    {
      ghost var e, res, pow := E / Pow2(i), Int(result), Int(power);
      NextExponent(E, i);
      DividesMultiple(M, 0);
      if AbsBit(exponent, i) {
        result := MulMod(result, power, modulo, c);
      }
      if i + 1 < bits {
        power := MulMod(power, power, modulo, c);
      } else {
        DivUnique(E, Pow2(i + 1), 0, E);
      }
      PowerRound(res, pow, e, Int(result), Int(power), target, M);
      i := i + 1;
    }
    DivUnique(E, Pow2(bits), 0, E);
  }

  const SIZE_MAX: int := 0xFFFF_FFFF_FFFF_FFFF

  function Max(a: nat, b: nat): nat { if a > b then a else b }

  /** The size computations that precede a modular power; none when they would overflow. */
  function ScratchCapacities(base: Num, modulo: Num): (c: Outcome<Capacities>)
    ensures c.Ok? ==> Suffices(c.value, base, modulo)
    ensures c.Ok? <==>
      Max(|modulo.digits|, 1) <= (SIZE_MAX - 2) / 2 && Max(|base.digits|, 2 * Max(|modulo.digits|, 1) + 1) != SIZE_MAX
    ensures !c.Ok? ==> c.OverflowError?
  {
    var residue := Max(|modulo.digits|, 1);
    if residue > (SIZE_MAX - 2) / 2 then OverflowError else
      var product := residue * 2;
      var diff := product + 1;
      var reduction := Max(|base.digits|, Max(product, Max(diff, 1)));
      if reduction == SIZE_MAX then OverflowError else Ok(Capacities(residue, product, diff, reduction))
  }

  /** pow(base, exponent, modulo). */
  method ModularPow(base: Num, exponent: Num, modulo: Num) returns (r: Outcome<IntValue>)
    requires Normalized(base) && Normalized(exponent) && Normalized(modulo)
    ensures modulo.signum == 0 <==> r == ValueError("pow() 3rd argument cannot be 0")
    ensures r.OverflowError? <==> Abs(modulo) > 1 && ScratchCapacities(base, modulo).OverflowError?
    ensures r == ValueError("base is not invertible for the given modulus") <==>
      Abs(modulo) > 1 && ScratchCapacities(base, modulo).Ok? && exponent.signum < 0 && !Coprime(Int(base), Abs(modulo))
    ensures r.Ok? <==>
      modulo.signum != 0 &&
      (|| Abs(modulo) == 1
       || (&& ScratchCapacities(base, modulo).Ok?
           && (exponent.signum >= 0 || Coprime(Int(base), Abs(modulo)))))
    ensures r.Ok? ==> Canonical(r.value) && Residue(ValueOf(r.value), Int(modulo))
    ensures r.Ok? && exponent.signum >= 0 ==>
      Int(modulo) != 0 && ValueOf(r.value) == FloorMod(Power(Int(base), Abs(exponent)), Int(modulo))
    ensures r.Ok? && exponent.signum < 0 ==>
      Abs(modulo) > 0 && Cong(ValueOf(r.value) * Power(Int(base), Abs(exponent)), 1, Abs(modulo))
  {
    NormalizedPositive(modulo);
    if modulo.signum == 0 {
      return ValueError("pow() 3rd argument cannot be 0");
    }
    var absModulo := AbsView(modulo);
    OneValue(absModulo);
    if absModulo == ONE {
      var zero := Finalize(ZERO);
      ModuloOne(Power(Int(base), Abs(exponent)), Int(modulo));
      return Ok(zero);
    }
    var capacities := ScratchCapacities(base, modulo);
    if !capacities.Ok? {
      return OverflowError;
    }
    var c := capacities.value;
    OneValue(ONE);
    LengthMonotone(ONE, modulo);
    var one := FloorModInto(c.residue, ONE, modulo, c);
    FloorModCong(1, Int(modulo));
    var x: Num;
    if exponent.signum < 0 {
      x := ModularInverse(base, modulo, c);
      if x.signum == 0 {
        return ValueError("base is not invertible for the given modulus");
      }
    } else {
      x := FloorModInto(c.residue, base, modulo, c);
      FloorModCong(Int(base), Int(modulo));
    }
    var result := PowerLoop(one, x, exponent, modulo, c);
    if exponent.signum < 0 {
      InversePower(Int(base), Int(x), Int(result), Abs(exponent), Abs(modulo));
    } else {
      ReducedPower(Int(base), Int(x), Int(result), Abs(exponent), Int(modulo));
    }
    var value := Finalize(result);
    return Ok(value);
  }

  lemma ModuloOne(p: int, b: int)
    requires b == 1 || b == -1
    ensures FloorMod(p, b) == 0 && Residue(0, b) && Cong(0 * p, 1, 1)
  {
    FloorModCong(p, b);
  }

  lemma {:induction false} InversePower(b: int, x: int, r: int, e: nat, M: int)
    requires M > 0 && Cong(b * x, 1, M) && Cong(r, Power(x, e), M)
    ensures Cong(r * Power(b, e), 1, M)
  {
    CongMul(r, Power(x, e), Power(b, e), M);
    PowerMul(x, b, e);
    PowerCong(b * x, 1, e, M);
    PowerOne(e);
    CongTrans(r * Power(b, e), Power(b * x, e), 1, M);
  }

  lemma {:induction false} ReducedPower(b: int, x: int, r: int, e: nat, m: int)
    requires m != 0 && Residue(r, m)
    requires Cong(x, b, if m > 0 then m else -m) && Cong(r, Power(x, e), if m > 0 then m else -m)
    ensures r == FloorMod(Power(b, e), m)
  {
    var M := if m > 0 then m else -m;
    PowerCong(x, b, e, M);
    CongTrans(r, Power(x, e), Power(b, e), M);
    FloorModUnique(Power(b, e), m, r);
  }
}
