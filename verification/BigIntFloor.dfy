/** Floor division: the signed quotient and remainder of Python's // and %. */
module BigIntFloor {
  import opened Digits
  import opened Bits
  import opened BigIntViews
  import opened BigIntAddMul
  import opened BigIntShift
  import opened BigIntDiv

  /** q and r are the floor quotient and remainder of a by b. */
  ghost predicate IsFloor(a: int, b: int, q: int, r: int) {
    && b != 0
    && a == q * b + r
    && (if b > 0 then 0 <= r < b else b < r <= 0)
  }

  ghost function FloorMod(a: int, b: int): int
    requires b != 0
  {
    if b > 0 then a % b else -((-a) % (-b))
  }

  ghost function FloorDiv(a: int, b: int): int
    requires b != 0
  {
    if b > 0 then a / b else (-a) / (-b)
  }

  /** The floor quotient and remainder exist and are unique. */
  lemma FloorUnique(a: int, b: int, q: int, r: int)
    requires b != 0
    ensures IsFloor(a, b, FloorDiv(a, b), FloorMod(a, b))
    ensures IsFloor(a, b, q, r) ==> q == FloorDiv(a, b) && r == FloorMod(a, b)
  {
    if b > 0 {
      assert a == a / b * b + a % b;
      if IsFloor(a, b, q, r) {
        DivUnique(a, b, q, r);
      }
    } else {
      var q', r' := (-a) / (-b), (-a) % (-b);
      assert -a == q' * (-b) + r';
      assert q' * (-b) == -(q' * b);
      if IsFloor(a, b, q, r) {
        assert q * (-b) == -(q * b);
        DivUnique(-a, -b, q, -r);
      }
    }
  }

  ghost function WithSign(x: int, v: Num): int {
    if v.signum > 0 then x else -x
  }

  /** Rounding a magnitude division toward minus infinity. */
  lemma FloorOfMagnitudes(left: Num, right: Num, q: int, r: int)
    requires Normalized(left) && Normalized(right) && right.signum != 0
    requires Abs(left) == q * Abs(right) + r && 0 <= r < Abs(right) && 0 <= q
    ensures left.signum * right.signum >= 0 ==>
      IsFloor(Int(left), Int(right), q, WithSign(r, right))
    ensures left.signum * right.signum < 0 && r == 0 ==>
      IsFloor(Int(left), Int(right), -q, 0)
    ensures left.signum * right.signum < 0 && r > 0 ==>
      IsFloor(Int(left), Int(right), -(q + 1), WithSign(Abs(right) - r, right))
  {
    var V: int := Abs(right);
    SignFlips(q, V);
    SignFlips(q + 1, V);
    SplitMul(q, 1, V);
    if left.signum == 0 {
      NoQuotient(q, V, r);
    }
  }

  lemma SignFlips(q: int, V: int)
    ensures q * -V == -(q * V) && -q * V == -(q * V) && -q * -V == q * V
  {}

  lemma NoQuotient(q: int, V: int, r: int)
    requires q * V + r == 0 && q >= 0 && V > 0 && r >= 0
    ensures q == 0 && r == 0
  {
    if q >= 1 {
      MulMono(1, q, V);
    }
  }

  /** A magnitude given a sign, unless it is zero. */
  function Signed(v: Num, sign: int): (r: Num)
    requires Normalized(v) && (v.digits != [] ==> sign == 1 || sign == -1)
    ensures Normalized(r) && Abs(r) == Abs(v) && Int(r) == if v.digits == [] then 0 else sign * Abs(v)
  {
    if v.digits != [] then Num(sign, v.digits) else v
  }

  /** When the truncated quotient and remainder must be adjusted. */
  predicate Adjusts(left: Num, right: Num, remainder: Num) {
    remainder.signum != 0 && left.signum * right.signum < 0
  }

  lemma {:induction false} Signs(left: Num, right: Num, q: Num, r: Num)
    requires Normalized(left) && Normalized(right) && right.signum != 0
    requires Normalized(q) && Normalized(r)
    requires Abs(left) == Abs(q) * Abs(right) + Abs(r)
    ensures left.signum == 0 ==> q.digits == [] && r.digits == []
    ensures left.signum != 0 ==> left.signum * right.signum == 1 || left.signum * right.signum == -1
    ensures Adjusts(left, right, r) <==> r.signum != 0 && left.signum != right.signum
  {
    NormalizedPositive(right);
    NormalizedPositive(q);
    NormalizedPositive(r);
    if left.signum == 0 {
      NoQuotient(Abs(q), Abs(right), Abs(r));
    }
  }

  lemma {:induction false} FloorResult(left: Num, right: Num, q0: Num, r0: Num, q: Num, r: Num)
    requires Normalized(left) && Normalized(right) && right.signum != 0
    requires Normalized(q0) && Normalized(r0)
    requires Abs(left) == Abs(q0) * Abs(right) + Abs(r0) && Abs(r0) < Abs(right)
    requires Normalized(q) && Abs(q) == if Adjusts(left, right, r0) then Abs(q0) + 1 else Abs(q0)
    requires Normalized(r) && Abs(r) == if Adjusts(left, right, r0) then Abs(right) - Abs(r0) else Abs(r0)
    requires q.digits != [] ==> q.signum == left.signum * right.signum
    requires r.digits != [] ==> r.signum == right.signum
    ensures IsFloor(Int(left), Int(right), Int(q), Int(r))
  {
    Signs(left, right, q0, r0);
    NormalizedPositive(r0);
    NormalizedPositive(q);
    NormalizedPositive(r);
    assert Int(r) == WithSign(Abs(r), right);
    assert left.signum * right.signum >= 0 ==> Int(q) == Abs(q);
    assert left.signum * right.signum < 0 ==> Int(q) == 0 - Abs(q);
    FloorOfMagnitudes(left, right, Abs(q0), Abs(r0));
  }

  /** The signed quotient and remainder, from the divided magnitudes. */
  method RoundDown(adjustedQuotient: MutView, adjustedRemainder: MutView, quotient: Num, remainder: Num, left: Num,
      right: Num)
    returns (q: Num, r: Num)
    requires Normalized(left) && Normalized(right) && right.signum != 0
    requires Normalized(quotient) && 0 <= quotient.signum <= 1 && Normalized(remainder) && 0 <= remainder.signum <= 1
    requires Abs(left) == Abs(quotient) * Abs(right) + Abs(remainder) && Abs(remainder) < Abs(right)
    requires Adjusts(left, right, remainder) ==>
      |quotient.digits| < adjustedQuotient.digits.Length && 1 < adjustedQuotient.digits.Length
      && |right.digits| <= adjustedRemainder.digits.Length
    modifies adjustedQuotient, adjustedQuotient.digits, adjustedRemainder, adjustedRemainder.digits
    ensures Normalized(q) && Normalized(r)
    ensures IsFloor(Int(left), Int(right), Int(q), Int(r))
  {
    Signs(left, right, quotient, remainder);
    var quotientSign := left.signum * right.signum;
    q, r := quotient, remainder;
    if remainder.signum != 0 && quotientSign < 0 {
      q := AdjustQuotient(adjustedQuotient, quotient);
    }
    q := Signed(q, quotientSign);
    if remainder.signum != 0 && left.signum != right.signum {
      r := AdjustRemainder(adjustedRemainder, remainder, right);
    }
    r := Signed(r, right.signum);
    FloorResult(left, right, quotient, remainder, q, r);
  }

  /** The signs differ and the division is not exact, so quotient and remainder are adjusted. */
  ghost predicate RoundsDown(left: Num, right: Num) {
    left.signum * right.signum < 0 && Abs(right) > 0 && Abs(left) % Abs(right) != 0
  }

  /** The quotient of the magnitudes leaves one digit of the capacity free. */
  ghost predicate QuotientAtMost(left: Num, right: Num, capacity: nat) {
    Abs(right) > 0 && 1 < capacity && Abs(left) / Abs(right) < BPow(capacity - 1)
  }

  lemma {:induction false} AdjustedSizes(left: Num, right: Num, q: Num, r: Num, capacity: nat)
    requires Normalized(left) && Normalized(right) && right.signum != 0 && Normalized(q) && Normalized(r)
    requires Abs(left) == Abs(q) * Abs(right) + Abs(r) && Abs(r) < Abs(right)
    ensures Adjusts(left, right, r) <==> RoundsDown(left, right)
    ensures QuotientAtMost(left, right, capacity) ==> |q.digits| < capacity
  {
    NormalizedPositive(r);
    DivUnique(Abs(left), Abs(right), Abs(q), Abs(r));
    if QuotientAtMost(left, right, capacity) {
      LengthBound(q, capacity - 1);
    }
  }

  /** A buffer longer than the dividend always leaves that room. */
  lemma {:induction false} QuotientIsShorter(left: Num, right: Num, capacity: nat)
    requires Normalized(left) && Normalized(right) && left.signum != 0 && right.signum != 0
    requires |left.digits| < capacity
    ensures QuotientAtMost(left, right, capacity)
  {
    NormalizedPositive(left);
    NormalizedPositive(right);
    Quotient(Abs(left), Abs(right));
    BPowMono(|left.digits|, capacity - 1);
  }

  method FloorDivmodViews(quotient: MutView, remainder: MutView, adjustedQuotient: MutView, adjustedRemainder: MutView,
                          left: Num, right: Num)
    returns (q: Num, r: Num)
    requires Normalized(left) && Normalized(right) && right.signum != 0
    requires quotient != remainder && quotient.digits != remainder.digits
    requires Abs(left) < Abs(right) ==> |left.digits| <= remainder.digits.Length
    requires Abs(left) >= Abs(right) ==>
      |right.digits| <= remainder.digits.Length && |left.digits| - |right.digits| < quotient.digits.Length
    requires RoundsDown(left, right) ==>
      QuotientAtMost(left, right, adjustedQuotient.digits.Length) && |right.digits| <= adjustedRemainder.digits.Length
    modifies quotient, quotient.digits, remainder, remainder.digits
    modifies adjustedQuotient, adjustedQuotient.digits, adjustedRemainder, adjustedRemainder.digits
    ensures Normalized(q) && Normalized(r)
    ensures IsFloor(Int(left), Int(right), Int(q), Int(r))
  {
    var leftAbs, rightAbs := AbsView(left), AbsView(right);
    NormalizedPositive(right);
    AbsDivmodInto(quotient, remainder, leftAbs, rightAbs);
    AdjustedSizes(left, right, quotient.View(), remainder.View(), adjustedQuotient.digits.Length);
    q, r := RoundDown(adjustedQuotient, adjustedRemainder, quotient.View(), remainder.View(), left, right);
  }

  method AdjustQuotient(dest: MutView, q: Num) returns (q': Num)
    requires Normalized(q) && 0 <= q.signum <= 1 && |q.digits| < dest.digits.Length && 1 < dest.digits.Length
    modifies dest, dest.digits
    ensures Normalized(q') && 0 <= q'.signum <= 1 && Abs(q') == Abs(q) + 1
  {
    OneDigitValue(ONE.digits);
    AbsAddInto(dest, q, ONE);
    q' := dest.View();
  }

  method AdjustRemainder(dest: MutView, r: Num, right: Num) returns (r': Num)
    requires Normalized(r) && Normalized(right) && Abs(r) < Abs(right)
    requires |right.digits| <= dest.digits.Length
    modifies dest, dest.digits
    ensures Normalized(r') && Abs(r') == Abs(right) - Abs(r)
  {
    AbsSubInto(dest, AbsView(right), r);
    r' := dest.View();
  }
}
