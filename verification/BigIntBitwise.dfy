/** Bitwise operations on sign-magnitude numbers, through their two's-complement digits. */
module BigIntBitwise {
  import opened Digits
  import opened Bits
  import opened BigIntViews
  import opened BigIntAddMul
  import opened BigIntBits
  import opened IntValues

  const ONES: Digit := 0xFFFF_FFFF

  /** Two's complement of src, digit by digit. */
  method ComplementInto(dest: array<Digit>, src: seq<Digit>)
    requires |src| <= dest.Length && Val(src) > 0
    modifies dest
    ensures Val(dest[..|src|]) == BPow(|src|) - Val(src)
    ensures dest[|src|..] == old(dest[|src|..])
  {
    var carry: Digit := 1;
    var idx := 0;
    while idx < |src|
      invariant 0 <= idx <= |src| && carry <= 1
      invariant Low(dest[..], idx) + Low(src, idx) + carry * BPow(idx) == BPow(idx)
      invariant dest[|src|..] == old(dest[|src|..])
    {
      var sum: DoubleDigit := (ONES - src[idx]) + carry;
      ghost var before := dest[..];
      dest[idx] := LowDigit(sum);
      assert dest[..] == before[idx := LowDigit(sum)];
      LowWrite(before, idx, LowDigit(sum));
      ComplementColumn(src[idx], carry, LowDigit(sum), HighDigit(sum), BPow(idx));
      carry := HighDigit(sum);
      idx := idx + 1;
    }
    LowBound(dest[..], |src|);
    LowTake(dest[..], |src|);
    assert dest[..][..|src|] == dest[..|src|];
    assert carry == 0;
  }

  lemma ComplementColumn(x: int, c: int, d: int, c': int, p: int)
    requires B - 1 - x + c == d + c' * B
    ensures d * p + x * p + c' * (B * p) == (B - 1) * p + c * p
  {
    CarryStep(B - 1 - x, c, d, c', p);
    SplitMul(B - 1, -x, p);
    assert -x * p == -(x * p);
  }

  /** The integer with the low digits e and the sign bit above them. */
  ghost function Extended(e: seq<Digit>, negative: bool): int {
    Val(e) - if negative then BPow(|e|) else 0
  }

  /** Its bits: those of the digits, then the sign bit forever. */
  lemma {:induction false} ExtendedBits(e: seq<Digit>, negative: bool, i: nat)
    ensures i < 32 * |e| ==> Bit(Extended(e, negative), i) == Bit(e[i / 32], i % 32)
    ensures i >= 32 * |e| ==> Bit(Extended(e, negative), i) == negative
  {
    LowBound(e, |e|);
    Pow2Digits(|e|);
    if i < 32 * |e| {
      DigitBit(e, i);
      if negative {
        var k := 32 * |e| - i;
        Pow2Add(i, k);
        EvenMultiple(Val(e), Pow2(i), -Pow2(k - 1));
        NegatedMultiple(Pow2(i), Pow2(k - 1));
      }
    } else {
      Pow2Mono(32 * |e|, i);
      if negative {
        DivUnique(Extended(e, true), Pow2(i), -1, Extended(e, true) + Pow2(i));
      } else {
        DivUnique(Val(e), Pow2(i), 0, Val(e));
      }
    }
  }

  lemma NegatedMultiple(P: int, H: int)
    ensures P * (2 * -H) == -(P * (2 * H))
  {}

  lemma FlippedQuotient(d: int, P: int, Q: int)
    requires P > 0 && P * Q == B
    ensures (B - 1 - d) / P == Q - 1 - d / P
  {
    var q, r := d / P, d % P;
    assert d == q * P + r;
    assert (Q - 1 - q) * P == Q * P - P - q * P;
    DivUnique(B - 1 - d, P, Q - 1 - q, P - 1 - r);
  }

  lemma {:induction false} FlippedBit(d: Digit, s: nat)
    requires s < 32
    ensures Bit(ONES - d, s) == !Bit(d, s)
  {
    Pow2Word();
    Pow2Add(s, 32 - s);
    FlippedQuotient(d, Pow2(s), Pow2(32 - s));
    OddFlip(d / Pow2(s), Pow2(31 - s));
  }

  lemma OddFlip(q: int, h: int)
    ensures (2 * h - 1 - q) % 2 == 1 <==> q % 2 != 1
  {}

  /** All-ones and all-zero words have constant bits. */
  lemma {:induction false} FillBits(s: nat)
    requires s < 32
    ensures Bit(ONES, s) && !Bit(0, s)
  {
    DivUnique(0, Pow2(s), 0, 0);
    FlippedBit(0, s);
  }

  /** The two's-complement digits of v; above them the sign bit repeats. */
  method Complemented(v: Num) returns (e: seq<Digit>)
    requires Normalized(v)
    ensures |e| == |v.digits| && Extended(e, v.signum < 0) == Int(v)
  {
    if v.signum < 0 {
      var scratch := new MutView(|v.digits|);
      NormalizedPositive(v);
      ComplementInto(scratch.digits, v.digits);
      e := scratch.digits[..|v.digits|];
    } else {
      e := v.digits;
    }
  }

  function DigitOp(op: BitOp, l: Digit, r: Digit): Digit {
    Pow2Word();
    Word(op, l, r, 32)
  }

  /** The operation on a digit of the longer operand against the sign fill of the shorter one. */
  function Tail(op: BitOp, d: Digit, negative: bool): Digit {
    match op
    case And => if negative then d else 0
    case Xor => if negative then ONES - d else d
    case Or => if negative then ONES else d
  }

  lemma {:induction false} TailBits(op: BitOp, d: Digit, negative: bool, s: nat)
    requires s < 32
    ensures Bit(Tail(op, d, negative), s) == op.Apply(Bit(d, s), negative)
  {
    FillBits(s);
    if op == Xor && negative {
      FlippedBit(d, s);
    }
  }

  /** The digit loops: each digit of the result is the operation on the operands' digits,
      the shorter operand being continued by its sign. */
  method CombineDigits(op: BitOp, a: array<Digit>, l: seq<Digit>, r: seq<Digit>, rNegative: bool)
    requires |r| <= |l| <= a.Length
    modifies a
    ensures forall k, s :: 0 <= k < |l| && 0 <= s < 32 ==>
      Bit(a[k], s) == op.Apply(Bit(l[k], s), if k < |r| then Bit(r[k], s) else rNegative)
  {
    var idx := 0;
    while idx < |r|
      invariant 0 <= idx <= |r|
      invariant forall k :: 0 <= k < idx ==> a[k] == DigitOp(op, l[k], r[k])
    {
      a[idx] := DigitOp(op, l[idx], r[idx]);
      idx := idx + 1;
    }
    while idx < |l|
      invariant |r| <= idx <= |l|
      invariant forall k :: 0 <= k < |r| ==> a[k] == DigitOp(op, l[k], r[k])
      invariant forall k :: |r| <= k < idx ==> a[k] == Tail(op, l[k], rNegative)
    {
      a[idx] := Tail(op, l[idx], rNegative);
      idx := idx + 1;
    }
    forall k, s | 0 <= k < |l| && 0 <= s < 32
      ensures Bit(a[k], s) == op.Apply(Bit(l[k], s), if k < |r| then Bit(r[k], s) else rNegative)
    {
      if k < |r| {
        WordBits(op, l[k], r[k], 32, s);
      } else {
        TailBits(op, l[k], rNegative, s);
      }
    }
  }

  /** Bit i of the result is the operation on bit i of the operands, for every i. */
  ghost predicate BitwiseResult(op: BitOp, x: int, y: int, z: int) {
    forall i: nat :: Bit(z, i) == op.Apply(Bit(x, i), Bit(y, i))
  }

  lemma {:induction false} CombinedBits(op: BitOp, l: seq<Digit>, lNeg: bool, r: seq<Digit>, rNeg: bool, z: seq<Digit>)
    requires |r| <= |l| == |z|
    requires forall k, s :: 0 <= k < |l| && 0 <= s < 32 ==>
      Bit(z[k], s) == op.Apply(Bit(l[k], s), if k < |r| then Bit(r[k], s) else rNeg)
    ensures BitwiseResult(op, Extended(l, lNeg), Extended(r, rNeg), Extended(z, op.Apply(lNeg, rNeg)))
  {
    forall i: nat
      ensures Bit(Extended(z, op.Apply(lNeg, rNeg)), i)
           == op.Apply(Bit(Extended(l, lNeg), i), Bit(Extended(r, rNeg), i))
    {
      ExtendedBits(l, lNeg, i);
      ExtendedBits(r, rNeg, i);
      ExtendedBits(z, op.Apply(lNeg, rNeg), i);
    }
  }

  /** Back to sign and magnitude: a negative result is complemented with one extra sign digit. */
  method FromComplement(result: MutView, n: nat, negative: bool) returns (z: Num)
    requires n > 0 && result.digits.Length == n + (if negative then 1 else 0)
    modifies result, result.digits
    ensures Normalized(z) && Int(z) == Extended(old(result.digits[..n]), negative)
  {
    ghost var e := result.digits[..n];
    LowBound(e, n);
    if negative {
      result.digits[n] := ONES;
      assert result.digits[..n + 1] == e + [ONES];
      ValSnoc(e, ONES);
      SplitMul(B - 1, 1, BPow(n));
      ComplementInto(result.digits, result.digits[..n + 1]);
      result.n, result.signum := n + 1, -1;
      result.Normalize();
    } else {
      result.n, result.signum := n, 1;
      result.Normalize();
    }
    z := result.View();
    NormalizedPositive(z);
  }

  method Bitwise(op: BitOp, left: Num, right: Num) returns (z: IntValue)
    requires Normalized(left) && Normalized(right)
    ensures Canonical(z) && BitwiseResult(op, Int(left), Int(right), ValueOf(z))
  {
    var l, r := left, right;
    if |l.digits| < |r.digits| {
      l, r := r, l;
    }
    var lNeg, rNeg := l.signum < 0, r.signum < 0;
    var le := Complemented(l);
    var re := Complemented(r);
    var negative := op.Apply(lNeg, rNeg);
    var n := |l.digits|;
    if n == 0 {
      CombinedBits(op, le, lNeg, re, rNeg, []);
      z := Finalize(ZERO);
      return;
    }
    var result := new MutView(n + if negative then 1 else 0);
    CombineDigits(op, result.digits, le, re, rNeg);
    CombinedBits(op, le, lNeg, re, rNeg, result.digits[..n]);
    var view := FromComplement(result, n, negative);
    z := Finalize(view);
  }

  /** Two integers with the same bits are equal, so the bits pin the result. */
  lemma {:induction false} BitsDetermine(x: int, y: int)
    requires forall i: nat :: Bit(x, i) == Bit(y, i)
    ensures x == y
    decreases (if x < 0 then -x else x) + (if y < 0 then -y else y)
  {
    assert Bit(x, 0) == Bit(y, 0);
    if !(-1 <= x <= 0 && -1 <= y <= 0) {
      forall i: nat
        ensures Bit(x / 2, i) == Bit(y / 2, i)
      {
        BitUp(x, i + 1);
        BitUp(y, i + 1);
      }
      BitsDetermine(x / 2, y / 2);
    }
  }

  /** And with k ones is the remainder modulo 2^k. */
  lemma {:induction false} AndWithOnes(x: int, k: nat, z: int)
    ensures BitwiseResult(And, x, Pow2(k) - 1, z) <==> z == x % Pow2(k)
  {
    forall i: nat
      ensures Bit(x % Pow2(k), i) == (Bit(x, i) && Bit(Pow2(k) - 1, i))
    {
      OnesBits(k, i);
      RemainderBits(x, k, i);
    }
    if BitwiseResult(And, x, Pow2(k) - 1, z) {
      forall i: nat
        ensures Bit(z, i) == Bit(x % Pow2(k), i)
      {
        assert Bit(z, i) == And.Apply(Bit(x, i), Bit(Pow2(k) - 1, i));
      }
      BitsDetermine(z, x % Pow2(k));
    }
  }

  lemma {:induction false} OnesBits(k: nat, i: nat)
    ensures Bit(Pow2(k) - 1, i) <==> i < k
  {
    if i == 0 {
      LowBit(Pow2(k) - 1);
    } else {
      BitUp(Pow2(k) - 1, i);
      if k > 0 {
        assert (Pow2(k) - 1) / 2 == Pow2(k - 1) - 1;
        OnesBits(k - 1, i - 1);
      } else {
        OnesBits(0, i - 1);
      }
    }
  }

  lemma {:induction false} RemainderBits(x: int, k: nat, i: nat)
    ensures Bit(x % Pow2(k), i) <==> i < k && Bit(x, i)
    decreases k
  {
    if k == 0 {
      assert x % Pow2(0) == 0;
      DivUnique(0, Pow2(i), 0, 0);
    } else {
      var half := Pow2(k - 1);
      HalfRemainder(x, half);
      if i == 0 {
        LowBit(x);
        LowBit(x % Pow2(k));
      } else {
        BitUp(x, i);
        BitUp(x % Pow2(k), i);
        RemainderBits(x / 2, k - 1, i - 1);
      }
    }
  }

  lemma HalfRemainder(x: int, half: int)
    requires half > 0
    ensures x % (2 * half) / 2 == x / 2 % half && x % (2 * half) % 2 == x % 2
  {
    var q, r := x / 2 / half, x / 2 % half;
    DivUnique(x / 2, half, q, r);
    ScaleSum(2, r, q, half);
    assert x == q * (2 * half) + (2 * r + x % 2);
    DivUnique(x, 2 * half, q, 2 * r + x % 2);
  }

  /** Xor is or without and. */
  lemma {:induction false} XorIsOrMinusAnd(x: int, y: int, xor: int, or: int, and: int)
    requires BitwiseResult(Xor, x, y, xor) && BitwiseResult(Or, x, y, or) && BitwiseResult(And, x, y, and)
    ensures xor == or - and
    decreases Size(xor) + Size(or) + Size(and)
  {
    LowBit(xor);
    LowBit(or);
    LowBit(and);
    assert Bit(xor, 0) == Xor.Apply(Bit(x, 0), Bit(y, 0));
    assert Bit(or, 0) == Or.Apply(Bit(x, 0), Bit(y, 0));
    assert Bit(and, 0) == And.Apply(Bit(x, 0), Bit(y, 0));
    if Size(xor) + Size(or) + Size(and) > 0 {
      HalvedResult(Xor, x, y, xor);
      HalvedResult(Or, x, y, or);
      HalvedResult(And, x, y, and);
      XorIsOrMinusAnd(x / 2, y / 2, xor / 2, or / 2, and / 2);
    }
  }

  /** How far halving is from its fixed points 0 and -1. */
  ghost function Size(x: int): nat { if x < 0 then -x - 1 else x }

  lemma {:induction false} HalvedResult(op: BitOp, x: int, y: int, z: int)
    requires BitwiseResult(op, x, y, z)
    ensures BitwiseResult(op, x / 2, y / 2, z / 2)
  {
    forall i: nat
      ensures Bit(z / 2, i) == op.Apply(Bit(x / 2, i), Bit(y / 2, i))
    {
      BitUp(x, i + 1);
      BitUp(y, i + 1);
      BitUp(z, i + 1);
      assert Bit(z, i + 1) == op.Apply(Bit(x, i + 1), Bit(y, i + 1));
    }
  }
}
