/** Shifts of digit arrays by whole digits and by bits within a digit. */
module BigIntShift {
  import opened Digits
  import opened Bits
  import opened BigIntViews
  import opened BigIntAddMul

  /** (digit << s) | carry on 32-bit words. */
  function ShiftLeftOr(d: Digit, s: nat, carry: Digit): Digit
    requires 0 < s < 32
  {
    Pow2Word();
    Word(Or, (d * Pow2(s)) % B, carry, 32)
  }

  /** carry | (digit >> s) on 32-bit words. */
  function ShiftRightOr(d: Digit, s: nat, carry: Digit): Digit
    requires 0 < s < 32
  {
    Pow2Word();
    Word(Or, carry, Down(d, s), 32)
  }

  /** digit >> s */
  function Down(d: Digit, s: nat): (r: Digit)
    ensures r <= d
  {
    Quotient(d, Pow2(s));
    d / Pow2(s)
  }

  /** digit << s, truncated to 32 bits. */
  function Up(d: Digit, s: nat): Digit {
    (d * Pow2(s)) % B
  }

  lemma Quotient(d: nat, p: int)
    requires p > 0
    ensures 0 <= d / p <= d
  {
    var q := d / p;
    assert d == q * p + d % p;
    if q < 0 {
      MulMono(q, -1, p);
    } else {
      MulMono(1, p, q);
    }
  }

  /** A word cut in two parts of P * Q = B values. */
  lemma CutWord(d: Digit, P: int, Q: int)
    requires P > 0 && Q > 0 && P * Q == B
    ensures 0 <= d / Q < P && 0 <= d % Q < Q
    ensures d * P == d / Q * B + d % Q * P
    ensures d % Q * P <= B - P
    ensures (d * P) % B == d % Q * P
  {
    var q, r := d / Q, d % Q;
    assert d == q * Q + r;
    Quotient(d, Q);
    if q >= P {
      MulMono(P, q, Q);
    }
    ScaleSum(P, r, q, Q);
    MulMono(r, Q - 1, P);
    SplitMul(Q, -1, P);
    DivUnique(d * P, B, q, r * P);
  }

  lemma {:induction false} Pow2Halves(s: nat)
    requires 0 < s < 32
    ensures Pow2(s) * Pow2(32 - s) == B == Pow2(32)
    ensures Pow2(32 - s) * Pow2(s) == B
  {
    Pow2Word();
    Pow2Add(s, 32 - s);
    Pow2Add(32 - s, s);
  }

  lemma {:induction false} ShiftLeftColumn(d: Digit, s: nat, carry: Digit)
    requires 0 < s < 32 && carry < Pow2(s)
    ensures ShiftLeftOr(d, s, carry) + Down(d, 32 - s) * B == d * Pow2(s) + carry
    ensures Down(d, 32 - s) < Pow2(s)
  {
    Pow2Halves(s);
    CutWord(d, Pow2(s), Pow2(32 - s));
    OrDisjoint(d % Pow2(32 - s), s, carry, 32);
  }

  /** One column of the right shift: the low s bits of `above` come down. */
  lemma {:induction false} ShiftRightColumn(d: Digit, s: nat, above: Digit)
    requires 0 < s < 32
    ensures 0 <= d % Pow2(s) < Pow2(s)
    ensures ShiftRightOr(d, s, Up(above, 32 - s)) * Pow2(s) + d % Pow2(s) == above % Pow2(s) * B + d
  {
    Pow2Halves(s);
    var P, Q := Pow2(s), Pow2(32 - s);
    CutWord(above, Q, P);
    CutWord(d, Q, P);
    OrDisjoint(above % P, 32 - s, d / P, 32);
    ColumnValue(above % P, d, P, Q);
  }

  lemma ColumnValue(low: int, d: int, P: int, Q: int)
    requires P > 0 && P * Q == B
    ensures (low * Q + d / P) * P + d % P == low * B + d
  {
    SplitMul(low * Q, d / P, P);
    ScaleSum(P, 0, low, Q);
    assert d == d / P * P + d % P;
  }

  /** The column loop: a[w..w + |l|] receives the low digits of l * 2^s, the carry out is returned. */
  method ShiftLeftDigits(a: array<Digit>, w: nat, l: seq<Digit>, s: nat) returns (carry: Digit)
    requires w + |l| <= a.Length && 0 < s < 32
    modifies a
    ensures a[..w] == old(a[..w])
    ensures carry < Pow2(s)
    ensures Val(a[w..w + |l|]) + carry * BPow(|l|) == Val(l) * Pow2(s)
  {
    carry := 0;
    Pow2Mono(s, 31);
    Pow2Word();
    var idx := 0;
    while idx < |l|
      invariant 0 <= idx <= |l|
      invariant carry < Pow2(s)
      invariant Low(a[w..w + |l|], idx) + carry * BPow(idx) == Low(l, idx) * Pow2(s)
      invariant a[..w] == old(a[..w])
    {
      var digit := l[idx];
      var d := ShiftLeftOr(digit, s, carry);
      ghost var before := a[w..w + |l|];
      a[w + idx] := d;
      assert a[w..w + |l|] == before[idx := d];
      LowWrite(before, idx, d);
      ShiftLeftColumn(digit, s, carry);
      MulColumn(digit, Pow2(s), carry, d, Down(digit, 32 - s), Low(l, idx), BPow(idx));
      carry := Down(digit, 32 - s);
      idx := idx + 1;
    }
  }

  /** Appends the digits of src * 2^s to the `whole` digits already in dest. */
  method AppendShifted(dest: MutView, src: Num, s: nat)
    requires Normalized(src) && src.signum != 0 && s < 32
    requires dest.n + |src.digits| < dest.digits.Length
    modifies dest, dest.digits
    ensures dest.Valid() && dest.signum == src.signum
    ensures old(dest.n) + |src.digits| <= dest.n <= old(dest.n) + |src.digits| + 1
    ensures dest.digits[..old(dest.n)] == old(dest.digits[..dest.n])
    ensures Val(dest.digits[old(dest.n)..dest.n]) == Abs(src) * Pow2(s)
    ensures dest.digits[dest.n - 1] != 0
    ensures dest.n > old(dest.n) + |src.digits| ==> dest.digits[dest.n - 1] < Pow2(s)
  {
    var whole, n := dest.n, |src.digits|;
    dest.n, dest.signum := whole + n, src.signum;
    if s == 0 {
      forall i | 0 <= i < n {
        dest.digits[whole + i] := src.digits[i];
      }
      assert forall i :: 0 <= i < n ==> dest.digits[whole..dest.n][i] == src.digits[i];
      assert dest.digits[whole..dest.n] == src.digits;
      return;
    }
    var carry := ShiftLeftDigits(dest.digits, whole, src.digits, s);
    ghost var low := dest.digits[whole..whole + n];
    ghost var shifted := ShiftedDigits(src, low, carry, s);
    if carry != 0 {
      dest.digits[dest.n] := carry;
      dest.n := dest.n + 1;
    }
    assert dest.digits[whole..dest.n] == shifted;
  }

  method ShiftLeftInto(dest: MutView, src: Num, shift: nat)
    requires Normalized(src)
    requires src.signum != 0 ==> |src.digits| + shift / 32 < dest.digits.Length
    modifies dest, dest.digits
    ensures dest.Valid() && Normalized(dest.View())
    ensures Int(dest.View()) == Int(src) * Pow2(shift) && dest.signum == src.signum
    ensures src.signum != 0 ==> |src.digits| + shift / 32 <= dest.n <= |src.digits| + shift / 32 + 1
    ensures dest.n > |src.digits| + shift / 32 ==> dest.digits[dest.n - 1] < Pow2(shift % 32)
  {
    if src.signum == 0 {
      dest.SetZero();
      return;
    }
    var whole := shift / 32;
    forall i | 0 <= i < whole {
      dest.digits[i] := 0;
    }
    dest.n := whole;
    ghost var zeros := dest.digits[..whole];
    AppendShifted(dest, src, shift % 32);
    ShiftedValue(src, dest.View(), zeros, dest.digits[whole..dest.n], shift);
  }

  lemma {:induction false} ShiftedDigits(src: Num, low: seq<Digit>, carry: Digit, s: nat) returns (shifted: seq<Digit>)
    requires Normalized(src) && src.signum != 0 && |low| == |src.digits|
    requires Val(low) + carry * BPow(|low|) == Val(src.digits) * Pow2(s)
    ensures shifted == if carry == 0 then low else low + [carry]
    ensures shifted[|shifted| - 1] != 0
    ensures Val(shifted) == Val(src.digits) * Pow2(s)
  {
    shifted := if carry == 0 then low else low + [carry];
    ValSnoc(low, carry);
    if carry == 0 {
      NormalizedPositive(src);
      MulMono(1, Pow2(s), Abs(src));
      TopDigitNonzero(low);
    }
  }

  lemma {:induction false} ShiftedValue(src: Num, r: Num, zeros: seq<Digit>, shifted: seq<Digit>, shift: nat)
    requires Normalized(src) && src.signum != 0
    requires r.signum == src.signum && r.digits == zeros + shifted
    requires |zeros| == shift / 32 && forall i :: 0 <= i < |zeros| ==> zeros[i] == 0
    requires |shifted| > 0 && shifted[|shifted| - 1] != 0
    requires Val(shifted) == Val(src.digits) * Pow2(shift % 32)
    ensures Normalized(r) && Int(r) == Int(src) * Pow2(shift)
  {
    var w, s := shift / 32, shift % 32;
    ValSplit(r.digits, w);
    assert r.digits[..w] == zeros && r.digits[w..] == shifted;
    LowZeros(zeros, 0, w);
    ShiftSplit(w, s);
    assert 32 * w + s == shift;
    ProductOfShifts(Val(src.digits), Pow2(s), BPow(w));
  }

  lemma {:induction false} ShiftSplit(w: nat, s: nat)
    ensures Pow2(32 * w + s) == BPow(w) * Pow2(s)
  {
    Pow2Digits(w);
    Pow2Add(32 * w, s);
  }

  lemma ProductOfShifts(x: int, P: int, W: int)
    ensures W * (x * P) == x * (W * P)
    ensures (0 - x) * (W * P) == 0 - x * (W * P)
  {
    ScaleSum(W, 0, x, P);
  }

  /** The column loop, from the top digit down: a[..|l|] receives the digits of l / 2^s. */
  method ShiftRightDigits(a: array<Digit>, l: seq<Digit>, s: nat)
    requires |l| <= a.Length && 0 < s < 32
    modifies a
    ensures Val(a[..|l|]) == Val(l) / Pow2(s)
  {
    ghost var P := Pow2(s);
    var carry: Digit := 0;
    ghost var above: Digit := 0;
    var k := |l|;
    assert Up(0, 32 - s) == 0 && 0 % P == 0 by { DivUnique(0, P, 0, 0); }
    while k > 0
      invariant 0 <= k <= |l|
      invariant carry == Up(above, 32 - s) && above % P >= 0
      invariant Val(l[k..]) == Val(a[k..|l|]) * P + above % P
      invariant 0 <= above % P < P
    {
      ghost var high, done := l[k..], a[k..|l|];
      var digit := l[k - 1];
      var d := ShiftRightOr(digit, s, carry);
      a[k - 1] := d;
      assert a[k - 1..|l|] == [d] + done;
      assert l[k - 1..] == [digit] + high;
      ValCons(l[k - 1..]);
      ValCons(a[k - 1..|l|]);
      assert l[k - 1..][1..] == high && a[k - 1..|l|][1..] == done;
      ShiftRightColumn(digit, s, above);
      RightStep(digit, d, Val(high), Val(done), above % P, digit % P, P);
      above := digit;
      carry := Up(digit, 32 - s);
      k := k - 1;
    }
    assert l[0..] == l && a[0..|l|] == a[..|l|];
    DivUnique(Val(l), P, Val(a[..|l|]), above % P);
  }

  lemma RightStep(x: int, d: int, high: int, done: int, above: int, rest: int, P: int)
    requires high == done * P + above
    requires d * P + rest == above * B + x
    ensures x + B * high == (d + B * done) * P + rest
  {
    SplitMul(d, B * done, P);
    assert B * (done * P) == B * done * P;
  }

  method ShiftRightAbsInto(dest: MutView, src: Num, shift: nat)
    requires Normalized(src) && 0 <= src.signum <= 1
    requires |src.digits| - shift / 32 <= dest.digits.Length
    modifies dest, dest.digits
    ensures dest.Valid() && Normalized(dest.View()) && 0 <= dest.signum <= 1
    ensures Abs(dest.View()) == Abs(src) / Pow2(shift)
  {
    var whole, s := shift / 32, shift % 32;
    if src.signum == 0 || whole >= |src.digits| {
      ShiftedOut(src.digits, shift);
      dest.SetZero();
      return;
    }
    var high := src.digits[whole..];
    dest.n, dest.signum := |high|, 1;
    if s == 0 {
      forall i | 0 <= i < |high| {
        dest.digits[i] := high[i];
      }
      assert dest.digits[..dest.n] == high;
    } else {
      ShiftRightDigits(dest.digits, high, s);
    }
    HighDigits(src.digits, shift);
    dest.Normalize();
  }

  /** Dropping whole digits divides by a power of B. */
  lemma {:induction false} HighDigits(l: seq<Digit>, shift: nat)
    requires shift / 32 <= |l|
    ensures Val(l) / Pow2(shift) == Val(l[shift / 32..]) / Pow2(shift % 32)
  {
    var w, s := shift / 32, shift % 32;
    ValSplit(l, w);
    LowBound(l[..w], w);
    DivUnique(Val(l), BPow(w), Val(l[w..]), Val(l[..w]));
    DivDiv(Val(l), BPow(w), Pow2(s));
    ShiftSplit(w, s);
    assert 32 * w + s == shift;
  }

  lemma {:induction false} ShiftedOut(l: seq<Digit>, shift: nat)
    requires |l| <= shift / 32
    ensures Val(l) / Pow2(shift) == 0
  {
    LowBound(l, |l|);
    Pow2Digits(|l|);
    Pow2Mono(32 * |l|, shift);
    DivUnique(Val(l), Pow2(shift), 0, Val(l));
  }
}
