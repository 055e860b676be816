/** Reading single bits, and the number of bits, of a magnitude. */
module BigIntBits {
  import opened Digits
  import opened Bits
  import opened BigIntViews
  import opened BigIntAddMul
  import opened BigIntShift
  import opened BigIntDiv

  /** Bit i of the digit array is bit i of the number. */
  function AbsBit(v: Num, i: nat): (b: bool)
    ensures b == Bit(Abs(v), i)
  {
    var w, s := i / 32, i % 32;
    if w >= |v.digits| then
      ShiftedOut(v.digits, i);
      false
    else
      DigitBit(v.digits, i);
      Down(v.digits[w], s) % 2 == 1
  }

  lemma {:induction false} DigitBit(l: seq<Digit>, i: nat)
    requires i / 32 < |l|
    ensures Bit(Val(l), i) <==> Down(l[i / 32], i % 32) % 2 == 1
  {
    var w, s := i / 32, i % 32;
    HighDigits(l, i);
    ValCons(l[w..]);
    Pow2Word();
    Pow2Add(s, 32 - s);
    LowBitOfShift(l[w], Val(l[w..][1..]), Pow2(s), Pow2(31 - s));
  }

  /** Adding a multiple of B does not change bit s of a digit. */
  lemma LowBitOfShift(d: int, rest: int, P: int, H: int)
    requires P > 0 && P * (2 * H) == B
    ensures (d + B * rest) / P % 2 == d / P % 2
  {
    ScaleSum(rest, 0, P, 2 * H);
    ScaleSum(rest, 0, 2, H);
    assert B * rest == P * (2 * (rest * H));
    EvenMultiple(d, P, rest * H);
  }

  lemma EvenMultiple(d: int, P: int, K: int)
    requires P > 0
    ensures (d + P * (2 * K)) / P % 2 == d / P % 2
  {
    var q, r := d / P, d % P;
    SplitMul(q, 2 * K, P);
    DivUnique(d + P * (2 * K), P, q + 2 * K, r);
  }

  /** The number of significant bits. */
  function AbsBitLength(v: Num): (n: nat)
    requires Normalized(v)
    ensures Abs(v) < Pow2(n)
    ensures v.digits != [] ==> n > 0 && Pow2(n - 1) <= Abs(v)
    ensures v.digits == [] ==> n == 0
  {
    var k := |v.digits|;
    if k == 0 then 0 else
      var top := v.digits[k - 1];
      LeadingZerosFewerThanWord(top);
      BitLengthBounds(v);
      (k - 1) * 32 + 32 - LeadingZeros(top)
  }

  lemma {:induction false} BitLengthBounds(v: Num)
    requires Normalized(v) && v.digits != []
    ensures var k := |v.digits|;
      var n := (k - 1) * 32 + 32 - LeadingZeros(v.digits[k - 1]);
      n > 0 && Pow2(n - 1) <= Abs(v) < Pow2(n)
  {
    var k := |v.digits|;
    var top := v.digits[k - 1];
    var z := LeadingZeros(top);
    LeadingZerosFewerThanWord(top);
    ValTop(v.digits);
    NextFits(top);
    ShiftSplit(k - 1, 32 - z);
    ShiftSplit(k - 1, 31 - z);
    Pow2Word();
    Pow2Add(z, 32 - z);
    Pow2Add(z, 31 - z);
    TopBounds(top, Pow2(z), Pow2(31 - z), BPow(k - 1), Abs(v));
  }

  lemma TopBounds(top: int, Z: int, H: int, p: int, V: int)
    requires Z > 0 && H > 0 && p > 0 && Z * H == 0x8000_0000
    requires 0x8000_0000 <= top * Z && (top + 1) * Z <= B
    requires top * p <= V < (top + 1) * p
    ensures p * H <= V < p * (2 * H)
  {
    if top < H {
      MulMono(top, H - 1, Z);
      SplitMul(H, -1, Z);
    }
    MulMono(H, top, p);
    SplitMul(2 * H, 1, Z);
    if top + 1 > 2 * H {
      MulMono(2 * H + 1, top + 1, Z);
    }
    MulMono(top + 1, 2 * H, p);
  }
}
