/** Conversion to a binary64 value: significand and exponent, correctly rounded. */
module BigIntDouble {
  import opened Digits
  import opened Bits
  import opened BigIntViews
  import opened BigIntAddMul
  import opened BigIntTrial
  import opened BigIntShift
  import opened BigIntBits
  import opened IntValues

  /** significand * 2^exponent, with the sign on the significand. */
  datatype Double = Double(significand: int, exponent: nat)

  const PRECISION: nat := 53
  const MAX_EXP: nat := 1024

  ghost function Dist(x: int, y: int): nat { if x < y then y - x else x - y }

  /** m * 2^e is a nearest value of t-bit precision to n, and the even one of two nearest
      (section 4.3.1 of IEEE 754-2008, exponent unbounded). */
  ghost predicate Nearest(t: nat, n: nat, m: nat, e: nat) {
    && m < Pow2(t)
    && forall k: nat, j: nat :: k < Pow2(t) ==>
      && Dist(n, m * Pow2(e)) <= Dist(n, k * Pow2(j))
      && (Dist(n, m * Pow2(e)) == Dist(n, k * Pow2(j)) && k * Pow2(j) != m * Pow2(e) ==> m % 2 == 0)
  }

  /** Round half to even of n / 2^d. */
  ghost function Rounded(n: nat, d: nat): nat
    requires d > 0
  {
    var q, r := n / Pow2(d), n % Pow2(d);
    var half := Pow2(d - 1);
    if r > half || (r == half && q % 2 == 1) then q + 1 else q
  }

  /** The bits from bitLength - nBits up, read one at a time from the top. */
  method AbsTopBits(v: Num, bitLength: nat, nBits: nat) returns (result: DoubleDigit)
    requires nBits <= 64 && nBits <= bitLength && Abs(v) < Pow2(bitLength)
    ensures result == Abs(v) / Pow2(bitLength - nBits)
  {
    result := 0;
    var lowBit := bitLength - nBits;
    var idx := 0;
    DivUnique(Abs(v), Pow2(bitLength), 0, Abs(v));
    while idx < nBits
      invariant 0 <= idx <= nBits
      invariant result == Abs(v) / Pow2(bitLength - idx)
    {
      var at := lowBit + nBits - 1 - idx;
      NextTopBit(Abs(v), bitLength, at);
      result := 2 * result + if AbsBit(v, at) then 1 else 0;
      idx := idx + 1;
    }
  }

  lemma {:induction false} NextTopBit(n: nat, L: nat, at: nat)
    requires n < Pow2(L) && at < L <= at + 64
    ensures n / Pow2(at) == 2 * (n / Pow2(at + 1)) + if Bit(n, at) then 1 else 0
    ensures 0 <= n / Pow2(at) < 0x1_0000_0000_0000_0000
  {
    DivDiv(n, Pow2(at), 2);
    TopBitsFit(n, L, at);
  }

  lemma {:induction false} TopBitsFit(n: nat, L: nat, at: nat)
    requires n < Pow2(L) && at <= L <= at + 64
    ensures 0 <= n / Pow2(at) < 0x1_0000_0000_0000_0000
  {
    Pow2Add(L - at, at);
    QuotientBetween(n, Pow2(at), 0, Pow2(L - at));
    Pow2Mono(L - at, 64);
    Pow2DoubleWord();
  }

  lemma {:induction false} Pow2DoubleWord()
    ensures Pow2(64) == 0x1_0000_0000_0000_0000
  {
    Pow2Word();
    Pow2Add(32, 32);
  }

  /** Whether any of the n lowest bits is set. */
  method AbsAnyBitsBelow(v: Num, nBits: nat) returns (any: bool)
    ensures any <==> Abs(v) % Pow2(nBits) != 0
  {
    var l := v.digits;
    var full, rest := nBits / 32, nBits % 32;
    var idx := 0;
    while idx < full && idx < |l|
      invariant 0 <= idx <= full && idx <= |l|
      invariant forall k :: 0 <= k < idx ==> l[k] == 0
    {
      if l[idx] != 0 {
        SomeLowDigit(l, idx, nBits);
        return true;
      }
      idx := idx + 1;
    }
    LowDigitsZero(l, idx, nBits);
    if rest != 0 && full < |l| {
      return l[full] % Pow2(rest) != 0;
    }
    return false;
  }

  lemma {:induction false} ZeroPrefix(l: seq<Digit>, i: nat)
    requires i <= |l| && forall k :: 0 <= k < i ==> l[k] == 0
    ensures Val(l) == BPow(i) * Val(l[i..])
  {
    ValSplit(l, i);
    LowTake(l, i);
    LowZeros(l, 0, i);
  }

  /** A nonzero digit below the cut makes the remainder nonzero. */
  lemma {:induction false} SomeLowDigit(l: seq<Digit>, i: nat, nBits: nat)
    requires i < |l| && i < nBits / 32 && l[i] != 0 && forall k :: 0 <= k < i ==> l[k] == 0
    ensures Val(l) % Pow2(nBits) != 0
  {
    ZeroPrefix(l, i);
    ValCons(l[i..]);
    var k := nBits - 32 * (i + 1);
    ShiftSplit(i + 1, k);
    assert 32 * (i + 1) + k == nBits;
    assert BPow(i + 1) == B * BPow(i);
    NotMultiple(l[i], Val(l[i..][1..]), BPow(i), Pow2(k), Val(l));
  }

  lemma NotMultiple(d: int, rest: int, p: int, K: int, n: int)
    requires 0 < d < B && p > 0 && K > 0 && n == p * (d + B * rest)
    ensures B * p * K > 0 && n % (B * p * K) != 0
  {
    var m := B * p * K;
    if n % m == 0 {
      var q := n / m;
      assert n == q * m;
      assert q * (B * p * K) == p * (B * (q * K));
      assert p * (d + B * rest) == p * (B * (q * K));
      CancelFactor(d + B * rest, B * (q * K), p);
    }
  }

  lemma CancelFactor(a: int, b: int, p: int)
    requires p > 0 && p * a == p * b
    ensures a == b
  {
    if a < b {
      MulMono(a + 1, b, p);
    } else if b < a {
      MulMono(b + 1, a, p);
    }
  }

  lemma {:induction false} LowDigitsZero(l: seq<Digit>, i: nat, nBits: nat)
    requires i <= |l| && forall k :: 0 <= k < i ==> l[k] == 0
    requires i == nBits / 32 || (i == |l| && i <= nBits / 32)
    ensures Val(l) % Pow2(nBits) != 0 <==> nBits % 32 != 0 && nBits / 32 < |l| && l[nBits / 32] % Pow2(nBits % 32) != 0
  {
    ZeroPrefix(l, i);
    if i == |l| {
      assert Val(l[i..]) == 0;
      DivUnique(0, Pow2(nBits), 0, 0);
    } else {
      var s := nBits % 32;
      ShiftSplit(i, s);
      assert 32 * i + s == nBits;
      ValCons(l[i..]);
      Pow2Word();
      Pow2Add(s, 32 - s);
      LowPart(l[i], Val(l[i..][1..]), BPow(i), Pow2(s), Pow2(32 - s));
      if s == 0 {
        assert l[i] % 1 == 0;
      }
    }
  }

  lemma LowPart(d: int, rest: int, p: int, P: int, Q: int)
    requires p > 0 && P > 0 && P * Q == B
    ensures p * P > 0 && (p * (d + B * rest) % (p * P) != 0 <==> d % P != 0)
  {
    var q, r := d / P, d % P;
    assert d == q * P + r;
    assert p * P > 0;
    assert p * (d + B * rest) == (q + Q * rest) * (p * P) + p * r by {
      assert B * rest == Q * rest * P;
      SplitMul(q, Q * rest, P);
      ScaleSum(p, r, q + Q * rest, P);
    }
    MulMono(r + 1, P, p);
    SplitMul(r, 1, p);
    DivUnique(p * (d + B * rest), p * P, q + Q * rest, p * r);
    if r != 0 {
      MulMono(1, p, r);
    }
  }

  /** The guard and sticky bits decide exactly as rounding half to even does. */
  lemma {:induction false} GuardAndSticky(n: nat, d: nat)
    requires d > 0
    ensures n / Pow2(d) >= 0
    ensures Rounded(n, d) ==
      n / Pow2(d) + if Bit(n, d - 1) && (n % Pow2(d - 1) != 0 || n / Pow2(d) % 2 == 1) then 1 else 0
  {
    var half := Pow2(d - 1);
    var g, low := n / half, n % half;
    assert n == g * half + low;
    assert g == 2 * (g / 2) + g % 2;
    SplitMul(2 * (g / 2), g % 2, half);
    assert 2 * (g / 2) * half == g / 2 * (2 * half);
    var r := (if g % 2 == 1 then half else 0) + low;
    DivUnique(n, 2 * half, g / 2, r);
    Quotient(n, 2 * half);
  }

  /** Every value of t-bit precision is outside the gap around n between neighbouring multiples of 2^d. */
  lemma {:induction false} OutsideGap(t: nat, q: nat, d: nat, k: nat, j: nat)
    requires t > 1 && d > 0 && Pow2(t - 1) <= q && k < Pow2(t)
    ensures k * Pow2(j) <= q * Pow2(d) || k * Pow2(j) >= q * Pow2(d) + Pow2(d)
  {
    if j >= d {
      Pow2Add(d, j - d);
      var c := k * Pow2(j - d);
      assert k * (Pow2(d) * Pow2(j - d)) == c * Pow2(d) by { ScaleSum(k, 0, Pow2(d), Pow2(j - d)); }
      Grid(c, q, Pow2(d));
    } else {
      Pow2Mono(j, d - 1);
      MulMono(Pow2(j), Pow2(d - 1), k);
      MulMono(k, Pow2(t), Pow2(d - 1));
      MulMono(Pow2(t - 1), q, Pow2(d));
      Rebalance(Pow2(t - 1), Pow2(d - 1));
    }
  }

  lemma Rebalance(a: int, b: int)
    ensures 2 * a * b == a * (2 * b)
  {}

  lemma Grid(c: int, q: int, P: int)
    requires P > 0
    ensures c * P <= q * P || c * P >= q * P + P
  {
    if c <= q {
      MulMono(c, q, P);
    } else {
      MulMono(q + 1, c, P);
      SplitMul(q, 1, P);
    }
  }

  /** Rounding half to even at bit d gives a nearest value, the even one on a tie. */
  lemma {:induction false} RoundedIsNearest(t: nat, n: nat, d: nat, k: nat, j: nat, m: nat, v: nat)
    requires t > 1 && d > 0 && Pow2(t - 1) <= n / Pow2(d) && k < Pow2(t)
    requires m == Rounded(n, d) && v == m * Pow2(d)
    ensures var w := k * Pow2(j);
      Dist(n, v) <= Dist(n, w) && (Dist(n, v) == Dist(n, w) && w != v ==> m % 2 == 0)
  {
    var P, q, r := Pow2(d), n / Pow2(d), n % Pow2(d);
    assert P == 2 * Pow2(d - 1);
    DivisionBy(n, P);
    OutsideGap(t, q, d, k, j);
    NearestOfTwo(n, q, r, P, m, k * Pow2(j));
  }

  lemma DivisionBy(n: nat, P: int)
    requires P > 0
    ensures n == n / P * P + n % P && 0 <= n % P < P && n / P >= 0
  {
    Quotient(n, P);
  }

  lemma NearestOfTwo(n: nat, q: nat, r: nat, P: nat, m: nat, w: nat)
    requires n == q * P + r && r < P && P % 2 == 0
    requires m == if r > P / 2 || (r == P / 2 && q % 2 == 1) then q + 1 else q
    requires w <= q * P || w >= q * P + P
    ensures Dist(n, m * P) <= Dist(n, w)
    ensures Dist(n, m * P) == Dist(n, w) && w != m * P ==> m % 2 == 0
  {
    SplitMul(q, 1, P);
  }

  /** A significand of 2^t is halved and the exponent raised: the same value. */
  lemma {:induction false} NearestPair(t: nat, n: nat, d: nat, m: nat, e: nat)
    requires t > 1 && d > 0 && Pow2(t - 1) <= n / Pow2(d) < Pow2(t)
    requires if Rounded(n, d) == Pow2(t) then m == Pow2(t - 1) && e == d + 1
             else m == Rounded(n, d) && e == d
    ensures Nearest(t, n, m, e)
  {
    GuardAndSticky(n, d);
    CarriedValue(t, d);
    NearestAll(t, n, d, m, e);
  }

  lemma {:induction false} CarriedValue(t: nat, d: nat)
    requires t > 1
    ensures Pow2(t - 1) * Pow2(d + 1) == Pow2(t) * Pow2(d) && Pow2(t - 1) % 2 == 0 && Pow2(t - 1) < Pow2(t)
  {
    Rebalance(Pow2(t - 1), Pow2(d));
    assert Pow2(t - 1) == 2 * Pow2(t - 2);
  }

  /** The value of the rounded significand against all values of t-bit precision. */
  lemma {:induction false} NearestAll(t: nat, n: nat, d: nat, m: nat, e: nat)
    requires t > 1 && d > 0 && Pow2(t - 1) <= n / Pow2(d)
    requires m < Pow2(t) && m * Pow2(e) == Rounded(n, d) * Pow2(d) && (Rounded(n, d) % 2 == 0 ==> m % 2 == 0)
    ensures Nearest(t, n, m, e)
  {
    var v := m * Pow2(e);
    forall k: nat, j: nat | k < Pow2(t)
      ensures Dist(n, v) <= Dist(n, k * Pow2(j))
      ensures Dist(n, v) == Dist(n, k * Pow2(j)) && k * Pow2(j) != v ==> m % 2 == 0
    {
      RoundedIsNearest(t, n, d, k, j, Rounded(n, d), v);
    }
  }

  lemma {:induction false} ExactIsNearest(t: nat, n: nat)
    requires n < Pow2(t)
    ensures Nearest(t, n, n, 0)
  {
    assert n * Pow2(0) == n;
  }

  /** The magnitude from which rounding to t bits reaches 2^E. */
  ghost function Threshold(t: nat, E: nat): int
    requires t < E
  {
    Pow2(E) - Pow2(E - t - 1)
  }

  ghost function OverflowThreshold(): int { Threshold(PRECISION, MAX_EXP) }

  lemma OverflowThresholdIs()
    ensures OverflowThreshold() == Pow2(1024) - Pow2(970)
  {}

  /** Rounding carries into bit E exactly from 2^E minus half a unit in the last place on. */
  lemma {:induction false} OverflowAt(t: nat, n: nat, L: nat, carried: bool, E: nat)
    requires t > 0 && L > t && Pow2(L - 1) <= n < Pow2(L) && E > t
    requires carried <==> Rounded(n, L - t) == Pow2(t)
    ensures L + (if carried then 1 else 0) > E <==> n >= Threshold(t, E)
  {
    if L < E {
      Pow2Mono(L, E - 1);
      Pow2Mono(E - t - 1, E - 1);
      assert Pow2(E) == 2 * Pow2(E - 1);
    } else if L > E {
      Pow2Mono(E, L - 1);
    } else {
      CarryFrom(n, L - t, t);
    }
  }

  /** The significand m at length l is a nearest t-bit value of n, and the length tells, for n as for
      the rounded value, whether 2^E is reached. */
  ghost predicate Rounding(t: nat, E: nat, n: nat, m: nat, l: nat) {
    && t < E && t <= l && m > 0 && Nearest(t, n, m, l - t)
    && (l > E <==> n >= Threshold(t, E))
    && (l > E <==> m * Pow2(l - t) >= Pow2(E))
  }

  /** The guarded increment with renormalization is a nearest value, and overflows when it should. */
  lemma {:induction false} RoundingResult(t: nat, E: nat, n: nat, L: nat, q: nat, up: bool, m: nat, l: nat)
    requires 1 < t < E && L > t && Pow2(L - 1) <= n < Pow2(L) && q == n / Pow2(L - t)
    requires up <==> Bit(n, L - t - 1) && (n % Pow2(L - t - 1) != 0 || q % 2 == 1)
    requires m == if !up then q else if q + 1 == Pow2(t) then Pow2(t - 1) else q + 1
    requires l == if up && q + 1 == Pow2(t) then L + 1 else L
    ensures Rounding(t, E, n, m, l)
  {
    QuotientRange(n, t, L - t);
    GuardAndSticky(n, L - t);
    OverflowAt(t, n, L, l > L, E);
    NearestPair(t, n, L - t, m, l - t);
    CarriedValue(t, 0);
    LengthDecides(t, m, l, E);
  }

  lemma {:induction false} CarryFrom(n: nat, d: nat, t: nat)
    requires d > 0 && t > 0 && n < Pow2(t + d)
    ensures Rounded(n, d) == Pow2(t) <==> n >= Pow2(t + d) - Pow2(d - 1)
  {
    var P, T := Pow2(d), Pow2(t);
    assert n == n / P * P + n % P;
    Quotient(n, P);
    Pow2Add(t, d);
    assert T == 2 * Pow2(t - 1);
    CarryAt(n, n / P, n % P, P, T, Rounded(n, d));
  }

  lemma CarryAt(n: nat, q: nat, r: nat, P: nat, T: nat, m: nat)
    requires n == q * P + r && r < P && P % 2 == 0 && T % 2 == 0 && n < T * P && T > 0
    requires m == if r > P / 2 || (r == P / 2 && q % 2 == 1) then q + 1 else q
    ensures m == T <==> n >= T * P - P / 2
  {
    ScaledLess(q, T, P);
    if q == T - 1 {
      SplitMul(T, -1, P);
    } else {
      MulMono(q + 2, T, P);
      SplitMul(q, 2, P);
    }
  }

  /** The result stands for the magnitude n with the given sign. */
  ghost predicate RoundsTo(n: nat, negative: bool, r: Double) {
    && (negative ==> r.significand < 0)
    && (!negative ==> r.significand >= 0)
    && Nearest(PRECISION, n, if negative then -r.significand else r.significand, r.exponent)
  }

  /** The magnitude of r, below the overflow limit. */
  ghost predicate BelowLimit(r: Double) {
    (if r.significand < 0 then -r.significand else r.significand) * Pow2(r.exponent) < Pow2(MAX_EXP)
  }

  /** Some nearest value of n reaches the overflow limit. */
  ghost predicate RoundsBeyond(n: nat) {
    exists m: nat, e: nat :: Nearest(PRECISION, n, m, e) && m * Pow2(e) >= Pow2(MAX_EXP)
  }

  /** A t-bit significand, at its full length l, against 2^E. */
  lemma {:induction false} LengthDecides(t: nat, m: nat, l: nat, E: nat)
    requires 0 < t <= l && Pow2(t - 1) <= m < Pow2(t)
    ensures m * Pow2(l - t) < Pow2(E) <==> l <= E
  {
    Pow2Add(t, l - t);
    Pow2Add(t - 1, l - t);
    MulMono(m + 1, Pow2(t), Pow2(l - t));
    MulMono(Pow2(t - 1), m, Pow2(l - t));
    SplitMul(m, 1, Pow2(l - t));
    if l <= E {
      Pow2Mono(l, E);
    } else {
      Pow2Mono(E, l - 1);
    }
  }

  /** Rounds to nearest, ties to even; fails exactly when the rounded magnitude reaches 2^1024. */
  method ToDouble(view: Num) returns (r: Outcome<Double>)
    requires Normalized(view)
    ensures r.OverflowError? <==> Abs(view) >= OverflowThreshold()
    ensures !r.OverflowError? ==> r.Ok? && RoundsTo(Abs(view), view.signum < 0, r.value) && BelowLimit(r.value)
    ensures r.OverflowError? ==> RoundsBeyond(Abs(view))
  {
    var negative := view.signum < 0;
    var bitLength := AbsBitLength(view);
    var mantissa: DoubleDigit;
    NormalizedPositive(view);
    if bitLength <= PRECISION {
      SmallIsExact(Abs(view), bitLength);
      if view.signum == 0 {
        return Ok(Double(0, 0));
      }
      mantissa := AbsTopBits(view, bitLength, bitLength);
      return Ok(Double(if negative then -(mantissa as int) else mantissa, 0));
    }
    mantissa, bitLength := RoundMagnitude(view, bitLength);
    LengthVerdict(Abs(view), mantissa, bitLength, negative);
    if bitLength > MAX_EXP {
      return OverflowError;
    }
    return Ok(Double(if negative then -(mantissa as int) else mantissa, bitLength - PRECISION));
  }

  /** What the length of the rounded significand says about the result. */
  lemma {:induction false} LengthVerdict(n: nat, m: nat, l: nat, negative: bool)
    requires Rounding(PRECISION, MAX_EXP, n, m, l)
    ensures l > MAX_EXP <==> n >= OverflowThreshold()
    ensures l > MAX_EXP ==> RoundsBeyond(n)
    ensures var d := Double(if negative then -(m as int) else m, l - PRECISION);
      RoundsTo(n, negative, d) && (l <= MAX_EXP ==> BelowLimit(d))
  {
    assert Nearest(PRECISION, n, m, l - PRECISION);
  }

  method RoundMagnitude(view: Num, bitLength: nat) returns (m: DoubleDigit, l: nat)
    requires Normalized(view) && bitLength == AbsBitLength(view) && bitLength > PRECISION
    ensures Rounding(PRECISION, MAX_EXP, Abs(view), m, l)
  {
    var discarded := bitLength - PRECISION;
    m := AbsTopBits(view, bitLength, PRECISION);
    var guard := AbsBit(view, discarded - 1);
    var sticky := false;
    if discarded > 1 {
      sticky := AbsAnyBitsBelow(view, discarded - 1);
    }
    m, l := RoundUp(m, guard, sticky, bitLength, Abs(view));
  }

  lemma {:induction false} SmallIsExact(n: nat, L: nat)
    requires L <= PRECISION && n < Pow2(L)
    ensures Nearest(PRECISION, n, n, 0) && n < OverflowThreshold() && n / Pow2(0) == n
    ensures n * Pow2(0) < Pow2(MAX_EXP)
  {
    Pow2Mono(L, PRECISION);
    ExactIsNearest(PRECISION, n);
    BelowThreshold(PRECISION, MAX_EXP);
    assert n * Pow2(0) == n;
  }

  lemma {:induction false} BelowThreshold(t: nat, E: nat)
    requires t < E
    ensures Pow2(t) <= Threshold(t, E)
  {
    Pow2Mono(t, E - 1);
    Pow2Mono(E - t - 1, E - 1);
    assert Pow2(E) == 2 * Pow2(E - 1);
  }

  /** The guarded increment and the renormalization of a carried-out significand. */
  method RoundUp(mantissa: DoubleDigit, guard: bool, sticky: bool, bitLength: nat, ghost n: nat)
    returns (m: DoubleDigit, l: nat)
    requires bitLength > PRECISION && Pow2(bitLength - 1) <= n < Pow2(bitLength)
    requires mantissa == n / Pow2(bitLength - PRECISION)
    requires guard == Bit(n, bitLength - PRECISION - 1)
    requires sticky <==> bitLength - PRECISION > 1 && n % Pow2(bitLength - PRECISION - 1) != 0
    ensures Rounding(PRECISION, MAX_EXP, n, m, l)
  {
    m, l := mantissa, bitLength;
    SignificandRange(n, bitLength);
    ghost var up := guard && (sticky || mantissa % 2 == 1);
    if guard && (sticky || mantissa % 2 == 1) {
      m := m + 1;
      if m == 0x20_0000_0000_0000 {
        m := m / 2;
        l := l + 1;
      }
    }
    RoundingResult(PRECISION, MAX_EXP, n, bitLength, mantissa, up, m, l);
  }

  lemma {:induction false} SignificandRange(n: nat, L: nat)
    requires L > PRECISION && Pow2(L - 1) <= n < Pow2(L)
    ensures n / Pow2(L - PRECISION) < Pow2(PRECISION) == 0x20_0000_0000_0000
    ensures Pow2(PRECISION - 1) == 0x10_0000_0000_0000
  {
    QuotientRange(n, PRECISION, L - PRECISION);
    Pow2Precision();
  }

  lemma {:induction false} Pow2Precision()
    ensures Pow2(PRECISION) == 0x20_0000_0000_0000 == 2 * Pow2(PRECISION - 1)
  {
    Pow2Word();
    Pow2Add(32, 21);
    Pow2Add(10, 11);
    assert Pow2(10) == 1024 && Pow2(11) == 2048;
  }

  lemma {:induction false} QuotientRange(n: nat, t: nat, d: nat)
    requires t > 0 && Pow2(t - 1 + d) <= n < Pow2(t + d)
    ensures Pow2(t - 1) <= n / Pow2(d) < Pow2(t)
  {
    Pow2Add(t, d);
    Pow2Add(t - 1, d);
    QuotientBetween(n, Pow2(d), Pow2(t - 1), Pow2(t));
  }

  lemma QuotientBetween(n: int, P: int, lo: int, hi: int)
    requires P > 0 && lo * P <= n < hi * P
    ensures lo <= n / P < hi
  {
    var q := n / P;
    assert n == q * P + n % P;
    ScaledLess(q, hi, P);
    SplitMul(q, 1, P);
    ScaledLess(lo, q + 1, P);
  }
}
