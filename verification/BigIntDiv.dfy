/** Division of magnitudes: by one digit, by a normalized divisor in place, and in general. */
module BigIntDiv {
  import opened Digits
  import opened Bits
  import opened BigIntViews
  import opened BigIntAddMul
  import opened BigIntShift
  import opened BigIntTrial

  method DivmodAbsByU32(quotient: MutView, dividend: Num, divisor: Digit) returns (rem: Digit)
    requires Normalized(dividend) && 0 <= dividend.signum <= 1 && divisor != 0
    requires |dividend.digits| <= quotient.digits.Length
    modifies quotient, quotient.digits
    ensures quotient.Valid() && Normalized(quotient.View()) && 0 <= quotient.signum <= 1
    ensures Abs(dividend) == Abs(quotient.View()) * divisor + rem && rem < divisor
    ensures quotient.n <= |dividend.digits|
  {
    var l, a := dividend.digits, quotient.digits;
    rem := 0;
    var k := |l|;
    while k > 0
      invariant 0 <= k <= |l| && rem < divisor
      invariant Val(l[k..]) == Val(a[k..|l|]) * divisor + rem
    {
      ghost var high, done := l[k..], a[k..|l|];
      var accumulator: DoubleDigit := rem * B + l[k - 1];
      DigitQuotient(rem, l[k - 1], divisor);
      var d: Digit := accumulator / divisor;
      var next: Digit := accumulator % divisor;
      a[k - 1] := d;
      assert a[k - 1..|l|] == [d] + done && l[k - 1..] == [l[k - 1]] + high;
      NextQuotientDigit(l[k - 1], high, d, done, rem, next, divisor);
      rem := next;
      k := k - 1;
    }
    quotient.n := |l|;
    quotient.signum := if |l| == 0 then 0 else 1;
    assert l[0..] == l && a[0..|l|] == a[..|l|];
    quotient.Normalize();
  }

  /** One more digit of dividend and quotient. */
  lemma {:induction false} NextQuotientDigit(x: Digit, high: seq<Digit>, d: Digit, done: seq<Digit>, rem: Digit,
      next: Digit, divisor: Digit)
    requires Val(high) == Val(done) * divisor + rem && d * divisor + next == rem * B + x
    ensures Val([x] + high) == Val([d] + done) * divisor + next
  {
    ValCons([x] + high);
    ValCons([d] + done);
    assert ([x] + high)[1..] == high && ([d] + done)[1..] == done;
    RightStep(x, d, Val(high), Val(done), rem, next, divisor);
  }

  lemma DigitQuotient(rem: int, x: Digit, divisor: Digit)
    requires 0 <= rem < divisor
    ensures 0 <= (rem * B + x) / divisor < B
    ensures (rem * B + x) / divisor * divisor + (rem * B + x) % divisor == rem * B + x
    ensures 0 <= (rem * B + x) % divisor < divisor
  {
    var q := (rem * B + x) / divisor;
    assert rem * B + x == q * divisor + (rem * B + x) % divisor;
    if q >= B {
      MulMono(B, q, divisor);
    } else if q < 0 {
      MulMono(q, -1, divisor);
    }
  }

  /** The top bit of the top digit is set. */
  predicate TopBitSet(v: Num) {
    Normalized(v) && v.signum == 1 && v.digits[|v.digits| - 1] >= 0x8000_0000
  }

  lemma {:induction false} TwoTopDigits(s: seq<Digit>, k: nat)
    requires |s| == k + 2
    ensures Val(s) == (s[k + 1] * B + s[k]) * BPow(k) + Low(s, k)
    ensures Low(s, k) < BPow(k)
  {
    LowBound(s, k);
    assert Low(s, k + 2) == Low(s, k) + s[k] * BPow(k) + s[k + 1] * (B * BPow(k));
    SplitMul(s[k + 1] * B, s[k], BPow(k));
    ScaleSum(BPow(k), 0, s[k + 1], B);
  }

  lemma {:induction false} LeadingOfDigits(u: seq<Digit>, v: seq<Digit>)
    requires |v| >= 2 && |u| == |v| + 1 && v[|v| - 1] >= 0x8000_0000 && Val(u) < Val(v) * B
    ensures Leading(Val(u), Val(v), u[|v|], u[|v| - 1], u[|v| - 2], v[|v| - 1], v[|v| - 2], BPow(|v| - 2))
  {
    var k := |v| - 2;
    var p := BPow(k);
    TwoTopDigits(v, k);
    SplitMul(v[k + 1] * B + v[k], 1, p);
    ThreeTopDigits(u, k);
    SplitMul(u[k + 2] * B * B + u[k + 1] * B + u[k], 1, p);
  }

  lemma {:induction false} ThreeTopDigits(u: seq<Digit>, k: nat)
    requires |u| == k + 3
    ensures Val(u) == (u[k + 2] * B * B + u[k + 1] * B + u[k]) * BPow(k) + Low(u, k)
    ensures Low(u, k) < BPow(k)
  {
    var p := BPow(k);
    TwoTopDigits(u[..k + 2], k);
    LowTake(u, k + 2);
    LowCongruent(u[..k + 2], u, k);
    LowBound(u, k);
    assert Val(u) == Low(u, k + 2) + u[k + 2] * BPow(k + 2);
    assert BPow(k + 2) == B * (B * p);
    assert u[k + 2] * (B * (B * p)) == u[k + 2] * B * B * p;
    SplitMul(u[k + 2] * B * B, u[k + 1] * B + u[k], p);
  }

  /** For a one-digit divisor the digit below the segment takes the place of the third digit. */
  lemma {:induction false} LeadingOfOneDigit(u: seq<Digit>, v: seq<Digit>, u2: Digit)
    requires |v| == 1 && |u| == 2 && v[0] >= 0x8000_0000 && Val(u) < Val(v) * B
    ensures Leading(Val(u) * B + u2, Val(v) * B, u[1], u[0], u2, v[0], 0, 1)
    ensures (Val(u) * B + u2) / (Val(v) * B) == Val(u) / Val(v)
  {
    ValCons(v);
    ValCons(u);
    ValCons(u[1..]);
    DivDiv(Val(u) * B + u2, B, Val(v));
  }

  /** The trial digit for the segment u, whatever the length of the divisor. */
  method SegmentTrialDigit(u: seq<Digit>, v: seq<Digit>, u2: Digit) returns (qHat: Digit)
    requires |v| >= 1 && |u| == |v| + 1 && v[|v| - 1] >= 0x8000_0000 && Val(u) < Val(v) * B
    requires |v| >= 2 ==> u2 == u[|v| - 2]
    ensures Val(v) > 0 && Val(u) / Val(v) <= qHat <= Val(u) / Val(v) + 1
  {
    var n := |v|;
    if n >= 2 {
      LeadingOfDigits(u, v);
      qHat := TrialDigit(u[n], u[n - 1], u2, v[n - 1], v[n - 2], Val(u), Val(v), BPow(n - 2));
    } else {
      LeadingOfOneDigit(u, v, u2);
      qHat := TrialDigit(u[1], u[0], u2, v[0], 0, Val(u) * B + u2, Val(v) * B, 1);
    }
  }

  /** Multiply back and fix up: with the trial digit at most one above the true digit, at most one
      correction is ever made. */
  method FixUp(product: MutView, segment: Num, divisor: Num, trial: Digit, ghost digit: nat)
    returns (q: Digit, ghost corrections: nat)
    requires Normalized(segment) && 0 <= segment.signum <= 1
    requires Normalized(divisor) && divisor.signum == 1 && |divisor.digits| < product.digits.Length
    requires Abs(divisor) * digit <= Abs(segment) < Abs(divisor) * digit + Abs(divisor)
    requires digit <= trial <= digit + 1
    modifies product, product.digits
    ensures q == digit
    ensures corrections <= 1
    ensures product.Valid() && Normalized(product.View()) && Abs(product.View()) == Abs(divisor) * q
  {
    q, corrections := trial, 0;
    AbsMulDigitInto(product, divisor, q);
    var c := CompareAbs(segment, product.View());
    while c < 0
      invariant digit <= q && q + corrections == trial
      invariant product.Valid() && Normalized(product.View()) && Abs(product.View()) == Abs(divisor) * q
      invariant c < 0 <==> Abs(segment) < Abs(product.View())
      decreases q
    {
      AboveTrue(Abs(segment), Abs(divisor), digit, q);
      q := q - 1;
      corrections := corrections + 1;
      AbsMulDigitInto(product, divisor, q);
      c := CompareAbs(segment, product.View());
    }
    NotAboveTrue(Abs(segment), Abs(divisor), digit, q);
  }

  lemma AboveTrue(U: nat, V: nat, digit: nat, q: nat)
    requires V * digit <= U < V * q
    ensures digit < q
  {
    if q <= digit {
      MulMono(q, digit, V);
    }
  }

  lemma NotAboveTrue(U: nat, V: nat, digit: nat, q: nat)
    requires V * q <= U < V * digit + V
    ensures q <= digit
  {
    if q > digit {
      MulMono(digit + 1, q, V);
      SplitMul(digit, 1, V);
    }
  }

  lemma DivMod(U: nat, V: nat) returns (digit: nat)
    requires V > 0
    ensures digit == U / V && V * digit <= U < V * digit + V
  {
    Quotient(U, V);
    digit := U / V;
    assert U == digit * V + U % V;
  }

  /** One round: the quotient digit of the segment a[j..j + n + 1], which becomes the remainder. */
  method DivideSegment(a: array<Digit>, j: nat, divisor: Num, product: MutView) returns (q: Digit)
    requires TopBitSet(divisor) && |divisor.digits| < product.digits.Length && product.digits != a
    requires j + |divisor.digits| + 1 <= a.Length
    requires Val(a[j..j + |divisor.digits| + 1]) < Abs(divisor) * B
    modifies a, product, product.digits
    ensures Abs(divisor) > 0
    ensures old(Val(a[j..j + |divisor.digits| + 1])) == q * Abs(divisor) + Val(a[j..j + |divisor.digits| + 1])
    ensures Val(a[j..j + |divisor.digits| + 1]) < Abs(divisor)
    ensures a[..j] == old(a[..j])
    ensures a[j + |divisor.digits| + 1..] == old(a[j + |divisor.digits| + 1..])
  {
    var n := |divisor.digits|;
    var u := a[j..j + n + 1];
    var u2: Digit := if j + n >= 2 then a[j + n - 2] else 0;
    var trial := SegmentTrialDigit(u, divisor.digits, u2);
    var segment := NormalizeView(Num(1, u));
    ghost var corrections: nat;
    ghost var digit := DivMod(Val(u), Abs(divisor));
    q, corrections := FixUp(product, segment, divisor, trial, digit);
    SubtractSegment(a, j, u, segment, product.View());
    Leftover(Val(u), Abs(divisor), q);
  }

  lemma Leftover(U: nat, V: nat, q: nat)
    requires V * q <= U < V * q + V
    ensures U == q * V + (U - V * q) && U - V * q < V
  {}

  /** Subtracts the product from the normalized part of the segment; the zeros above stay. */
  method SubtractSegment(a: array<Digit>, j: nat, u: seq<Digit>, segment: Num, product: Num)
    requires j + |u| <= a.Length && u == a[j..j + |u|]
    requires Normalized(segment) && segment.digits <= u && Abs(segment) == Val(u)
    requires Normalized(product) && Abs(product) <= Val(u)
    modifies a
    ensures Val(a[j..j + |u|]) == Val(u) - Abs(product)
    ensures a[..j] == old(a[..j]) && a[j + |u|..] == old(a[j + |u|..])
  {
    var len := |segment.digits|;
    LengthMonotone(product, segment);
    assert a[j..j + len] == segment.digits;
    ghost var before := a[..];
    var n, signum := AbsSubAliasLeft(a, j, len, product.digits);
    Windows(before, a[..], j, |u|, len);
    SameHigh(u, a[j..j + |u|], len, segment.digits);
  }

  /** Two contents that agree from j + len on, seen through the window of n digits at j. */
  lemma Windows(s: seq<Digit>, t: seq<Digit>, j: nat, n: nat, len: nat)
    requires len <= n && j + n <= |s| == |t| && s[j + len..] == t[j + len..]
    ensures s[j + n..] == t[j + n..]
    ensures t[j..j + n][..len] == t[j..j + len]
    ensures s[j..j + n][len..] == t[j..j + n][len..]
  {
    assert s[j + n..] == s[j + len..][n - len..] && t[j + n..] == t[j + len..][n - len..];
    assert s[j..j + n][len..] == s[j + len..][..n - len] && t[j..j + n][len..] == t[j + len..][..n - len];
  }

  lemma {:induction false} SameHigh(u: seq<Digit>, after: seq<Digit>, len: nat, low: seq<Digit>)
    requires len <= |u| == |after| && u[len..] == after[len..] && low == u[..len]
    ensures Val(after) - Val(after[..len]) == Val(u) - Val(low)
  {
    ValSplit(u, len);
    ValSplit(after, len);
  }

  /** After the digits from j up are done: the dividend D is the quotient digits qs so far, at
      weight B^j, times the divisor, plus the current contents s; and above j only a proper
      remainder is left. */
  ghost predicate Divided(D: nat, s: seq<Digit>, qs: seq<Digit>, v: seq<Digit>, j: nat) {
    && j + |v| <= |s|
    && Val(s[j..j + |v|]) < Val(v)
    && (forall k :: j + |v| <= k < |s| ==> s[k] == 0)
    && D == Val(qs) * Val(v) * BPow(j) + Val(s)
  }

  lemma {:induction false} SegmentValue(s: seq<Digit>, j: nat, k: nat)
    requires j + k <= |s| && forall i :: j + k <= i < |s| ==> s[i] == 0
    ensures Val(s) == Low(s, j) + BPow(j) * Val(s[j..j + k])
  {
    LowZeros(s, j + k, |s|);
    LowSplit(s, j, k);
    LowCongruent(s[j..], s[j..j + k], k);
  }

  /** The next segment is small enough for a trial digit. */
  lemma {:induction false} SegmentBound(D: nat, s: seq<Digit>, qs: seq<Digit>, v: seq<Digit>, j: nat)
    requires j > 0 && Divided(D, s, qs, v, j)
    ensures Val(s[j - 1..j + |v|]) < Val(v) * B
  {
    var u := s[j - 1..j + |v|];
    ValCons(u);
    assert u[1..] == s[j..j + |v|];
  }

  lemma RoundArithmetic(Q: int, q: int, V: int, p: int, U: int, R: int)
    requires U == q * V + R
    ensures Q * V * (B * p) + p * U == (q + B * Q) * V * p + p * R
  {
    ScaleSum(p, R, q, V);
    assert q * V * p == q * (p * V);
    SplitMul(q, B * Q, V);
    SplitMul(q * V, B * Q * V, p);
    assert B * Q * V * p == Q * V * (B * p);
  }

  /** One round preserves the division equation. */
  lemma {:induction false} DividedStep(D: nat, s: seq<Digit>, s': seq<Digit>, qs: seq<Digit>, q: Digit,
      v: seq<Digit>, j: nat)
    requires j > 0 && |v| > 0 && Divided(D, s, qs, v, j) && |s'| == |s|
    requires s'[..j - 1] == s[..j - 1] && s'[j + |v|..] == s[j + |v|..]
    requires Val(s[j - 1..j + |v|]) == q * Val(v) + Val(s'[j - 1..j + |v|])
    requires Val(s'[j - 1..j + |v|]) < Val(v)
    ensures Divided(D, s', [q] + qs, v, j - 1)
  {
    var n := |v|;
    var u, u' := s[j - 1..j + n], s'[j - 1..j + n];
    assert forall k :: j + n <= k < |s| ==> s'[k] == s'[j + n..][k - (j + n)] == s[j + n..][k - (j + n)] == s[k];
    SegmentValue(s, j - 1, n + 1);
    SegmentValue(s', j - 1, n + 1);
    LowTake(s, j - 1);
    LowTake(s', j - 1);
    ValCons([q] + qs);
    RoundArithmetic(Val(qs), q, Val(v), BPow(j - 1), Val(u), Val(u'));
    RemainderFits(u', v);
    assert u'[..n] == s'[j - 1..j - 1 + n];
  }

  /** A remainder below the divisor leaves its extra top digit zero. */
  lemma {:induction false} RemainderFits(u: seq<Digit>, v: seq<Digit>)
    requires |u| == |v| + 1 && Val(u) < Val(v)
    ensures u[|v|] == 0 && Val(u[..|v|]) == Val(u)
  {
    LowBound(v, |v|);
    ValTop(u);
    if u[|v|] >= 1 {
      MulMono(1, u[|v|], BPow(|v|));
    }
    LowTake(u, |v|);
  }

  /** Contents that agree below i and from k on agree there within the first N digits. */
  lemma SamePrefix(s: seq<Digit>, t: seq<Digit>, N: nat, i: nat, k: nat)
    requires i <= k <= N <= |s| == |t| && s[..i] == t[..i] && s[k..] == t[k..]
    ensures s[..N][..i] == t[..N][..i] && s[..N][k..] == t[..N][k..]
  {
    assert s[..N][..i] == s[..i] && t[..N][..i] == t[..i];
    assert s[..N][k..] == s[k..][..N - k] && t[..N][k..] == t[k..][..N - k];
  }

  lemma Segment(s: seq<Digit>, N: nat, i: nat, k: nat)
    requires i <= k <= N <= |s|
    ensures s[..N][i..k] == s[i..k]
  {}

  /** One round of the loop over quotient digits, from j to j - 1. */
  method Round(a: array<Digit>, N: nat, qd: array<Digit>, j: nat, m: nat, divisor: Num, product: MutView, ghost D: nat)
    requires TopBitSet(divisor) && |divisor.digits| < product.digits.Length
    requires a != qd && a != product.digits && qd != product.digits
    requires N <= a.Length && 0 < j <= m <= qd.Length
    requires Divided(D, a[..N], qd[j..m], divisor.digits, j)
    modifies a, qd, product, product.digits
    ensures Divided(D, a[..N], qd[j - 1..m], divisor.digits, j - 1)
  {
    var n := |divisor.digits|;
    ghost var before, qs := a[..], qd[j..m];
    ghost var s := before[..N];
    assert s == a[..N];
    SegmentBound(D, s, qs, divisor.digits, j);
    Segment(before, N, j - 1, j + n);
    assert a[j - 1..j - 1 + n + 1] == before[j - 1..j + n];
    var q := DivideSegment(a, j - 1, divisor, product);
    ghost var after := a[..];
    Segment(after, N, j - 1, j + n);
    SamePrefix(before, after, N, j - 1, j + n);
    assert after[j - 1..j + n] == a[j - 1..j - 1 + n + 1];
    DividedStep(D, s, after[..N], qs, q, divisor.digits, j);
    qd[j - 1] := q;
    assert qd[j - 1..m] == [q] + qs;
    assert a[..N] == after[..N];
  }

  /** Long division in place. The dividend's leading digits must be below the divisor. */
  method DivmodNormalizedDigits(qd: array<Digit>, a: array<Digit>, N: nat, divisor: Num)
    requires TopBitSet(divisor) && |divisor.digits| < N <= a.Length && qd != a
    requires N - |divisor.digits| <= qd.Length
    requires Val(a[N - |divisor.digits|..N]) < Abs(divisor)
    modifies qd, a
    ensures Divided(old(Val(a[..N])), a[..N], qd[..N - |divisor.digits|], divisor.digits, 0)
  {
    var n := |divisor.digits|;
    var product := new MutView(n + 1);
    var m := N - n;
    var j := m;
    ghost var D := Val(a[..N]);
    assert qd[j..m] == [];
    assert Val(qd[j..m]) * Abs(divisor) * BPow(j) == 0;
    assert a[..N][j..j + n] == a[N - n..N];
    while j > 0
      invariant 0 <= j <= m
      invariant Divided(D, a[..N], qd[j..m], divisor.digits, j)
    {
      Round(a, N, qd, j, m, divisor, product, D);
      j := j - 1;
    }
    assert qd[0..m] == qd[..m];
  }

  /** The demand on the leading digits is exact: without it the quotient has more digits than the
      long division writes. */
  lemma {:induction false} QuotientFits(s: seq<Digit>, v: seq<Digit>)
    requires |v| <= |s| && Val(v) > 0
    ensures Val(s) / Val(v) < BPow(|s| - |v|) <==> Val(s[|s| - |v|..]) < Val(v)
  {
    var m := |s| - |v|;
    var p, low, high, V := BPow(m), Val(s[..m]), Val(s[m..]), Val(v);
    ValSplit(s, m);
    LowBound(s[..m], m);
    FitsExactly(Val(s), V, p, low, high);
  }

  lemma FitsExactly(n: nat, V: nat, p: nat, low: nat, high: nat)
    requires V > 0 && low < p && n == low + p * high
    ensures n / V < p <==> high < V
  {
    var q := n / V;
    Quotient(n, V);
    assert n == q * V + n % V;
    if high < V {
      MulMono(high + 1, V, p);
      SplitMul(high, 1, p);
      ScaledLess(q, p, V);
    } else {
      MulMono(V, high, p);
      if q < p {
        MulMono(q + 1, p, V);
        SplitMul(q, 1, V);
      }
    }
  }

  /** Division by a divisor whose top bit is set; the digits of `dividend` are consumed. */
  method DivmodNormalizedInto(quotient: MutView, remainder: MutView, dividend: MutView, divisor: Num)
    requires TopBitSet(divisor) && dividend.Valid() && |divisor.digits| < dividend.n
    requires quotient != remainder && quotient.digits != remainder.digits
    requires quotient.digits != dividend.digits && remainder.digits != dividend.digits
    requires dividend.n - |divisor.digits| <= quotient.digits.Length
    requires |divisor.digits| <= remainder.digits.Length
    requires Val(dividend.digits[dividend.n - |divisor.digits|..dividend.n]) < Abs(divisor)
    modifies quotient, quotient.digits, remainder, remainder.digits, dividend.digits
    ensures quotient.Valid() && Normalized(quotient.View()) && 0 <= quotient.signum <= 1
    ensures remainder.Valid() && Normalized(remainder.View()) && 0 <= remainder.signum <= 1
    ensures old(Val(dividend.digits[..dividend.n]))
         == Abs(quotient.View()) * Abs(divisor) + Abs(remainder.View())
    ensures Abs(remainder.View()) < Abs(divisor)
  {
    var n, N := |divisor.digits|, dividend.n;
    ghost var D := Val(dividend.digits[..N]);
    DivmodNormalizedDigits(quotient.digits, dividend.digits, N, divisor);
    ghost var qs := quotient.digits[..N - n];
    quotient.n, quotient.signum := N - n, 1;
    quotient.Normalize();
    var rest := NormalizeView(Num(1, dividend.digits[..N]));
    DividedAll(D, dividend.digits[..N], qs, divisor.digits);
    NormalizedPositive(divisor);
    LengthBound(rest, n);
    remainder.CopyFrom(rest);
  }

  lemma {:induction false} DividedAll(D: nat, s: seq<Digit>, qs: seq<Digit>, v: seq<Digit>)
    requires Divided(D, s, qs, v, 0)
    ensures D == Val(qs) * Val(v) + Val(s) && Val(s) < Val(v)
  {
    SegmentValue(s, 0, |v|);
    assert s[0..0 + |v|] == s[0..|v|];
  }

  /** The number of leading zero bits of a nonzero digit. */
  function LeadingZeros(d: Digit): (s: nat)
    requires d != 0
    ensures 0x8000_0000 <= d * Pow2(s) < B
    decreases B - d
  {
    if d >= 0x8000_0000 then 0 else
      var t := LeadingZeros(2 * d);
      assert 2 * d * Pow2(t) == d * Pow2(t + 1);
      t + 1
  }

  lemma {:induction false} LeadingZerosFewerThanWord(d: Digit)
    requires d != 0
    ensures LeadingZeros(d) < 32
  {
    var s := LeadingZeros(d);
    MulMono(1, d, Pow2(s));
    Pow2Word();
    if s >= 32 {
      Pow2Mono(32, s);
    }
  }

  lemma {:induction false} TopDigitAtLeast(s: seq<Digit>, t: Digit)
    requires |s| > 0 && Val(s) >= t * BPow(|s| - 1)
    ensures s[|s| - 1] >= t
  {
    ValTop(s);
    var top: int := s[|s| - 1];
    ScaledLess(t, top + 1, BPow(|s| - 1));
  }

  /** Shifting left until the top bit is set does not overflow the digit. */
  lemma {:induction false} NextFits(d: Digit)
    requires d != 0
    ensures (d + 1) * Pow2(LeadingZeros(d)) <= B
  {
    LeadingZerosFewerThanWord(d);
    var s := LeadingZeros(d);
    if s > 0 {
      Pow2Halves(s);
      NextMultiple(d, Pow2(s), Pow2(32 - s));
    }
  }

  lemma NextMultiple(d: int, P: int, Q: int)
    requires P > 0 && P * Q == B && d * P < B
    ensures (d + 1) * P <= B
  {
    ScaledLess(d, Q, P);
    MulMono(d + 1, Q, P);
  }

  lemma ShiftedBounds(V: int, top: int, P: int, p: int)
    requires top * p <= V < (top + 1) * p && P > 0 && p > 0
    requires 0x8000_0000 <= top * P && (top + 1) * P <= B
    ensures 0x8000_0000 * p <= V * P < B * p
  {
    MulMono(top * p, V, P);
    MulMono(0x8000_0000, top * P, p);
    assert top * p * P == top * P * p;
    MulMono(V + 1, (top + 1) * p, P);
    SplitMul(V, 1, P);
    MulMono((top + 1) * P, B, p);
    assert (top + 1) * p * P == (top + 1) * P * p;
  }

  /** The shifted divisor keeps its length and has its top bit set. */
  lemma {:induction false} ShiftedDivisor(divisor: Num, shifted: Num)
    requires Normalized(divisor) && divisor.signum == 1 && Normalized(shifted) && shifted.signum == 1
    requires Abs(shifted) == Abs(divisor) * Pow2(LeadingZeros(divisor.digits[|divisor.digits| - 1]))
    ensures |shifted.digits| == |divisor.digits| && TopBitSet(shifted)
  {
    var d, n := divisor.digits, |divisor.digits|;
    var top := d[n - 1];
    var P := Pow2(LeadingZeros(top));
    ValTop(d);
    NextFits(top);
    ShiftedBounds(Val(d), top, P, BPow(n - 1));
    LengthFromBounds(shifted, n);
  }

  lemma {:induction false} LengthFromBounds(v: Num, n: nat)
    requires Normalized(v) && v.signum == 1 && n > 0
    requires 0x8000_0000 * BPow(n - 1) <= Abs(v) < B * BPow(n - 1)
    ensures |v.digits| == n && TopBitSet(v)
  {
    LengthBound(v, n);
    NormalizedPositive(v);
    if |v.digits| < n {
      BPowMono(|v.digits|, n - 1);
    }
    TopDigitAtLeast(v.digits, 0x8000_0000);
  }

  /** A top digit below 2^31 makes the leading digits smaller than any divisor with its top bit set. */
  lemma {:induction false} LeadingBelowDivisor(s: seq<Digit>, v: Num)
    requires TopBitSet(v) && |s| == |v.digits| && s[|s| - 1] < 0x8000_0000
    ensures Val(s) < Abs(v)
  {
    ValTop(s);
    ValTop(v.digits);
    MulMono(s[|s| - 1] + 1, v.digits[|s| - 1], BPow(|s| - 1));
  }

  lemma UnshiftRemainder(D: nat, Q: nat, V: nat, R: nat, P: int)
    requires P > 0 && D * P == Q * (V * P) + R && R < V * P
    ensures D == Q * V + R / P && R / P < V
  {
    assert Q * (V * P) == Q * V * P;
    SplitMul(D, -(Q * V), P);
    var r := D - Q * V;
    assert R == r * P;
    DivUnique(R, P, r, 0);
    ScaledLess(r, V, P);
  }

  lemma {:induction false} BelowTopBit(s: nat)
    requires s < 32
    ensures Pow2(s) <= 0x8000_0000
  {
    Pow2Mono(s, 31);
    Pow2Word();
  }

  /** A scratch copy of the dividend, shifted, with one more digit than the dividend. */
  method ShiftDividend(dividend: Num, s: nat) returns (a: MutView)
    requires Normalized(dividend) && dividend.signum == 1 && s < 32
    ensures fresh(a) && fresh(a.digits) && a.Valid() && a.n == |dividend.digits| + 1
    ensures Val(a.digits[..a.n]) == Abs(dividend) * Pow2(s)
    ensures a.digits[a.n - 1] < 0x8000_0000
  {
    a := new MutView(|dividend.digits| + 1);
    ShiftLeftInto(a, dividend, s);
    ghost var digits := a.digits[..a.n];
    if a.n == |dividend.digits| {
      a.digits[a.n] := 0;
      a.n := a.n + 1;
      assert a.digits[..a.n] == digits + [0];
      ValSnoc(digits, 0);
    } else {
      BelowTopBit(s);
    }
  }

  /** A scratch copy of the divisor, shifted so that its top bit is set. */
  method ShiftDivisor(divisor: Num, s: nat) returns (v: Num)
    requires Normalized(divisor) && divisor.signum == 1
    requires s == LeadingZeros(divisor.digits[|divisor.digits| - 1])
    ensures TopBitSet(v) && |v.digits| == |divisor.digits| && Abs(v) == Abs(divisor) * Pow2(s)
  {
    LeadingZerosFewerThanWord(divisor.digits[|divisor.digits| - 1]);
    var b := new MutView(|divisor.digits| + 1);
    ShiftLeftInto(b, divisor, s);
    v := b.View();
    ShiftedDivisor(divisor, v);
  }

  /** dividend = quotient * divisor + remainder with 0 <= remainder < divisor. */
  method AbsDivmodInto(quotient: MutView, remainder: MutView, dividend: Num, divisor: Num)
    requires Normalized(dividend) && 0 <= dividend.signum <= 1
    requires Normalized(divisor) && divisor.signum == 1
    requires quotient != remainder && quotient.digits != remainder.digits
    requires Abs(dividend) < Abs(divisor) ==> |dividend.digits| <= remainder.digits.Length
    requires Abs(dividend) >= Abs(divisor) ==>
      |divisor.digits| <= remainder.digits.Length && |dividend.digits| - |divisor.digits| < quotient.digits.Length
    modifies quotient, quotient.digits, remainder, remainder.digits
    ensures quotient.Valid() && Normalized(quotient.View()) && 0 <= quotient.signum <= 1
    ensures remainder.Valid() && Normalized(remainder.View()) && 0 <= remainder.signum <= 1
    ensures Abs(dividend) == Abs(quotient.View()) * Abs(divisor) + Abs(remainder.View())
    ensures Abs(remainder.View()) < Abs(divisor)
  {
    NormalizedPositive(dividend);
    NormalizedPositive(divisor);
    var c := CompareAbs(dividend, divisor);
    if dividend.signum == 0 || c < 0 {
      quotient.SetZero();
      remainder.CopyFrom(dividend);
      return;
    }
    LengthMonotone(divisor, dividend);
    if |divisor.digits| == 1 {
      DivideByDigit(quotient, remainder, dividend, divisor);
      return;
    }
    DivideShifted(quotient, remainder, dividend, divisor);
  }

  /** Shifts both so that the divisor's top bit is set, divides, and shifts the remainder back. */
  method DivideShifted(quotient: MutView, remainder: MutView, dividend: Num, divisor: Num)
    requires Normalized(dividend) && dividend.signum == 1 && Normalized(divisor) && divisor.signum == 1
    requires quotient != remainder && quotient.digits != remainder.digits
    requires |divisor.digits| <= |dividend.digits| && |divisor.digits| <= remainder.digits.Length
    requires |dividend.digits| - |divisor.digits| < quotient.digits.Length
    modifies quotient, quotient.digits, remainder, remainder.digits
    ensures quotient.Valid() && Normalized(quotient.View()) && 0 <= quotient.signum <= 1
    ensures remainder.Valid() && Normalized(remainder.View()) && 0 <= remainder.signum <= 1
    ensures Abs(dividend) == Abs(quotient.View()) * Abs(divisor) + Abs(remainder.View())
    ensures Abs(remainder.View()) < Abs(divisor)
  {
    var s := LeadingZeros(divisor.digits[|divisor.digits| - 1]);
    LeadingZerosFewerThanWord(divisor.digits[|divisor.digits| - 1]);
    var a := ShiftDividend(dividend, s);
    var v := ShiftDivisor(divisor, s);
    LeadingBelowDivisor(a.digits[a.n - |v.digits|..a.n], v);
    var normalizedRemainder := new MutView(|divisor.digits| + 1);
    DivmodNormalizedInto(quotient, normalizedRemainder, a, v);
    var r := normalizedRemainder.View();
    UnshiftRemainder(Abs(dividend), Abs(quotient.View()), Abs(divisor), Abs(r), Pow2(s));
    LengthMonotone(r, v);
    ShiftRightAbsInto(remainder, r, s);
  }

  method DivideByDigit(quotient: MutView, remainder: MutView, dividend: Num, divisor: Num)
    requires Normalized(dividend) && 0 <= dividend.signum <= 1
    requires Normalized(divisor) && divisor.signum == 1 && |divisor.digits| == 1
    requires quotient != remainder && quotient.digits != remainder.digits
    requires |dividend.digits| <= quotient.digits.Length && 1 <= remainder.digits.Length
    modifies quotient, quotient.digits, remainder, remainder.digits
    ensures quotient.Valid() && Normalized(quotient.View()) && 0 <= quotient.signum <= 1
    ensures remainder.Valid() && Normalized(remainder.View()) && 0 <= remainder.signum <= 1
    ensures Abs(dividend) == Abs(quotient.View()) * Abs(divisor) + Abs(remainder.View())
    ensures Abs(remainder.View()) < Abs(divisor)
  {
    var rem := DivmodAbsByU32(quotient, dividend, divisor.digits[0]);
    OneDigitValue(divisor.digits);
    if rem == 0 {
      remainder.SetZero();
    } else {
      remainder.digits[0] := rem;
      remainder.n, remainder.signum := 1, 1;
      OneDigitValue(remainder.digits[..1]);
    }
  }

  lemma {:induction false} OneDigitValue(s: seq<Digit>)
    requires |s| == 1
    ensures Val(s) == s[0]
  {
    ValCons(s);
  }
}
