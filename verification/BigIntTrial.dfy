/** The trial quotient digit of long division (Algorithm D of Knuth, volume 2, section 4.3.1). */
module BigIntTrial {
  import opened Digits
  import opened BigIntAddMul

  /** What the trial digit looks at. The divisor V and the dividend segment U are cut into two,
      respectively three, leading digits and a rest below the weight p. */
  ghost predicate Leading(U: nat, V: nat, u0: Digit, u1: Digit, u2: Digit, v1: Digit, v2: Digit, p: nat) {
    && p > 0 && v1 >= 0x8000_0000
    && (v1 * B + v2) * p <= V < (v1 * B + v2 + 1) * p
    && ((u0 * B + u1) * B + u2) * p <= U < ((u0 * B + u1) * B + u2 + 1) * p
    && U < V * B
  }

  /** An integer order that survives scaling holds before scaling. */
  lemma ScaledLess(a: int, b: int, p: int)
    requires p > 0 && a * p < b * p
    ensures a < b
  {
    if a >= b {
      MulMono(b, a, p);
    }
  }

  /** The true digit is at most the quotient of the leading digits. */
  lemma TrueDigitBelow(U: nat, V: nat, W: nat, T: nat, p: nat, q: nat)
    requires p > 0 && W * p <= V && U < (T + 1) * p && q * V <= U
    ensures q * W <= T
  {
    MulMono(W * p, V, q);
    assert q * (W * p) == q * W * p;
    ScaledLess(q * W, T + 1, p);
  }

  /** A digit that passes the two-digit test exceeds the true digit by at most one. */
  lemma TrialDigitAbove(U: nat, V: nat, W: nat, T: nat, p: nat, qHat: nat)
    requires p > 0 && W >= B && W * p <= V < (W + 1) * p && T * p <= U
    requires qHat * W <= T && qHat < B
    ensures (qHat - 1) * V < U + 1
  {
    if qHat > 0 {
      MulMono(qHat * W, T, p);
      assert qHat * (W * p) == qHat * W * p;
      MulMono(V, (W + 1) * p, qHat);
      assert (W + 1) * p == W * p + p;
      assert qHat * (W * p + p) == qHat * (W * p) + qHat * p;
      MulMono(qHat, W, p);
      assert (qHat - 1) * V == qHat * V - V;
    } else {
      assert (0 - 1) * V == 0 - V;
    }
  }

  /** U < V * B bounds the leading digits: u0 does not exceed v1, and when they agree,
      the next digit does not exceed v2. */
  lemma LeadingBound(U: nat, V: nat, u0: Digit, u1: Digit, u2: Digit, v1: Digit, v2: Digit, p: nat)
    requires Leading(U, V, u0, u1, u2, v1, v2, p)
    ensures u0 < v1 || (u0 == v1 && u1 <= v2)
  {
    var W, T := v1 * B + v2, (u0 * B + u1) * B + u2;
    assert V * B < (W + 1) * p * B;
    assert (W + 1) * p * B == (W + 1) * B * p;
    ScaledLess(T, (W + 1) * B, p);
  }

  lemma TrueDigit(U: nat, V: nat) returns (q: nat)
    requires V > 0 && U < V * B
    ensures q == U / V && q * V <= U < (q + 1) * V && q < B
  {
    q := U / V;
    assert U == q * V + U % V;
    SplitMul(q, 1, V);
    ScaledLess(q, B, V);
  }

  lemma StartDigit(h: nat, u0: Digit, u1: Digit, v1: Digit, v2: Digit, u2: Digit, q: nat)
    requires v1 >= 0x8000_0000 && u0 <= v1 && h == u0 * B + u1
    requires q * (v1 * B + v2) <= h * B + u2
    ensures q <= h / v1 <= B + 1
    ensures h == h / v1 * v1 + h % v1
  {
    var k := h / v1;
    assert h == k * v1 + h % v1;
    if k >= B + 2 {
      MulMono(B + 2, k, v1);
    }
    ScaleSum(q, v2, v1, B);
    assert q * v2 >= 0;
    assert v1 * (q * B) == q * v1 * B;
    if q > k {
      MulMono(k + 1, q, v1);
      SplitMul(k, 1, v1);
    }
  }

  /** A rejected digit is above the true digit. */
  lemma Rejected(q: nat, qHat: nat, rHat: nat, h: nat, u2: Digit, v1: Digit, v2: Digit)
    requires q < B && q <= qHat && v1 > 0 && h == qHat * v1 + rHat
    requires q * (v1 * B + v2) <= h * B + u2
    requires qHat == B || qHat * v2 > B * rHat + u2
    ensures q < qHat
  {
    ScaleSum(qHat, v2, v1, B);
    assert v1 * (qHat * B) == qHat * v1 * B;
  }

  /** Leaving the loop either way, the digit is below the base and passes the two-digit test. */
  lemma Accepted(qHat: nat, rHat: nat, h: nat, u0: Digit, u1: Digit, u2: Digit, v1: Digit, v2: Digit)
    requires v1 >= 0x8000_0000 && (u0 < v1 || (u0 == v1 && u1 <= v2))
    requires h == u0 * B + u1 && h == qHat * v1 + rHat
    requires
      || (rHat < B && qHat != B && qHat <= B + 1 && qHat * v2 <= B * rHat + u2)
      || (rHat >= B && qHat <= B)
    ensures qHat < B
    ensures qHat * (v1 * B + v2) <= h * B + u2
  {
    if qHat < B {
      MulMono(qHat, B, v2);
      ScaleSum(qHat, v2, v1, B);
      assert v1 * (qHat * B) == qHat * v1 * B;
    }
  }

  /** Where the loop starts: at or above the true digit q, at most two above the largest digit. */
  lemma Start(u0: Digit, u1: Digit, u2: Digit, v1: Digit, v2: Digit, U: nat, V: nat, p: nat) returns (q: nat)
    requires Leading(U, V, u0, u1, u2, v1, v2, p)
    ensures V > 0 && q == U / V && q < B
    ensures q * (v1 * B + v2) <= (u0 * B + u1) * B + u2
    ensures q <= (u0 * B + u1) / v1 <= B + 1
    ensures u0 * B + u1 == (u0 * B + u1) / v1 * v1 + (u0 * B + u1) % v1
  {
    LeadingBound(U, V, u0, u1, u2, v1, v2, p);
    var W, T := v1 * B + v2, (u0 * B + u1) * B + u2;
    MulMono(1, p, W);
    q := TrueDigit(U, V);
    TrueDigitBelow(U, V, W, T, p, q);
    StartDigit(u0 * B + u1, u0, u1, v1, v2, u2, q);
  }

  lemma Finish(qHat: nat, rHat: nat, u0: Digit, u1: Digit, u2: Digit, v1: Digit, v2: Digit, U: nat, V: nat, p: nat)
    requires Leading(U, V, u0, u1, u2, v1, v2, p)
    requires u0 * B + u1 == qHat * v1 + rHat
    requires
      || (rHat < B && qHat != B && qHat <= B + 1 && qHat * v2 <= B * rHat + u2)
      || (rHat >= B && qHat <= B)
    ensures qHat < B && V > 0 && qHat <= U / V + 1
  {
    LeadingBound(U, V, u0, u1, u2, v1, v2, p);
    Accepted(qHat, rHat, u0 * B + u1, u0, u1, u2, v1, v2);
    var W, T := v1 * B + v2, (u0 * B + u1) * B + u2;
    MulMono(1, p, W);
    var q := TrueDigit(U, V);
    TrialDigitAbove(U, V, W, T, p, qHat);
    WithinOne(U, V, q, qHat);
  }

  lemma WithinOne(U: nat, V: nat, q: nat, qHat: nat)
    requires V > 0 && U < (q + 1) * V && (qHat - 1) * V < U + 1
    ensures qHat <= q + 1
  {
    ScaledLess(qHat - 1, q + 1, V);
  }

  /** The estimate from the two leading digits and its correction loop. q_hat may start at
      base + 1; no 64-bit product wraps, and q_hat never passes below the true digit q. */
  method CorrectedDigit(highPair: DoubleDigit, u2: Digit, v1: Digit, v2: Digit, ghost q: nat)
    returns (qHat: DoubleDigit, ghost rHat: DoubleDigit)
    requires v1 > 0 && q < B && q <= highPair / v1 <= B + 1
    requires highPair == highPair / v1 * v1 + highPair % v1
    requires q * (v1 * B + v2) <= highPair * B + u2
    ensures q <= qHat && highPair == qHat * v1 + rHat
    ensures
      || (rHat < B && qHat != B && qHat <= B + 1 && qHat * v2 <= B * rHat + u2)
      || (rHat >= B && qHat <= B)
  {
    qHat := highPair / v1;
    var r: DoubleDigit := highPair % v1;
    while true
      invariant q <= qHat <= B + 1
      invariant highPair == qHat * v1 + r && r < B
      decreases qHat
    {
      MulMono(qHat, B + 1, v2);
      var product: DoubleDigit := qHat * v2;
      var bound: DoubleDigit := B * r + u2;
      if !(qHat == B || product > bound) {
        break;
      }
      Rejected(q, qHat, r, highPair, u2, v1, v2);
      SplitMul(qHat, -1, v1);
      qHat := qHat - 1;
      r := r + v1;
      if r >= B {
        break;
      }
    }
    rHat := r;
  }

  /** The trial digit is the true digit or one more, and always fits a digit. */
  method TrialDigit(u0: Digit, u1: Digit, u2: Digit, v1: Digit, v2: Digit,
                    ghost U: nat, ghost V: nat, ghost p: nat)
    returns (qHat: Digit)
    requires Leading(U, V, u0, u1, u2, v1, v2, p)
    ensures V > 0 && U / V <= qHat <= U / V + 1
  {
    ghost var q := Start(u0, u1, u2, v1, v2, U, V, p);
    ghost var rHat: DoubleDigit;
    var digit: DoubleDigit;
    digit, rHat := CorrectedDigit(u0 * B + u1, u2, v1, v2, q);
    Finish(digit, rHat, u0, u1, u2, v1, v2, U, V, p);
    qHat := digit;
  }
}
