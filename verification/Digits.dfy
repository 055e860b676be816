/** Base-2^32 digit sequences, least significant digit first, and the number they denote. */
module Digits {

  const B: int := 0x1_0000_0000

  type Digit = x: int | 0 <= x < 0x1_0000_0000 witness 0

  /** An unsigned 64-bit intermediate: assigning to this type is the proof that it did not wrap. */
  type DoubleDigit = x: int | 0 <= x < 0x1_0000_0000_0000_0000 witness 0

  /** Truncation to 32 bits and shift down by 32 bits. */
  function LowDigit(x: DoubleDigit): Digit { x % B }
  function HighDigit(x: DoubleDigit): Digit { x / B }

  /** B to the power k. */
  function BPow(k: nat): (p: int)
    ensures p > 0
  {
    if k == 0 then 1 else B * BPow(k - 1)
  }

  /** The digit at i, with the sequence read as padded by zeros. */
  function At(s: seq<Digit>, i: nat): Digit {
    if i < |s| then s[i] else 0
  }

  /** The number denoted by the k low digits of s, padded by zeros. */
  function Low(s: seq<Digit>, k: nat): nat {
    if k == 0 then 0 else
      assert At(s, k - 1) * BPow(k - 1) >= 0;
      Low(s, k - 1) + At(s, k - 1) * BPow(k - 1)
  }

  /** The number denoted by s. */
  function Val(s: seq<Digit>): nat {
    Low(s, |s|)
  }

  lemma MulMono(a: int, b: int, p: int)
    requires a <= b && 0 <= p
    ensures a * p <= b * p
  {}

  lemma ScaleSum(p: int, l: int, d: int, q: int)
    ensures p * (l + d * q) == p * l + d * (p * q)
  {
    assert p * (d * q) == d * (p * q);
  }

  lemma {:induction false} BPowAdd(i: nat, j: nat)
    ensures BPow(i + j) == BPow(i) * BPow(j)
  {
    if j == 0 {
      assert BPow(i) * 1 == BPow(i);
    } else {
      BPowAdd(i, j - 1);
      ScaleSum(BPow(i), 0, B, BPow(j - 1));
    }
  }

  lemma {:induction false} BPowMono(i: nat, j: nat)
    requires i <= j
    ensures BPow(i) <= BPow(j)
  {
    if i < j {
      BPowMono(i, j - 1);
    }
  }

  lemma {:induction false} LowBound(s: seq<Digit>, k: nat)
    ensures Low(s, k) < BPow(k)
  {
    if k > 0 {
      LowBound(s, k - 1);
      MulMono(At(s, k - 1), B - 1, BPow(k - 1));
    }
  }

  lemma {:induction false} LowCongruent(s: seq<Digit>, t: seq<Digit>, k: nat)
    requires forall i :: 0 <= i < k ==> At(s, i) == At(t, i)
    ensures Low(s, k) == Low(t, k)
  {
    if k > 0 {
      LowCongruent(s, t, k - 1);
    }
  }

  /** Digits beyond the end add nothing. */
  lemma {:induction false} LowBeyond(s: seq<Digit>, k: nat)
    requires |s| <= k
    ensures Low(s, k) == Val(s)
  {
    if |s| < k {
      LowBeyond(s, k - 1);
    }
  }

  /** So do zero digits. */
  lemma {:induction false} LowZeros(s: seq<Digit>, j: nat, k: nat)
    requires j <= k
    requires forall i :: j <= i < k ==> At(s, i) == 0
    ensures Low(s, k) == Low(s, j)
  {
    if j < k {
      LowZeros(s, j, k - 1);
    }
  }

  lemma {:induction false} LowTake(s: seq<Digit>, k: nat)
    requires k <= |s|
    ensures Val(s[..k]) == Low(s, k)
  {
    LowCongruent(s[..k], s, k);
  }

  /** A number is its low part plus its high part shifted up. */
  lemma {:induction false} LowSplit(s: seq<Digit>, j: nat, k: nat)
    requires j <= |s|
    ensures Low(s, j + k) == Low(s, j) + BPow(j) * Low(s[j..], k)
  {
    if k > 0 {
      LowSplit(s, j, k - 1);
      BPowAdd(j, k - 1);
      assert At(s, j + k - 1) == At(s[j..], k - 1);
      ScaleSum(BPow(j), Low(s[j..], k - 1), At(s[j..], k - 1), BPow(k - 1));
    }
  }

  lemma {:induction false} ValSplit(s: seq<Digit>, j: nat)
    requires j <= |s|
    ensures Val(s) == Val(s[..j]) + BPow(j) * Val(s[j..])
  {
    LowSplit(s, j, |s| - j);
    LowTake(s, j);
  }

  lemma {:induction false} ValCons(s: seq<Digit>)
    requires |s| > 0
    ensures Val(s) == s[0] + B * Val(s[1..])
  {
    ValSplit(s, 1);
    assert BPow(1) == B * BPow(0);
    assert Low(s[..1], 1) == Low(s[..1], 0) + s[0] * BPow(0);
  }

  /** A nonzero top digit puts the value in the top digit's range. */
  lemma {:induction false} ValTop(s: seq<Digit>)
    requires |s| > 0
    ensures s[|s| - 1] * BPow(|s| - 1) <= Val(s) < (s[|s| - 1] + 1) * BPow(|s| - 1)
  {
    LowBound(s, |s| - 1);
    ScaleSum(BPow(|s| - 1), s[|s| - 1], 1, 1);
  }

  lemma {:induction false} ValLongerIsLarger(s: seq<Digit>, t: seq<Digit>)
    requires |s| < |t| && t[|t| - 1] != 0
    ensures Val(s) < Val(t)
  {
    LowBound(s, |s|);
    BPowMono(|s|, |t| - 1);
    ValTop(t);
    MulMono(1, t[|t| - 1], BPow(|t| - 1));
  }

  /** Equal above i, smaller at i: smaller overall. */
  lemma {:induction false} ValSmallerAt(s: seq<Digit>, t: seq<Digit>, i: nat)
    requires |s| == |t| && i < |s| && s[i] < t[i]
    requires forall j :: i < j < |s| ==> s[j] == t[j]
    ensures Val(s) < Val(t)
  {
    ValSplit(s, i + 1);
    ValSplit(t, i + 1);
    assert s[i + 1..] == t[i + 1..];
    ValTop(s[..i + 1]);
    ValTop(t[..i + 1]);
    MulMono(s[i] + 1, t[i], BPow(i));
  }

  /** Digits of a number without a leading zero are unique. */
  lemma {:induction false} ValInjective(s: seq<Digit>, t: seq<Digit>)
    requires Val(s) == Val(t)
    requires |s| > 0 ==> s[|s| - 1] != 0
    requires |t| > 0 ==> t[|t| - 1] != 0
    ensures s == t
  {
    if |s| < |t| {
      ValLongerIsLarger(s, t);
    } else if |t| < |s| {
      ValLongerIsLarger(t, s);
    } else if |s| > 0 {
      ValCons(s);
      ValCons(t);
      assert s == [s[0]] + s[1..] && t == [t[0]] + t[1..];
      ValInjective(s[1..], t[1..]);
    }
  }
}
