/** The views through which the integer kernel sees numbers, and the operations that
    only normalize, compare or re-sign them. */
module BigIntViews {
  import opened Digits

  /** A read-only view: sign and digits. Callees never write to the digits of a const view. */
  datatype Num = Num(signum: int, digits: seq<Digit>)

  const ZERO := Num(0, [])
  const ONE := Num(1, [1])

  predicate Normalized(v: Num) {
    if |v.digits| == 0 then v.signum == 0
    else (v.signum == -1 || v.signum == 1) && v.digits[|v.digits| - 1] != 0
  }

  ghost function Abs(v: Num): nat {
    Val(v.digits)
  }

  ghost function Int(v: Num): int {
    if v.signum < 0 then 0 - Abs(v) else if v.signum == 0 then 0 else Abs(v)
  }

  /** A view to write through: `digits.Length` is the capacity, `n` digits are in use. */
  class MutView {
    const digits: array<Digit>
    var n: nat
    var signum: int

    constructor (capacity: nat)
      ensures fresh(digits) && digits.Length == capacity && n == 0 && signum == 0
    {
      digits := new Digit[capacity](_ => 0);
      n, signum := 0, 0;
    }

    ghost predicate Valid()
      reads this
    {
      n <= digits.Length
    }

    function View(): Num
      requires Valid()
      reads this, digits
    {
      Num(signum, digits[..n])
    }

    method SetZero()
      modifies this
      ensures Valid() && View() == ZERO
    {
      n, signum := 0, 0;
    }

    method CopyFrom(src: Num)
      requires Normalized(src) && |src.digits| <= digits.Length
      modifies this, digits
      ensures Valid() && View() == src
    {
      forall i | 0 <= i < |src.digits| {
        digits[i] := src.digits[i];
      }
      n, signum := |src.digits|, src.signum;
    }

    /** Drops leading zero digits; the sign becomes 0 exactly when nothing is left. */
    method Normalize()
      requires Valid() && (signum == -1 || signum == 1 || n == 0)
      modifies this
      ensures Valid() && Normalized(View())
      ensures View().digits <= old(View().digits)
      ensures Abs(View()) == old(Abs(View()))
      ensures n > 0 ==> signum == old(signum)
    {
      var v := NormalizeView(View());
      n, signum := |v.digits|, v.signum;
      assert digits[..n] == v.digits;
    }
  }

  method NormalizeView(v: Num) returns (r: Num)
    requires v.signum == -1 || v.signum == 1 || v.digits == []
    ensures Normalized(r) && r.digits <= v.digits
    ensures Abs(r) == Abs(v)
    ensures r.digits != [] ==> r.signum == v.signum
  {
    var n: nat := |v.digits|;
    while n > 0 && v.digits[n - 1] == 0
      invariant n <= |v.digits|
      invariant Low(v.digits, n) == Val(v.digits)
    {
      n := n - 1;
    }
    LowTake(v.digits, n);
    r := Num(if n == 0 then 0 else v.signum, v.digits[..n]);
  }

  function AbsView(v: Num): (r: Num)
    requires Normalized(v)
    ensures Normalized(r) && Int(r) == Abs(v) && 0 <= r.signum <= 1
  {
    Num(if |v.digits| == 0 then 0 else 1, v.digits)
  }

  function Negated(v: Num): (r: Num)
    requires Normalized(v)
    ensures Normalized(r) && Int(r) == -Int(v)
  {
    Num(-v.signum, v.digits)
  }

  lemma {:induction false} NormalizedPositive(v: Num)
    requires Normalized(v)
    ensures Abs(v) == 0 <==> |v.digits| == 0
    ensures Int(v) > 0 <==> v.signum == 1
    ensures Int(v) < 0 <==> v.signum == -1
    ensures |v.digits| > 0 ==> BPow(|v.digits| - 1) <= Abs(v)
    ensures Abs(v) < BPow(|v.digits|)
  {
    LowBound(v.digits, |v.digits|);
    if |v.digits| > 0 {
      ValTop(v.digits);
      MulMono(1, v.digits[|v.digits| - 1], BPow(|v.digits| - 1));
    }
  }

  /** A normalized view has the fewest digits that can hold its magnitude. */
  lemma {:induction false} LengthBound(v: Num, k: nat)
    requires Normalized(v) && Abs(v) < BPow(k)
    ensures |v.digits| <= k
  {
    NormalizedPositive(v);
    if |v.digits| > k {
      BPowMono(k, |v.digits| - 1);
    }
  }

  lemma {:induction false} LengthMonotone(v: Num, w: Num)
    requires Normalized(v) && Normalized(w) && Abs(v) <= Abs(w)
    ensures |v.digits| <= |w.digits|
  {
    NormalizedPositive(w);
    LengthBound(v, |w.digits|);
  }

  /** Normal form is canonical: one view per integer. */
  lemma {:induction false} NormalizedUnique(v: Num, w: Num)
    requires Normalized(v) && Normalized(w) && Int(v) == Int(w)
    ensures v == w
  {
    NormalizedPositive(v);
    NormalizedPositive(w);
    ValInjective(v.digits, w.digits);
  }

  method CompareAbs(left: Num, right: Num) returns (c: int)
    requires Normalized(left) && Normalized(right)
    ensures -1 <= c <= 1
    ensures c < 0 <==> Abs(left) < Abs(right)
    ensures c > 0 <==> Abs(left) > Abs(right)
    ensures c == 0 <==> left.digits == right.digits
  {
    var l, r := left.digits, right.digits;
    if |l| != |r| {
      if |l| < |r| {
        ValLongerIsLarger(l, r);
        return -1;
      }
      ValLongerIsLarger(r, l);
      return 1;
    }
    var idx := |l|;
    while idx > 0
      invariant 0 <= idx <= |l|
      invariant forall j :: idx <= j < |l| ==> l[j] == r[j]
    {
      if l[idx - 1] != r[idx - 1] {
        if l[idx - 1] < r[idx - 1] {
          ValSmallerAt(l, r, idx - 1);
          return -1;
        }
        ValSmallerAt(r, l, idx - 1);
        return 1;
      }
      idx := idx - 1;
    }
    assert l == r;
    c := 0;
  }

  method Compare(left: Num, right: Num) returns (c: int)
    requires Normalized(left) && Normalized(right)
    ensures -1 <= c <= 1
    ensures c < 0 <==> Int(left) < Int(right)
    ensures c > 0 <==> Int(left) > Int(right)
    ensures c == 0 <==> left == right
  {
    NormalizedPositive(left);
    NormalizedPositive(right);
    if left.signum != right.signum {
      return if left.signum < right.signum then -1 else 1;
    }
    if left.signum == 0 {
      return 0;
    }
    var a := CompareAbs(left, right);
    c := if left.signum > 0 then a else -a;
  }
}
