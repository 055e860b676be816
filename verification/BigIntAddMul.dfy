/** Digit-array addition, subtraction and multiplication, each against integer arithmetic. */
module BigIntAddMul {
  import opened Digits
  import opened BigIntViews

  /** Writing digit k leaves the lower digits alone and adds the digit's weight. */
  lemma {:induction false} LowWrite(s: seq<Digit>, k: nat, d: Digit)
    requires k < |s|
    ensures Low(s[k := d], k) == Low(s, k)
    ensures Low(s[k := d], k + 1) == Low(s, k) + d * BPow(k)
  {
    LowCongruent(s[k := d], s, k);
  }

  /** One column of a carrying loop, scaled to the weight p of the column. */
  lemma CarryStep(x: int, c: int, d: int, c': int, p: int)
    requires x + c == d + c' * B
    ensures x * p + c * p == d * p + c' * (B * p)
  {
    assert (x + c) * p == (d + c' * B) * p;
    assert (x + c) * p == x * p + c * p;
    assert (d + c' * B) * p == d * p + c' * (B * p) by { ScaleSum(p, d, c', B); }
  }

  /** A value that needs all the digits has a nonzero top digit. */
  lemma {:induction false} TopDigitNonzero(s: seq<Digit>)
    requires |s| > 0 && Val(s) >= BPow(|s| - 1)
    ensures s[|s| - 1] != 0
  {
    LowBound(s, |s| - 1);
  }

  /** The carry loop: a holds the low n digits of l + r, and the carry out is returned. */
  method AddDigits(a: array<Digit>, l: seq<Digit>, r: seq<Digit>, n: nat) returns (carry: Digit)
    requires |l| <= n && |r| <= n && n <= a.Length
    modifies a
    ensures carry <= 1
    ensures Val(a[..n]) + carry * BPow(n) == Val(l) + Val(r)
  {
    carry := 0;
    var idx := 0;
    while idx < n
      invariant 0 <= idx <= n
      invariant carry <= 1
      invariant Low(a[..], idx) + carry * BPow(idx) == Low(l, idx) + Low(r, idx)
    {
      var sum: DoubleDigit := At(l, idx) + At(r, idx) + carry;
      ghost var before := a[..];
      a[idx] := LowDigit(sum);
      assert a[..] == before[idx := LowDigit(sum)];
      LowWrite(before, idx, LowDigit(sum));
      CarryStep(At(l, idx) + At(r, idx), carry, LowDigit(sum), HighDigit(sum), BPow(idx));
      SplitMul(At(l, idx), At(r, idx), BPow(idx));
      carry := HighDigit(sum);
      idx := idx + 1;
    }
    LowBeyond(l, n);
    LowBeyond(r, n);
    LowTake(a[..], n);
    assert a[..][..n] == a[..n];
  }

  /** Appending the carry out as a top digit. */
  lemma {:induction false} ValSnoc(s: seq<Digit>, d: Digit)
    ensures Val(s + [d]) == Val(s) + d * BPow(|s|)
  {
    LowCongruent(s + [d], s, |s|);
  }

  method AbsAddInto(dest: MutView, left: Num, right: Num)
    requires Normalized(left) && Normalized(right)
    requires |left.digits| < dest.digits.Length && |right.digits| < dest.digits.Length
    modifies dest, dest.digits
    ensures dest.Valid() && Normalized(dest.View()) && 0 <= dest.signum <= 1
    ensures Abs(dest.View()) == Abs(left) + Abs(right)
  {
    var maxDigits := if |left.digits| > |right.digits| then |left.digits| else |right.digits|;
    var carry := AddDigits(dest.digits, left.digits, right.digits, maxDigits);
    dest.n := maxDigits;
    ghost var low := dest.digits[..maxDigits];
    NormalizedPositive(left);
    NormalizedPositive(right);
    if carry != 0 {
      dest.digits[dest.n] := carry;
      dest.n := dest.n + 1;
      assert dest.digits[..dest.n] == low + [carry];
      ValSnoc(low, carry);
    } else if maxDigits > 0 {
      TopDigitNonzero(low);
    }
    dest.signum := if dest.n == 0 then 0 else 1;
  }

  lemma SplitMul(a: int, b: int, p: int)
    ensures (a + b) * p == a * p + b * p
  {}

  lemma BorrowStep(l: int, r: int, b: int, d: int, b': int, p: int)
    requires d + r + b == l + b' * B
    ensures d * p + r * p + b * p == l * p + b' * (B * p)
  {
    CarryStep(d + r, b, l, b', p);
    SplitMul(d, r, p);
  }

  method AbsSubInto(dest: MutView, left: Num, right: Num)
    requires Normalized(left) && Normalized(right) && Abs(right) <= Abs(left)
    requires |left.digits| <= dest.digits.Length
    modifies dest, dest.digits
    ensures dest.Valid() && Normalized(dest.View()) && 0 <= dest.signum <= 1
    ensures Abs(dest.View()) == Abs(left) - Abs(right)
  {
    var l, r := left.digits, right.digits;
    LengthMonotone(right, left);
    var borrow: DoubleDigit := 0;
    var idx := 0;
    while idx < |l|
      invariant 0 <= idx <= |l|
      invariant borrow <= 1
      invariant Low(dest.digits[..], idx) + Low(r, idx) == Low(l, idx) + borrow * BPow(idx)
    {
      var subtrahend: DoubleDigit := At(r, idx) + borrow;
      var wraps := if l[idx] < subtrahend then 1 else 0;
      var d: Digit := if wraps == 1 then B + l[idx] - subtrahend else l[idx] - subtrahend;
      ghost var before := dest.digits[..];
      dest.digits[idx] := d;
      assert dest.digits[..] == before[idx := d];
      LowWrite(before, idx, d);
      BorrowStep(l[idx], At(r, idx), borrow, d, wraps, BPow(idx));
      borrow := wraps;
      idx := idx + 1;
    }
    LowBeyond(r, |l|);
    LowBound(dest.digits[..], |l|);
    assert borrow == 0;
    dest.n := |l|;
    dest.signum := if dest.n == 0 then 0 else 1;
    LowTake(dest.digits[..], dest.n);
    assert dest.digits[..][..dest.n] == dest.digits[..dest.n];
    dest.Normalize();
  }

  /** The borrowing loop on the digits `a[at..at + len]`. */
  method SubtractDigits(a: array<Digit>, at: nat, len: nat, r: seq<Digit>)
    requires at + len <= a.Length && |r| <= len
    requires Val(r) <= Val(a[at..at + len])
    modifies a
    ensures Val(a[at..at + len]) == old(Val(a[at..at + len])) - Val(r)
    ensures a[..at] == old(a[..at]) && a[at + len..] == old(a[at + len..])
  {
    ghost var l := a[at..at + len];
    var borrow: DoubleDigit := 0;
    var idx := 0;
    while idx < len
      invariant 0 <= idx <= len
      invariant borrow <= 1
      invariant Low(a[at..at + len], idx) + Low(r, idx) == Low(l, idx) + borrow * BPow(idx)
      invariant a[at + idx..at + len] == l[idx..]
      invariant a[..at] == old(a[..at]) && a[at + len..] == old(a[at + len..])
    {
      ghost var before := a[at..at + len];
      var leftDigit := a[at + idx];
      assert leftDigit == l[idx..][0];
      var subtrahend: DoubleDigit := At(r, idx) + borrow;
      var wraps := if leftDigit < subtrahend then 1 else 0;
      var d: Digit := if wraps == 1 then B + leftDigit - subtrahend else leftDigit - subtrahend;
      a[at + idx] := d;
      assert a[at..at + len] == before[idx := d];
      assert a[at + idx + 1..at + len] == l[idx..][1..];
      LowWrite(before, idx, d);
      BorrowStep(leftDigit, At(r, idx), borrow, d, wraps, BPow(idx));
      borrow := wraps;
      idx := idx + 1;
    }
    LowBeyond(r, len);
    LowBound(a[at..at + len], len);
    assert borrow == 0;
  }

  /** Subtraction in place on the digits `a[at..at + len]`; n of them, with the sign, are the normalized result. */
  method AbsSubAliasLeft(a: array<Digit>, at: nat, len: nat, r: seq<Digit>) returns (n: nat, signum: int)
    requires at + len <= a.Length && |r| <= len
    requires Val(r) <= Val(a[at..at + len])
    modifies a
    ensures Val(a[at..at + len]) == old(Val(a[at..at + len])) - Val(r)
    ensures n <= len && 0 <= signum <= 1 && Normalized(Num(signum, a[at..at + n]))
    ensures Val(a[at..at + n]) == Val(a[at..at + len])
    ensures a[..at] == old(a[..at]) && a[at + len..] == old(a[at + len..])
  {
    SubtractDigits(a, at, len, r);
    var window := a[at..at + len];
    var normalized := NormalizeView(Num(1, window));
    n, signum := |normalized.digits|, normalized.signum;
    assert a[at..at + n] == window[..n] == normalized.digits;
  }

  /** The capacity that a signed sum needs, which depends on the path it takes. */
  ghost predicate SumFits(capacity: nat, left: Num, right: Num) {
    if left.signum == 0 then |right.digits| <= capacity
    else if right.signum == 0 then |left.digits| <= capacity
    else if left.signum == right.signum then |left.digits| < capacity && |right.digits| < capacity
    else
      && (Abs(left) > Abs(right) ==> |left.digits| <= capacity)
      && (Abs(left) < Abs(right) ==> |right.digits| <= capacity)
  }

  method AddInto(dest: MutView, left: Num, right: Num)
    requires Normalized(left) && Normalized(right) && SumFits(dest.digits.Length, left, right)
    modifies dest, dest.digits
    ensures dest.Valid() && Normalized(dest.View())
    ensures Int(dest.View()) == Int(left) + Int(right)
  {
    if left.signum == 0 {
      dest.CopyFrom(right);
      return;
    }
    if right.signum == 0 {
      dest.CopyFrom(left);
      return;
    }
    NormalizedPositive(left);
    NormalizedPositive(right);
    if left.signum == right.signum {
      AbsAddInto(dest, left, right);
      NormalizedPositive(dest.View());
      dest.signum := left.signum;
      return;
    }
    var c := CompareAbs(left, right);
    if c == 0 {
      dest.SetZero();
    } else if c > 0 {
      AbsSubInto(dest, left, right);
      NormalizedPositive(dest.View());
      dest.signum := left.signum;
    } else {
      AbsSubInto(dest, right, left);
      NormalizedPositive(dest.View());
      dest.signum := right.signum;
    }
  }

  method SubInto(dest: MutView, left: Num, right: Num)
    requires Normalized(left) && Normalized(right) && SumFits(dest.digits.Length, left, Negated(right))
    modifies dest, dest.digits
    ensures dest.Valid() && Normalized(dest.View())
    ensures Int(dest.View()) == Int(left) - Int(right)
  {
    AddInto(dest, left, Negated(right));
  }

  /** A product of digits leaves room for two more digits in 64 bits. */
  lemma ProductFits(x: int, y: int)
    requires 0 <= x < B && 0 <= y < B
    ensures 0 <= x * y <= 0xFFFF_FFFE_0000_0001
  {
    MulMono(x, B - 1, y);
    MulMono(0, x, y);
  }

  /** The column loop of a multiplication by one digit: a holds the low digits of
      l * multiplier + addend, and the carry out is returned. */
  method MulAddDigits(a: array<Digit>, l: seq<Digit>, multiplier: Digit, addend: Digit) returns (carry: Digit)
    requires |l| <= a.Length
    modifies a
    ensures Val(a[..|l|]) + carry * BPow(|l|) == Val(l) * multiplier + addend
  {
    carry := addend;
    var idx := 0;
    while idx < |l|
      invariant 0 <= idx <= |l|
      invariant Low(a[..], idx) + carry * BPow(idx) == Low(l, idx) * multiplier + addend
    {
      ProductFits(l[idx], multiplier);
      var product: DoubleDigit := l[idx] * multiplier + carry;
      ghost var before := a[..];
      a[idx] := LowDigit(product);
      assert a[..] == before[idx := LowDigit(product)];
      LowWrite(before, idx, LowDigit(product));
      MulColumn(l[idx], multiplier, carry, LowDigit(product), HighDigit(product), Low(l, idx), BPow(idx));
      carry := HighDigit(product);
      idx := idx + 1;
    }
    LowTake(a[..], |l|);
    assert a[..][..|l|] == a[..|l|];
  }

  lemma MulColumn(x: int, m: int, c: int, d: int, c': int, low: int, p: int)
    requires x * m + c == d + c' * B
    ensures (low + x * p) * m + c * p == low * m + d * p + c' * (B * p)
  {
    CarryStep(x * m, c, d, c', p);
    ScaleSum(m, low, x, p);
    ScaleSum(p, 0, x, m);
  }

  /** Multiplication by a digit and addition of a digit, with the carry out stored when nonzero. */
  method MulAddInto(dest: MutView, src: Num, multiplier: Digit, addend: Digit)
    requires Normalized(src) && multiplier != 0 && |src.digits| < dest.digits.Length
    modifies dest, dest.digits
    ensures dest.Valid() && dest.n <= |src.digits| + 1
    ensures Abs(dest.View()) == Abs(src) * multiplier + addend
    ensures dest.n > 0 ==> dest.digits[dest.n - 1] != 0
    ensures dest.n >= |src.digits|
  {
    var n := |src.digits|;
    var carry := MulAddDigits(dest.digits, src.digits, multiplier, addend);
    dest.n := n;
    ghost var low := dest.digits[..n];
    NormalizedPositive(src);
    MulMono(1, multiplier, Abs(src));
    if carry != 0 {
      dest.digits[n] := carry;
      dest.n := n + 1;
      assert dest.digits[..dest.n] == low + [carry];
      ValSnoc(low, carry);
    } else if n > 0 {
      TopDigitNonzero(low);
    }
  }

  method AbsMulDigitInto(dest: MutView, left: Num, right: Digit)
    requires Normalized(left) && 0 <= left.signum <= 1 && |left.digits| < dest.digits.Length
    modifies dest, dest.digits
    ensures dest.Valid() && Normalized(dest.View()) && 0 <= dest.signum <= 1
    ensures Abs(dest.View()) == Abs(left) * right
  {
    if left.signum == 0 || right == 0 {
      assert Abs(left) == 0 || right == 0;
      assert Abs(left) * right == 0;
      dest.SetZero();
      return;
    }
    MulAddInto(dest, left, right, 0);
    dest.signum := 1;
  }

  method AbsMulAddU32(dest: MutView, src: Num, multiplier: Digit, addend: Digit)
    requires Normalized(src) && 0 <= src.signum <= 1 && multiplier != 0
    requires |src.digits| < dest.digits.Length
    modifies dest, dest.digits
    ensures dest.Valid() && Normalized(dest.View()) && 0 <= dest.signum <= 1
    ensures Abs(dest.View()) == Abs(src) * multiplier + addend
    ensures |dest.View().digits| <= |src.digits| + 1
  {
    MulAddInto(dest, src, multiplier, addend);
    dest.signum := if dest.n == 0 then 0 else 1;
  }

  /** Row `i` of the product: adds l_i * r, shifted by i digits, into a. */
  method MulRow(a: array<Digit>, i: nat, x: Digit, r: seq<Digit>)
    requires i + |r| < a.Length && a[i + |r|] == 0
    modifies a
    ensures Low(a[..], i + |r| + 1) == Low(old(a[..]), i + |r|) + x * (Val(r) * BPow(i))
    ensures forall k :: i + |r| < k < a.Length ==> a[k] == old(a[k])
  {
    ghost var initial := a[..];
    var carry: DoubleDigit := 0;
    var j := 0;
    while j < |r|
      invariant 0 <= j <= |r|
      invariant carry < B
      invariant Low(a[..], i + j) + carry * BPow(i + j) == Low(initial, i + j) + x * (Low(r, j) * BPow(i))
      invariant forall k :: i + j <= k < a.Length ==> a[k] == initial[k]
    {
      ProductFits(x, r[j]);
      var product: DoubleDigit := x * r[j] + a[i + j] + carry;
      ghost var before := a[..];
      a[i + j] := LowDigit(product);
      assert a[..] == before[i + j := LowDigit(product)];
      LowWrite(before, i + j, LowDigit(product));
      CarryStep(x * r[j] + initial[i + j], carry, LowDigit(product), HighDigit(product), BPow(i + j));
      RowStep(x, r[j], initial[i + j], Low(r, j), BPow(i), BPow(j), BPow(i + j)) by { BPowAdd(i, j); }
      carry := HighDigit(product);
      j := j + 1;
    }
    ghost var before := a[..];
    a[i + |r|] := carry;
    assert a[..] == before[i + |r| := carry as Digit];
    LowWrite(before, i + |r|, carry);
  }

  lemma RowStep(x: int, y: int, z: int, low: int, pi: int, pj: int, p: int)
    requires p == pi * pj
    ensures (x * y + z) * p + x * (low * pi) == z * p + x * ((low + y * pj) * pi)
  {
    SplitMul(x * y, z, p);
    ScaleSum(pi, low, y, pj);
    ScaleSum(x, low * pi, y, p);
  }

  lemma RowsStep(low: int, x: int, p: int, r: int)
    ensures low * r + x * (r * p) == (low + x * p) * r
  {
    ScaleSum(r, low, x, p);
  }

  method MulInto(dest: MutView, left: Num, right: Num)
    requires Normalized(left) && Normalized(right)
    requires |left.digits| + |right.digits| <= dest.digits.Length
    modifies dest, dest.digits
    ensures dest.Valid() && Normalized(dest.View())
    ensures Int(dest.View()) == Int(left) * Int(right)
  {
    if left.signum == 0 || right.signum == 0 {
      dest.SetZero();
      return;
    }
    var l, r := left.digits, right.digits;
    var size := |l| + |r|;
    forall k | 0 <= k < size {
      dest.digits[k] := 0;
    }
    var i := 0;
    LowZeros(dest.digits[..], 0, |r|);
    while i < |l|
      invariant 0 <= i <= |l|
      invariant Low(dest.digits[..], i + |r|) == Low(l, i) * Val(r)
      invariant forall k :: i + |r| <= k < size ==> dest.digits[k] == 0
    {
      MulRow(dest.digits, i, l[i], r);
      RowsStep(Low(l, i), l[i], BPow(i), Val(r));
      i := i + 1;
    }
    LowTake(dest.digits[..], size);
    assert dest.digits[..][..size] == dest.digits[..size];
    dest.n := size;
    dest.signum := left.signum * right.signum;
    dest.Normalize();
    NormalizedPositive(left);
    NormalizedPositive(right);
    SignedProduct(left, right, dest.View());
  }

  lemma SignedProduct(left: Num, right: Num, product: Num)
    requires left.signum == 1 || left.signum == -1
    requires right.signum == 1 || right.signum == -1
    requires Abs(left) > 0 && Abs(right) > 0 && Normalized(product)
    requires Abs(product) == Abs(left) * Abs(right)
    requires product.digits != [] ==> product.signum == left.signum * right.signum
    ensures Int(product) == Int(left) * Int(right)
  {
    assert Abs(left) * Abs(right) > 0;
    NormalizedPositive(product);
  }
}
