/** Powers of two, two's-complement bits of an integer, and bitwise operations on words. */
module Bits {
  import opened Digits

  function Pow2(k: nat): (p: int)
    ensures p > 0
  {
    if k == 0 then 1 else 2 * Pow2(k - 1)
  }

  lemma {:induction false} Pow2Add(i: nat, j: nat)
    ensures Pow2(i + j) == Pow2(i) * Pow2(j)
  {
    if j > 0 {
      Pow2Add(i, j - 1);
      ScaleSum(Pow2(i), 0, 2, Pow2(j - 1));
    }
  }

  lemma {:induction false} Pow2Mono(i: nat, j: nat)
    requires i <= j
    ensures Pow2(i) <= Pow2(j)
  {
    if i < j {
      Pow2Mono(i, j - 1);
    }
  }

  lemma {:induction false} Pow2Word()
    ensures Pow2(32) == B && Pow2(31) == 0x8000_0000
  {
    assert Pow2(8) == 256;
    Pow2Add(8, 8);
    Pow2Add(16, 8);
    Pow2Add(24, 7);
    assert Pow2(7) == 128;
    assert Pow2(32) == 2 * Pow2(31);
  }

  lemma {:induction false} Pow2Digits(w: nat)
    ensures Pow2(32 * w) == BPow(w)
  {
    if w > 0 {
      Pow2Digits(w - 1);
      Pow2Word();
      Pow2Add(32, 32 * (w - 1));
      assert 32 * w == 32 + 32 * (w - 1);
    }
  }

  /** Bit i of the infinite two's-complement expansion of x. Division rounds down, so a negative
      number has ones from some bit upward. */
  predicate Bit(x: int, i: nat) {
    x / Pow2(i) % 2 == 1
  }

  datatype BitOp = And | Or | Xor {
    predicate Apply(x: bool, y: bool) {
      match this
      case And => x && y
      case Or => x || y
      case Xor => x != y
    }
  }

  /** The operation on w-bit words. */
  function Word(op: BitOp, a: nat, b: nat, w: nat): (r: nat)
    ensures r < Pow2(w)
  {
    if w == 0 then 0 else
      (if op.Apply(a % 2 == 1, b % 2 == 1) then 1 else 0) + 2 * Word(op, a / 2, b / 2, w - 1)
  }

  lemma {:induction false} BitUp(x: int, i: nat)
    requires i > 0
    ensures Bit(x, i) == Bit(x / 2, i - 1)
  {
    DivDiv(x, 2, Pow2(i - 1));
  }

  lemma DivUnique(x: int, d: int, q: int, r: int)
    requires d > 0 && x == q * d + r && 0 <= r < d
    ensures x / d == q && x % d == r
  {
    var k := x / d - q;
    assert x == (x / d) * d + x % d;
    assert k * d == (x / d) * d - q * d;
    assert k * d == r - x % d;
    if k >= 1 {
      MulMono(1, k, d);
    } else if k <= -1 {
      MulMono(k, -1, d);
    }
  }

  lemma DivDiv(x: int, a: int, b: int)
    requires a > 0 && b > 0
    ensures a * b > 0 && x / (a * b) == x / a / b
  {
    var q, r := x / a, x % a;
    var q', r' := q / b, q % b;
    assert a * b > 0;
    assert x == q * a + r && q == q' * b + r';
    assert x == q' * (a * b) + (r' * a + r) by {
      ScaleSum(a, r', q', b);
    }
    MulMono(r', b - 1, a);
    DivUnique(x, a * b, q', r' * a + r);
  }

  /** Each bit of the word operation is the operation on that bit. */
  lemma {:induction false} WordBits(op: BitOp, a: nat, b: nat, w: nat, i: nat)
    requires i < w
    ensures Bit(Word(op, a, b, w), i) == op.Apply(Bit(a, i), Bit(b, i))
  {
    if i == 0 {
      LowBit(a);
      LowBit(b);
      LowBit(Word(op, a, b, w));
    } else {
      BitUp(Word(op, a, b, w), i);
      BitUp(a, i);
      BitUp(b, i);
      assert Word(op, a, b, w) / 2 == Word(op, a / 2, b / 2, w - 1);
      WordBits(op, a / 2, b / 2, w - 1, i - 1);
    }
  }

  lemma LowBit(x: int)
    ensures Bit(x, 0) == (x % 2 == 1)
  {
    assert Pow2(0) == 1;
  }

  /** Or-ing a multiple of 2^s with something below 2^s is addition. */
  lemma {:induction false} OrDisjoint(m: nat, s: nat, c: nat, w: nat)
    requires c < Pow2(s) && m * Pow2(s) + c < Pow2(w)
    ensures Word(Or, m * Pow2(s), c, w) == m * Pow2(s) + c
    decreases w
  {
    if w == 0 {
    } else if s == 0 {
      assert m * Pow2(s) == m;
      if m > 0 {
        assert m / 2 * Pow2(0) == m / 2;
        OrDisjoint(m / 2, 0, 0, w - 1);
      } else {
        OrDisjoint(0, 0, 0, w - 1);
      }
    } else {
      ScaleSum(m, 0, 2, Pow2(s - 1));
      var h := m * Pow2(s - 1);
      assert m * Pow2(s) == 2 * h;
      OrDisjoint(m, s - 1, c / 2, w - 1);
      assert (2 * h) / 2 == h && (2 * h) % 2 == 0;
    }
  }
}
