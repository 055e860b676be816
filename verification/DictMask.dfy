/** The index computations of the dictionary as the masks they are in the code. */
module DictMask {
  import opened Bits
  import opened BigIntBitwise
  import opened DictTable

  /** A table size is a power of two. */
  lemma {:induction false} SizeIsPow2(n: nat) returns (k: nat)
    requires PowerOfTwo(n)
    ensures n == Pow2(k)
  {
    if n == 1 {
      k := 0;
    } else {
      k := SizeIsPow2(n / 2);
      k := k + 1;
    }
  }

  /** The home slot is the hash masked by the size less one. */
  lemma {:induction false} HomeIsMask(hash: int, n: nat)
    requires n > 0 && PowerOfTwo(n)
    ensures BitwiseResult(And, hash, n - 1, Home(hash, n))
  {
    var k := SizeIsPow2(n);
    AndWithOnes(hash, k, Home(hash, n));
  }

  /** So is the next slot, of the slot number plus one. */
  lemma {:induction false} NextIsMask(i: nat, n: nat)
    requires i < n && PowerOfTwo(n)
    ensures BitwiseResult(And, i + 1, n - 1, Next(i, n))
  {
    var k := SizeIsPow2(n);
    if i + 1 == n {
      DivUnique(n, n, 1, 0);
    } else {
      DivUnique(i + 1, n, 0, i + 1);
    }
    AndWithOnes(i + 1, k, Next(i, n));
  }
}
