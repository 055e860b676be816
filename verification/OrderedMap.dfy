/** An insertion-ordered map: the reference meaning of a dictionary. */
module OrderedMap {
  import opened Options

  type Pairs<K, V> = seq<(K, V)>

  /** Equality is an equivalence and equal keys hash alike. */
  ghost predicate Lawful<K(!new)>(eq: (K, K) -> bool, hash: K -> int) {
    && (forall a :: eq(a, a))
    && (forall a, b :: eq(a, b) ==> eq(b, a))
    && (forall a, b, c :: eq(a, b) && eq(b, c) ==> eq(a, c))
    && (forall a, b :: eq(a, b) ==> hash(a) == hash(b))
  }

  function Lookup<K, V>(eq: (K, K) -> bool, m: Pairs<K, V>, k: K): Option<V> {
    if m == [] then None
    else if eq(m[0].0, k) then Some(m[0].1)
    else Lookup(eq, m[1..], k)
  }

  /** A present key keeps its place and its original key object; a new one goes last. */
  function Put<K, V>(eq: (K, K) -> bool, m: Pairs<K, V>, k: K, v: V): Pairs<K, V> {
    if m == [] then [(k, v)]
    else if eq(m[0].0, k) then [(m[0].0, v)] + m[1..]
    else [m[0]] + Put(eq, m[1..], k, v)
  }

  function Remove<K, V>(eq: (K, K) -> bool, m: Pairs<K, V>, k: K): Pairs<K, V> {
    if m == [] then []
    else if eq(m[0].0, k) then m[1..]
    else [m[0]] + Remove(eq, m[1..], k)
  }

  /** No two keys are equal. */
  ghost predicate Unique<K, V>(eq: (K, K) -> bool, m: Pairs<K, V>) {
    forall i, j :: 0 <= i < j < |m| ==> !eq(m[i].0, m[j].0)
  }

  /** The map laws: what is put is found, everything else is as before, and what is removed is gone. */
  lemma {:induction false} LookupPut<K(!new), V>(eq: (K, K) -> bool, hash: K -> int, m: Pairs<K, V>, k: K, v: V, k': K)
    requires Lawful(eq, hash)
    ensures Lookup(eq, Put(eq, m, k, v), k') == if eq(k, k') then Some(v) else Lookup(eq, m, k')
  {
    if m != [] {
      LookupPut(eq, hash, m[1..], k, v, k');
    }
  }

  lemma {:induction false} LookupAbsent<K(!new), V>(eq: (K, K) -> bool, m: Pairs<K, V>, k: K)
    requires forall i :: 0 <= i < |m| ==> !eq(m[i].0, k)
    ensures Lookup(eq, m, k) == None
  {
    if m != [] {
      LookupAbsent(eq, m[1..], k);
    }
  }

  lemma {:induction false} LookupRemove<K(!new), V>(eq: (K, K) -> bool, hash: K -> int, m: Pairs<K, V>, k: K, k': K)
    requires Lawful(eq, hash) && Unique(eq, m)
    ensures Lookup(eq, Remove(eq, m, k), k') == if eq(k, k') then None else Lookup(eq, m, k')
  {
    if m != [] {
      if eq(m[0].0, k) {
        if eq(k, k') {
          forall i | 0 <= i < |m[1..]|
            ensures !eq(m[1..][i].0, k')
          {
            assert !eq(m[0].0, m[i + 1].0);
          }
          LookupAbsent(eq, m[1..], k');
        }
      } else {
        LookupRemove(eq, hash, m[1..], k, k');
      }
    }
  }

  /** Position i of the map holds a key equal to k. */
  ghost predicate KeyAt<K, V>(eq: (K, K) -> bool, m: Pairs<K, V>, i: int, k: K) {
    0 <= i < |m| && eq(m[i].0, k)
  }

  /** With unique keys only one position holds a key, so no earlier one does. */
  lemma NotFirst<K(!new), V>(eq: (K, K) -> bool, hash: K -> int, m: Pairs<K, V>, i: nat, k: K)
    requires Lawful(eq, hash) && Unique(eq, m) && KeyAt(eq, m, i, k) && i > 0
    ensures !eq(m[0].0, k) && Unique(eq, m[1..]) && KeyAt(eq, m[1..], i - 1, k)
  {
    assert !eq(m[0].0, m[i].0) && eq(k, m[i].0);
  }

  /** With unique keys the operations act at the one position that holds the key. */
  lemma {:induction false} LookupAt<K(!new), V>(eq: (K, K) -> bool, hash: K -> int, m: Pairs<K, V>, i: nat, k: K)
    requires Lawful(eq, hash) && Unique(eq, m) && KeyAt(eq, m, i, k)
    ensures Lookup(eq, m, k) == Some(m[i].1)
  {
    if i > 0 {
      NotFirst(eq, hash, m, i, k);
      LookupAt(eq, hash, m[1..], i - 1, k);
    }
  }

  lemma {:induction false} PutAt<K(!new), V>(eq: (K, K) -> bool, hash: K -> int, m: Pairs<K, V>, i: nat, k: K, v: V)
    requires Lawful(eq, hash) && Unique(eq, m) && KeyAt(eq, m, i, k)
    ensures Put(eq, m, k, v) == m[i := (m[i].0, v)]
  {
    var rest := m[1..];
    if i == 0 {
      assert m[0 := (m[0].0, v)] == [(m[0].0, v)] + rest;
    } else {
      NotFirst(eq, hash, m, i, k);
      PutAt(eq, hash, rest, i - 1, k, v);
      assert m[i := (m[i].0, v)] == [m[0]] + rest[i - 1 := (m[i].0, v)];
    }
  }

  lemma {:induction false} RemoveAt<K(!new), V>(eq: (K, K) -> bool, hash: K -> int, m: Pairs<K, V>, i: nat, k: K)
    requires Lawful(eq, hash) && Unique(eq, m) && KeyAt(eq, m, i, k)
    ensures Remove(eq, m, k) == m[..i] + m[i + 1..]
  {
    var rest := m[1..];
    if i == 0 {
      assert m[..0] + rest == rest;
    } else {
      NotFirst(eq, hash, m, i, k);
      RemoveAt(eq, hash, rest, i - 1, k);
      WithoutOne(m, i);
    }
  }

  lemma WithoutOne<T>(m: seq<T>, i: nat)
    requires 0 < i < |m|
    ensures m[..i] + m[i + 1..] == [m[0]] + (m[1..][..i - 1] + m[1..][i..])
  {}

  /** Without the key, nothing is found or removed. */
  lemma {:induction false} FoundNowhere<K, V>(eq: (K, K) -> bool, m: Pairs<K, V>, k: K)
    requires forall i :: !KeyAt(eq, m, i, k)
    ensures Lookup(eq, m, k) == None && Remove(eq, m, k) == m
  {
    if m != [] {
      NowhereElse(eq, m, k);
      FoundNowhere(eq, m[1..], k);
      assert m == [m[0]] + m[1..];
    }
  }

  /** A new pair goes last. */
  lemma {:induction false} PutLast<K, V>(eq: (K, K) -> bool, m: Pairs<K, V>, k: K, v: V)
    requires forall i :: !KeyAt(eq, m, i, k)
    ensures Put(eq, m, k, v) == m + [(k, v)]
  {
    if m != [] {
      NowhereElse(eq, m, k);
      PutLast(eq, m[1..], k, v);
      assert m == [m[0]] + m[1..];
    }
  }

  lemma NowhereElse<K, V>(eq: (K, K) -> bool, m: Pairs<K, V>, k: K)
    requires m != [] && forall i :: !KeyAt(eq, m, i, k)
    ensures !eq(m[0].0, k) && forall i :: !KeyAt(eq, m[1..], i, k)
  {
    assert !KeyAt(eq, m, 0, k);
    forall i
      ensures !KeyAt(eq, m[1..], i, k)
    {
      assert !KeyAt(eq, m, i + 1, k);
    }
  }
}
