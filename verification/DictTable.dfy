/** The storage of the dictionary as values: an index table with linear probing over an
    append-only array of entries, and the structural facts about it. */
module DictTable {

  const EMPTY: int := -1
  const TOMBSTONE: int := -2
  const MIN_TABLE_SIZE: nat := 16

  datatype Entry<K, V> = Dead | Live(key: K, value: V, hash: int)

  predicate PowerOfTwo(n: nat) {
    n == 1 || (n > 0 && n % 2 == 0 && PowerOfTwo(n / 2))
  }

  /** hash & (n - 1): the low bits of the hash, n being a power of two. */
  function Home(hash: int, n: nat): (i: nat)
    requires n > 0
    ensures i < n
  {
    hash % n
  }

  /** (i + 1) & (n - 1) */
  function Next(i: nat, n: nat): (j: nat)
    requires i < n
    ensures j < n
  {
    if i + 1 == n then 0 else i + 1
  }

  /** The number of probe steps from slot h to slot i. */
  function Steps(h: nat, i: nat, n: nat): (d: nat)
    requires h < n && i < n
    ensures d < n
  {
    if i >= h then i - h else i + n - h
  }

  /** No empty slot is met on the way from the hash's home slot to slot i. */
  predicate Chained(t: seq<int>, hash: int, i: nat)
    requires i < |t|
  {
    var h := Home(hash, |t|);
    forall j :: 0 <= j < |t| && Steps(h, j, |t|) < Steps(h, i, |t|) ==> t[j] != EMPTY
  }

  /** Slots and entries agree: every used slot names a live entry, no entry has two slots,
      every live entry has one, and every entry can be reached from its home slot. */
  predicate Linked<K(==), V(==)>(t: seq<int>, es: seq<Entry<K, V>>) {
    && (forall i :: 0 <= i < |t| ==> t[i] == EMPTY || t[i] == TOMBSTONE || (0 <= t[i] < |es| && es[t[i]].Live?))
    && (forall i, j :: 0 <= i < j < |t| && t[i] >= 0 ==> t[i] != t[j])
    && (forall e :: 0 <= e < |es| && es[e].Live? ==> e in t)
    && (forall i :: 0 <= i < |t| && t[i] >= 0 ==> Chained(t, es[t[i]].hash, i))
    && CountLive(es) == CountSlots(t)
  }

  predicate Struct<K(==), V(==)>(t: seq<int>, es: seq<Entry<K, V>>) {
    |t| >= MIN_TABLE_SIZE && PowerOfTwo(|t|) && Linked(t, es)
  }

  function CountLive<K, V>(es: seq<Entry<K, V>>): nat {
    if |es| == 0 then 0 else CountLive(es[..|es| - 1]) + if es[|es| - 1].Live? then 1 else 0
  }

  /** The number of slots that name an entry. */
  function CountSlots(t: seq<int>): nat {
    if |t| == 0 then 0 else CountSlots(t[..|t| - 1]) + if t[|t| - 1] >= 0 then 1 else 0
  }

  /** The number of slots that stop no probe. */
  function CountUsed(t: seq<int>): nat {
    if |t| == 0 then 0 else CountUsed(t[..|t| - 1]) + if t[|t| - 1] != EMPTY then 1 else 0
  }

  function One(b: bool): nat { if b then 1 else 0 }

  lemma {:induction false} CountLiveUpdate<K, V>(es: seq<Entry<K, V>>, e: nat, x: Entry<K, V>)
    requires e < |es|
    ensures CountLive(es[e := x]) + One(es[e].Live?) == CountLive(es) + One(x.Live?)
  {
    var last := |es| - 1;
    if e == last {
      assert es[e := x][..last] == es[..last];
    } else {
      assert es[e := x][..last] == es[..last][e := x];
      CountLiveUpdate(es[..last], e, x);
    }
  }

  lemma {:induction false} CountLiveAppend<K, V>(es: seq<Entry<K, V>>, x: Entry<K, V>)
    ensures CountLive(es + [x]) == CountLive(es) + One(x.Live?)
  {
    assert (es + [x])[..|es|] == es;
  }

  lemma {:induction false} CountUpdate(t: seq<int>, i: nat, x: int)
    requires i < |t|
    ensures CountSlots(t[i := x]) + One(t[i] >= 0) == CountSlots(t) + One(x >= 0)
    ensures CountUsed(t[i := x]) + One(t[i] != EMPTY) == CountUsed(t) + One(x != EMPTY)
  {
    var last := |t| - 1;
    if i == last {
      assert t[i := x][..last] == t[..last];
    } else {
      assert t[i := x][..last] == t[..last][i := x];
      CountUpdate(t[..last], i, x);
    }
  }

  lemma {:induction false} CountBounds(t: seq<int>)
    ensures CountSlots(t) <= CountUsed(t) <= |t|
  {
    if |t| > 0 {
      CountBounds(t[..|t| - 1]);
    }
  }

  /** A table that is not full of used slots has an empty one. */
  lemma {:induction false} EmptySlotExists(t: seq<int>) returns (z: nat)
    requires CountUsed(t) < |t|
    ensures z < |t| && t[z] == EMPTY
  {
    var last := |t| - 1;
    if t[last] == EMPTY {
      z := last;
    } else {
      z := EmptySlotExists(t[..last]);
    }
  }

  /** Probing one slot further. */
  lemma NextStep(h: nat, i: nat, n: nat)
    requires h < n && i < n && Steps(h, i, n) + 1 < n
    ensures Steps(h, Next(i, n), n) == Steps(h, i, n) + 1
  {}

  lemma SlotAtStep(h: nat, i: nat, j: nat, n: nat)
    requires h < n && i < n && j < n && Steps(h, i, n) == Steps(h, j, n)
    ensures i == j
  {}

  lemma FillKeepsChain(t: seq<int>, i: nat, x: int, hash: int, j: nat)
    requires i < |t| && j < |t| && x != EMPTY && Chained(t, hash, j)
    ensures Chained(t[i := x], hash, j)
  {}

  lemma FillKeepsChains<K, V>(t: seq<int>, es: seq<Entry<K, V>>, i: nat, x: Entry<K, V>)
    requires i < |t| && x.Live? && Chained(t, x.hash, i)
    requires forall j :: 0 <= j < |t| && t[j] >= 0 ==> t[j] < |es| && es[t[j]].Live? && Chained(t, es[t[j]].hash, j)
    ensures var t', es' := t[i := |es|], es + [x];
      forall j :: 0 <= j < |t'| && t'[j] >= 0 ==> t'[j] < |es'| && es'[t'[j]].Live? && Chained(t', es'[t'[j]].hash, j)
  {
    var t', es' := t[i := |es|], es + [x];
    forall j | 0 <= j < |t'| && t'[j] >= 0
      ensures t'[j] < |es'| && es'[t'[j]].Live? && Chained(t', es'[t'[j]].hash, j)
    {
      FillKeepsChain(t, i, |es|, es'[t'[j]].hash, j);
    }
  }

  lemma FillKeepsSlots<K, V>(t: seq<int>, es: seq<Entry<K, V>>, i: nat)
    requires i < |t| && t[i] < 0
    ensures forall e :: 0 <= e < |es| && e in t ==> e in t[i := |es|]
  {
    forall e | 0 <= e < |es| && e in t
      ensures e in t[i := |es|]
    {
      var j :| 0 <= j < |t| && t[j] == e;
      assert t[i := |es|][j] == e;
    }
  }

  /** Slot i is the first on the probe's way that holds no entry. */
  predicate FirstFree(t: seq<int>, hash: int, i: nat) {
    NoneFreeBefore(t, hash, i) && t[i] < 0
  }

  predicate NoneFreeBefore(t: seq<int>, hash: int, i: nat) {
    i < |t| && forall j :: 0 <= j < |t| && Steps(Home(hash, |t|), j, |t|) < Steps(Home(hash, |t|), i, |t|) ==> t[j] >= 0
  }

  /** A probe at slot i has recorded the first tombstone it met, if it met one. */
  predicate Recorded(t: seq<int>, hash: int, i: nat, tombstone: int) {
    if tombstone < 0 then NoneFreeBefore(t, hash, i)
    else i < |t| && tombstone < |t| && FirstFree(t, hash, tombstone) && t[tombstone] == TOMBSTONE
  }

  lemma RecordOn(t: seq<int>, hash: int, i: nat, tombstone: int)
    requires Recorded(t, hash, i, tombstone) && t[i] != EMPTY && (t[i] >= 0 || t[i] == TOMBSTONE)
    ensures Recorded(t, hash, Next(i, |t|), if t[i] == TOMBSTONE && tombstone < 0 then i else tombstone)
  {
    var h := Home(hash, |t|);
    if tombstone < 0 && t[i] >= 0 && Steps(h, i, |t|) + 1 < |t| {
      NextStep(h, i, |t|);
      forall j | 0 <= j < |t| && Steps(h, j, |t|) < Steps(h, Next(i, |t|), |t|)
        ensures t[j] >= 0
      {
        if Steps(h, j, |t|) == Steps(h, i, |t|) {
          SlotAtStep(h, i, j, |t|);
        }
      }
    }
  }

  /** A new entry in an empty or tombstone slot that its probe reaches. */
  lemma WriteKeepsLinked<K, V>(t: seq<int>, es: seq<Entry<K, V>>, i: nat, x: Entry<K, V>)
    requires Linked(t, es) && i < |t| && t[i] < 0 && x.Live? && Chained(t, x.hash, i)
    ensures Linked(t[i := |es|], es + [x])
  {
    var t', es' := t[i := |es|], es + [x];
    CountUpdate(t, i, |es|);
    CountLiveAppend(es, x);
    FillKeepsSlots(t, es, i);
    assert t'[i] == |es|;
    FillKeepsChains(t, es, i, x);
  }

  /** A deleted entry leaves a tombstone, so no other entry's chain is broken. */
  lemma DeleteKeepsLinked<K, V>(t: seq<int>, es: seq<Entry<K, V>>, i: nat)
    requires Linked(t, es) && i < |t| && t[i] >= 0
    ensures Linked(t[i := TOMBSTONE], es[t[i] := Dead])
  {
    var t', es' := t[i := TOMBSTONE], es[t[i] := Dead];
    CountUpdate(t, i, TOMBSTONE);
    CountLiveUpdate(es, t[i], Dead);
    forall e | 0 <= e < |es'| && es'[e].Live?
      ensures e in t'
    {
      var j :| 0 <= j < |t| && t[j] == e;
      assert t'[j] == e;
    }
  }

  lemma OverwriteKeepsLinked<K, V>(t: seq<int>, es: seq<Entry<K, V>>, e: nat, v: V)
    requires Linked(t, es) && e < |es| && es[e].Live?
    ensures Linked(t, es[e := es[e].(value := v)])
  {
    CountLiveUpdate(es, e, es[e].(value := v));
  }

  lemma {:induction false} EmptyTableLinked<K, V>(t: seq<int>)
    requires forall i :: 0 <= i < |t| ==> t[i] == EMPTY
    ensures Linked<K, V>(t, []) && CountUsed(t) == 0
  {
    CountEmpty(t);
  }

  lemma {:induction false} CountEmpty(t: seq<int>)
    requires forall i :: 0 <= i < |t| ==> t[i] == EMPTY
    ensures CountUsed(t) == CountSlots(t) == 0
  {
    if |t| > 0 {
      CountEmpty(t[..|t| - 1]);
    }
  }
}
