/** The state of one dictionary, and how it may change while a probe is suspended in a callback. */
module DictState {
  import opened DictTable
  import opened DictContents
  import opened OrderedMap

  datatype State<K, V> =
    State(table: seq<int>, entries: seq<Entry<K, V>>, nValid: nat, generation: nat, stringKeyed: bool)

  /** The structural invariant: it holds whatever equality does. */
  predicate Ok<K(==), V(==)>(s: State<K, V>) {
    Struct(s.table, s.entries) && s.nValid == CountLive(s.entries)
  }

  /** At most three quarters of the table, and one more, has ever been filled since the last rebuild. */
  predicate Loaded<K, V>(s: State<K, V>) {
    CountUsed(s.table) <= |s.entries| <= |s.table| * 3 / 4 + 1
  }

  /** The full invariant, for equality that agrees with hashing and leaves the dictionary alone. */
  ghost predicate Good<K, V>(eq: (K, K) -> bool, hash: K -> int, isString: K -> bool, s: State<K, V>) {
    && Ok(s) && Loaded(s)
    && KeysUnique(eq, s.entries) && HashesAgree(hash, s.entries)
    && (s.stringKeyed ==> AllKeys(isString, s.entries))
  }

  /** Within one table generation a slot in use never becomes empty again, an entry is never moved
      or revived and keeps its slot while it lives, and the table keeps its size. */
  predicate Evolves<K(==), V(==)>(s: State<K, V>, s': State<K, V>) {
    && |s'.table| == |s.table| && |s'.entries| >= |s.entries| && s'.stringKeyed == s.stringKeyed
    && (forall i :: 0 <= i < |s.table| && s.table[i] != EMPTY ==> s'.table[i] != EMPTY)
    && (forall e :: 0 <= e < |s.entries| ==>
          s'.entries[e].Dead? || (&& s.entries[e].Live? && s'.entries[e].key == s.entries[e].key
                                  && s'.entries[e].hash == s.entries[e].hash))
    && (forall i :: 0 <= i < |s.table| && 0 <= s.table[i] < |s.entries| && s'.entries[s.table[i]].Live? ==>
          s'.table[i] == s.table[i])
  }

  /** What any run of dictionary operations can do to the state: this is what a probe may rely on
      after a callback, and what every operation guarantees. */
  predicate Rely<K(==), V(==)>(s: State<K, V>, s': State<K, V>) {
    && Ok(s') && s.generation <= s'.generation
    && (s'.stringKeyed ==> s.stringKeyed)
    && (s'.generation == s.generation ==> Evolves(s, s'))
  }

  lemma RelyTrans<K, V>(a: State<K, V>, b: State<K, V>, c: State<K, V>)
    requires Rely(a, b) && Rely(b, c)
    ensures Rely(a, c)
  {}

  /** A new entry written to a free slot that its probe reaches. */
  lemma WrittenIsOk<K, V>(s: State<K, V>, i: nat, x: Entry<K, V>, s': State<K, V>)
    requires Ok(s) && i < |s.table| && s.table[i] < 0 && x.Live? && Chained(s.table, x.hash, i)
    requires s' == s.(table := s.table[i := |s.entries|], entries := s.entries + [x], nValid := s.nValid + 1)
    ensures Rely(s, s') && CountUsed(s'.table) <= CountUsed(s.table) + 1
  {
    WriteKeepsLinked(s.table, s.entries, i, x);
    CountUpdate(s.table, i, |s.entries|);
    CountLiveAppend(s.entries, x);
  }

  /** A chain without empty slots stays one. */
  lemma ChainSurvives<K, V>(s: State<K, V>, s': State<K, V>, hash: int, i: nat)
    requires Evolves(s, s') && i < |s.table| && Chained(s.table, hash, i)
    ensures Chained(s'.table, hash, i)
  {}

  lemma AdvanceChained(t: seq<int>, hash: int, i: nat)
    requires i < |t| && Chained(t, hash, i) && t[i] != EMPTY
    ensures Chained(t, hash, Next(i, |t|))
  {
    var n := |t|;
    var h := Home(hash, n);
    if Steps(h, i, n) + 1 < n {
      NextStep(h, i, n);
      forall j | 0 <= j < n && Steps(h, j, n) < Steps(h, Next(i, n), n)
        ensures t[j] != EMPTY
      {
        if Steps(h, j, n) == Steps(h, i, n) {
          SlotAtStep(h, i, j, n);
        }
      }
    }
  }

  /** The load bound leaves an empty slot. */
  lemma SpareSlot<K, V>(s: State<K, V>) returns (z: nat)
    requires Ok(s) && Loaded(s)
    ensures z < |s.table| && s.table[z] == EMPTY
  {
    z := EmptySlotExists(s.table);
  }

  /** The slots passed so far are in use and hold no key equal to k. */
  ghost predicate Passed<K, V>(eq: (K, K) -> bool, t: seq<int>, es: seq<Entry<K, V>>, hash: int, i: nat, k: K)
    requires i < |t| && Linked(t, es)
  {
    var h := Home(hash, |t|);
    forall j :: 0 <= j < |t| && Steps(h, j, |t|) < Steps(h, i, |t|) && t[j] >= 0 ==> !eq(es[t[j]].key, k)
  }

  lemma AdvancePassed<K, V>(eq: (K, K) -> bool, t: seq<int>, es: seq<Entry<K, V>>, hash: int, i: nat, k: K)
    requires i < |t| && Linked(t, es) && Passed(eq, t, es, hash, i, k)
    requires t[i] >= 0 ==> !eq(es[t[i]].key, k)
    ensures Passed(eq, t, es, hash, Next(i, |t|), k)
  {
    var n := |t|;
    var h := Home(hash, n);
    if Steps(h, i, n) + 1 < n {
      NextStep(h, i, n);
      forall j | 0 <= j < n && Steps(h, j, n) < Steps(h, Next(i, n), n) && t[j] >= 0
        ensures !eq(es[t[j]].key, k)
      {
        if Steps(h, j, n) == Steps(h, i, n) {
          SlotAtStep(h, i, j, n);
        }
      }
    }
  }

  /** Reaching an empty slot proves the key absent: an equal key would lie before it. */
  lemma EmptyMeansAbsent<K(!new), V>(eq: (K, K) -> bool, hash: K -> int, t: seq<int>, es: seq<Entry<K, V>>, i: nat,
      k: K)
    requires Lawful(eq, hash) && Linked(t, es) && HashesAgree(hash, es)
    requires i < |t| && t[i] == EMPTY && Passed(eq, t, es, hash(k), i, k)
    ensures Absent(eq, es, k)
  {
    var n := |t|;
    var h := Home(hash(k), n);
    forall e | 0 <= e < |es| && es[e].Live?
      ensures !eq(es[e].key, k)
    {
      if eq(es[e].key, k) {
        var j :| 0 <= j < n && t[j] == e;
        assert Chained(t, es[e].hash, j);
        if Steps(h, j, n) == Steps(h, i, n) {
          SlotAtStep(h, i, j, n);
        }
      }
    }
  }

  /** The empty slot z is still ahead, so there is another step. */
  lemma StillAhead(t: seq<int>, hash: int, i: nat, z: nat)
    requires i < |t| && z < |t| && t[z] == EMPTY && t[i] != EMPTY && Chained(t, hash, i)
    ensures var h := Home(hash, |t|);
      Steps(h, i, |t|) + 1 < |t| && Steps(h, Next(i, |t|), |t|) == Steps(h, i, |t|) + 1
  {
    var n := |t|;
    var h := Home(hash, n);
    if Steps(h, z, n) == Steps(h, i, n) {
      SlotAtStep(h, i, z, n);
    }
    NextStep(h, i, n);
  }

  lemma HomeIsStart<K, V>(eq: (K, K) -> bool, t: seq<int>, es: seq<Entry<K, V>>, hash: int, k: K)
    requires |t| > 0 && Linked(t, es)
    ensures Steps(Home(hash, |t|), Home(hash, |t|), |t|) == 0
    ensures Chained(t, hash, Home(hash, |t|)) && Passed(eq, t, es, hash, Home(hash, |t|), k)
  {}

  /** Doubling and compacting keeps the meaning and the structure, and leaves room for an insertion. */
  lemma GrownIsOk<K, V>(s: State<K, V>, s': State<K, V>)
    requires Ok(s) && s'.entries == Compact(s.entries) && |s'.table| == 2 * |s.table|
    requires Linked(s'.table, s'.entries) && s'.nValid == s.nValid
    ensures Ok(s') && Contents(s'.entries) == Contents(s.entries) && |s'.entries| <= |s'.table| * 3 / 4
  {
    CountBounds(s.table);
    CompactMeaning(s.entries);
    assert PowerOfTwo(2 * |s.table|) by {
      assert 2 * |s.table| / 2 == |s.table| && 2 * |s.table| % 2 == 0;
    }
    AllLive(s'.entries);
  }

  /** It also keeps the full invariant. */
  lemma GrownIsGood<K(!new), V>(eq: (K, K) -> bool, hash: K -> int, isString: K -> bool, s: State<K, V>, s': State<K,
      V>)
    requires Good(eq, hash, isString, s) && Ok(s')
    requires s'.entries == Compact(s.entries) && |s'.table| == 2 * |s.table|
    requires CountUsed(s'.table) == |s'.entries| && s'.stringKeyed == s.stringKeyed
    ensures Good(eq, hash, isString, s')
  {
    CompactKeys(eq, hash, s.entries);
    if s.stringKeyed {
      CompactAllKeys(isString, s.entries);
    }
  }

  /** The state of a probe for key k at slot i that has met neither an empty slot nor an equal key. */
  ghost predicate Searching<K, V>(eq: (K, K) -> bool, t: seq<int>, es: seq<Entry<K, V>>, hash: int, i: nat, k: K) {
    i < |t| && Linked(t, es) && Chained(t, hash, i) && Passed(eq, t, es, hash, i, k)
  }

  /** One more step keeps it, and comes closer to the empty slot z. */
  lemma SearchOn<K, V>(eq: (K, K) -> bool, t: seq<int>, es: seq<Entry<K, V>>, hash: int, i: nat, k: K, z: nat)
    requires Searching(eq, t, es, hash, i, k) && z < |t| && t[z] == EMPTY && t[i] != EMPTY
    requires t[i] >= 0 ==> !eq(es[t[i]].key, k)
    ensures Searching(eq, t, es, hash, Next(i, |t|), k)
    ensures Steps(Home(hash, |t|), Next(i, |t|), |t|) == Steps(Home(hash, |t|), i, |t|) + 1
  {
    StillAhead(t, hash, i, z);
    AdvanceChained(t, hash, i);
    AdvancePassed(eq, t, es, hash, i, k);
  }

  /** The same with the number of steps left before the table is exhausted. */
  ghost predicate SearchingFor<K, V>(eq: (K, K) -> bool, t: seq<int>, es: seq<Entry<K, V>>, hash: int, i: nat, k: K,
      steps: nat) {
    Searching(eq, t, es, hash, i, k) && steps == |t| - Steps(Home(hash, |t|), i, |t|)
  }

  lemma StartSearch<K, V>(eq: (K, K) -> bool, t: seq<int>, es: seq<Entry<K, V>>, hash: int, k: K)
    requires |t| > 0 && Linked(t, es)
    ensures SearchingFor(eq, t, es, hash, Home(hash, |t|), k, |t|)
  {
    HomeIsStart(eq, t, es, hash, k);
  }

  lemma SearchStepOn<K, V>(eq: (K, K) -> bool, t: seq<int>, es: seq<Entry<K, V>>, hash: int, i: nat, k: K, z: nat,
      steps: nat)
    requires SearchingFor(eq, t, es, hash, i, k, steps) && z < |t| && t[z] == EMPTY && t[i] != EMPTY
    requires t[i] >= 0 ==> !eq(es[t[i]].key, k)
    ensures steps > 1 && SearchingFor(eq, t, es, hash, Next(i, |t|), k, steps - 1)
  {
    SearchOn(eq, t, es, hash, i, k, z);
  }

  /** Ending at an empty slot. */
  lemma SearchMissed<K(!new), V>(eq: (K, K) -> bool, hash: K -> int, t: seq<int>, es: seq<Entry<K, V>>, i: nat, k: K)
    requires Lawful(eq, hash) && HashesAgree(hash, es) && Searching(eq, t, es, hash(k), i, k) && t[i] == EMPTY
    ensures Absent(eq, es, k) && Chained(t, hash(k), i)
  {
    EmptyMeansAbsent(eq, hash, t, es, i, k);
  }

  /** Appending an absent key keeps the full invariant, when the load test was passed before. */
  lemma InsertedIsGood<K(!new), V>(eq: (K, K) -> bool, hash: K -> int, isString: K -> bool, s: State<K, V>,
      s': State<K, V>, key: K, value: V)
    requires Lawful(eq, hash) && Good(eq, hash, isString, s) && Ok(s') && Absent(eq, s.entries, key)
    requires s'.entries == s.entries + [Live(key, value, hash(key))] && |s'.table| == |s.table|
    requires CountUsed(s'.table) <= CountUsed(s.table) + 1 && |s.entries| <= |s.table| * 3 / 4
    requires s'.stringKeyed == s.stringKeyed && (s.stringKeyed ==> isString(key))
    ensures Good(eq, hash, isString, s')
    ensures Contents(s'.entries) == Put(eq, Contents(s.entries), key, value)
  {
    AbsentKey(eq, s.entries, key, value, hash(key));
  }

  lemma OverwrittenIsGood<K(!new), V>(eq: (K, K) -> bool, hash: K -> int, isString: K -> bool, s: State<K, V>,
      s': State<K, V>, e: int, key: K, value: V)
    requires Good(eq, hash, isString, s) && Ok(s') && Present(eq, s.entries, e, key)
    requires s'.entries == s.entries[e := s.entries[e].(value := value)]
    requires s'.table == s.table && s'.stringKeyed == s.stringKeyed
    ensures Good(eq, hash, isString, s')
    ensures Contents(s'.entries) == Put(eq, Contents(s.entries), key, value)
  {
    PresentKey(eq, s.entries, e, key, value);
  }

  lemma DeletedIsGood<K(!new), V>(eq: (K, K) -> bool, hash: K -> int, isString: K -> bool, s: State<K, V>,
      s': State<K, V>, e: int)
    requires Good(eq, hash, isString, s) && Ok(s') && 0 <= e < |s.entries|
    requires s'.entries == s.entries[e := Dead] && |s'.table| == |s.table| && CountUsed(s'.table) == CountUsed(s.table)
    requires s'.stringKeyed == s.stringKeyed
    ensures Good(eq, hash, isString, s')
  {}
}
