/** What a probe has seen, when the equality it consults may change the dictionary under it. */
module DictSearch {
  import opened DictTable
  import opened DictState

  /** The answers of an equality callback: candidate, sought key, verdict. */
  type Log<!K> = seq<(K, K, bool)>

  /** Entry x is under another hash, or is another object than key and was judged different in `log`. */
  ghost predicate Dismissed<K, V>(x: Entry<K, V>, log: Log<K>, h: int, key: K)
    requires x.Live?
  {
    x.hash == h ==> x.key != key && (x.key, key, false) in log
  }

  /** Every live entry among the first n was dismissed. */
  ghost predicate RuledOut<K, V>(es: seq<Entry<K, V>>, n: nat, log: Log<K>, h: int, key: K) {
    forall e :: 0 <= e < n && e < |es| && es[e].Live? ==> Dismissed(es[e], log, h, key)
  }

  /** A probe for hash h meets slot j before slot i. */
  predicate Before(h: int, j: nat, i: nat, size: nat)
    requires j < size && i < size
  {
    Steps(Home(h, size), j, size) < Steps(Home(h, size), i, size)
  }

  /** Every live entry among the first n whose slot comes before slot i was dismissed. */
  ghost predicate Covered<K, V>(t: seq<int>, es: seq<Entry<K, V>>, n: nat, log: Log<K>, h: int, i: nat, key: K) {
    && i < |t|
    && forall j :: 0 <= j < |t| && Before(h, j, i, |t|) && 0 <= t[j] < n && t[j] < |es| && es[t[j]].Live? ==>
      Dismissed(es[t[j]], log, h, key)
  }

  /** Where a walk along the probe chain began: the state, and how much had been judged before. */
  datatype Walk<K, V> = Walk(start: State<K, V>, mark: nat)

  ghost predicate Continues<K, V>(w: Walk<K, V>, s: State<K, V>, log: Log<K>) {
    Ok(w.start) && Rely(w.start, s) && w.start.generation == s.generation && w.mark <= |log|
  }

  /** The walk has reached slot i, dismissing everything on the way. */
  ghost predicate Walking<K, V>(w: Walk<K, V>, s: State<K, V>, log: Log<K>, h: int, i: nat, key: K) {
    Continues(w, s, log) && Covered(s.table, s.entries, |w.start.entries|, log[w.mark..], h, i, key)
  }

  /** The walk has dismissed every entry that was there when it began and is still live. */
  ghost predicate Walked<K, V>(w: Walk<K, V>, s: State<K, V>, log: Log<K>, h: int, key: K) {
    Continues(w, s, log) && RuledOut(s.entries, |w.start.entries|, log[w.mark..], h, key)
  }

  lemma StartWalk<K, V>(s: State<K, V>, log: Log<K>, h: int, key: K)
    requires Ok(s)
    ensures Walking(Walk(s, |log|), s, log, h, Home(h, |s.table|), key)
  {}

  /** What was dismissed since a later mark was dismissed since an earlier one. */
  lemma DismissedSince<K, V>(x: Entry<K, V>, log: Log<K>, mark: nat, later: nat, h: int, key: K)
    requires x.Live? && mark <= later <= |log| && Dismissed(x, log[later..], h, key)
    ensures Dismissed(x, log[mark..], h, key)
  {
    assert log[later..] == log[mark..][later - mark..];
  }

  lemma Later<T>(log: seq<T>, log': seq<T>, mark: nat, x: T)
    requires log <= log' && mark <= |log| && x in log[mark..]
    ensures x in log'[mark..]
  {
    var i :| 0 <= i < |log[mark..]| && log[mark..][i] == x;
    assert log'[mark..][i] == x;
  }

  /** Entries do not change slots within a generation, so what is covered stays covered. */
  lemma WalkSurvives<K, V>(w: Walk<K, V>, s: State<K, V>, s': State<K, V>, log: Log<K>, log': Log<K>, h: int,
      i: nat, key: K)
    requires Ok(s) && Walking(w, s, log, h, i, key) && Rely(s, s') && s'.generation == s.generation && log <= log'
    ensures Walking(w, s', log', h, i, key)
  {
    RelyTrans(w.start, s, s');
    var t, n := s'.table, |w.start.entries|;
    forall j | 0 <= j < |t| && Before(h, j, i, |t|) && 0 <= t[j] < n && t[j] < |s'.entries| && s'.entries[t[j]].Live?
      ensures Dismissed(s'.entries[t[j]], log'[w.mark..], h, key)
    {
      SameSlot(s, s', j);
      var x := s.entries[t[j]];
      assert Dismissed(x, log[w.mark..], h, key);
      if x.hash == h {
        Later(log, log', w.mark, (x.key, key, false));
      }
    }
  }

  /** A slot that names an old entry named it before. */
  lemma SameSlot<K, V>(s: State<K, V>, s': State<K, V>, j: nat)
    requires Ok(s) && Ok(s') && Evolves(s, s') && j < |s'.table| && 0 <= s'.table[j] < |s.entries|
    ensures s.table[j] == s'.table[j]
  {
    var e := s'.table[j];
    assert s'.entries[e].Live? && s.entries[e].Live?;
    var k :| 0 <= k < |s.table| && s.table[k] == e;
    assert s'.table[k] == e;
    assert j == k;
  }

  /** One slot further: what is in slot i is no entry, or was dismissed. */
  lemma WalkOn<K, V>(w: Walk<K, V>, s: State<K, V>, log: Log<K>, h: int, i: nat, key: K)
    requires Ok(s) && Walking(w, s, log, h, i, key)
    requires s.table[i] >= 0 ==> Dismissed(s.entries[s.table[i]], log[w.mark..], h, key)
    ensures Walking(w, s, log, h, Next(i, |s.table|), key)
  {
    var t := s.table;
    var home, i' := Home(h, |t|), Next(i, |t|);
    forall j | 0 <= j < |t| && Before(h, j, i', |t|) && 0 <= t[j] < |w.start.entries| && s.entries[t[j]].Live?
      ensures Dismissed(s.entries[t[j]], log[w.mark..], h, key)
    {
      NextStep(home, i, |t|);
      if Steps(home, j, |t|) == Steps(home, i, |t|) {
        SlotAtStep(home, i, j, |t|);
      }
    }
  }

  /** An empty slot ends the chain: nothing under hash h lies beyond it. */
  lemma WalkDone<K, V>(w: Walk<K, V>, s: State<K, V>, log: Log<K>, h: int, i: nat, key: K)
    requires Ok(s) && Walking(w, s, log, h, i, key) && s.table[i] == EMPTY
    ensures Walked(w, s, log, h, key)
  {
    var t, es := s.table, s.entries;
    var home := Home(h, |t|);
    forall e | 0 <= e < |w.start.entries| && e < |es| && es[e].Live?
      ensures Dismissed(es[e], log[w.mark..], h, key)
    {
      var j :| 0 <= j < |t| && t[j] == e;
      assert Chained(t, es[e].hash, j);
      if es[e].hash == h && Steps(home, j, |t|) == Steps(home, i, |t|) {
        SlotAtStep(home, i, j, |t|);
      }
    }
  }

  /** A completed search from state s0 and log0 to s and log found no entry for the key: in one
      uninterrupted walk, begun after s0, it dismissed every entry that was there when the walk
      began and is still live; and if the table was not rebuilt since s0, every entry of s0. */
  ghost predicate NoneFor<K(!new), V(!new)>(s0: State<K, V>, log0: Log<K>, s: State<K, V>, log: Log<K>, h: int,
      key: K)
  {
    && log0 <= log
    && (exists w: Walk<K, V> :: Walked(w, s, log, h, key) && Rely(s0, w.start) && |log0| <= w.mark)
    && (s.generation == s0.generation ==> RuledOut(s.entries, |s0.entries|, log[|log0|..], h, key))
  }

  lemma FoundNone<K(!new), V(!new)>(s0: State<K, V>, log0: Log<K>, w: Walk<K, V>, s: State<K, V>, log: Log<K>,
      h: int, key: K)
    requires Rely(s0, w.start) && |log0| <= w.mark && log0 <= log && Walked(w, s, log, h, key)
    ensures NoneFor(s0, log0, s, log, h, key)
  {
    if s.generation == s0.generation {
      forall e | 0 <= e < |s0.entries| && e < |s.entries| && s.entries[e].Live?
        ensures Dismissed(s.entries[e], log[|log0|..], h, key)
      {
        assert Dismissed(s.entries[e], log[w.mark..], h, key);
        assert log[w.mark..] == log[|log0|..][w.mark - |log0|..];
      }
    }
  }

  /** The search may be counted from an earlier state. */
  lemma NoneSince<K(!new), V(!new)>(a: State<K, V>, s0: State<K, V>, log0: Log<K>, s: State<K, V>, log: Log<K>,
      h: int, key: K)
    requires Rely(a, s0) && NoneFor(s0, log0, s, log, h, key)
    ensures NoneFor(a, log0, s, log, h, key)
  {
    var w: Walk<K, V> :| Walked(w, s, log, h, key) && Rely(s0, w.start) && |log0| <= w.mark;
    RelyTrans(a, s0, w.start);
    FoundNone(a, log0, w, s, log, h, key);
  }
}
