/** The insertion-ordered open-addressing dictionary. */
module Dictionary {
  import opened Options
  import opened DictTable
  import opened DictContents
  import opened DictState
  import opened DictSearch
  import opened OrderedMap

  /** How the keys' equality behaves during an operation. `Quiet` equality is the pure relation of
      the dictionary. `Reentrant` equality may return anything, may raise, and may itself run any
      operations on this dictionary; such a run is followed for at most `steps` probe steps. */
  datatype Equality = Quiet | Reentrant(steps: nat)

  /** What a search for a key's value came to; a search that raised or was cut off is unfinished. */
  datatype Result<V> = Got(value: V) | NoKey | Unfinished

  datatype Probe = Slot(slot: nat) | Missing | Raised | OutOfSteps

  class Dict<K(==,!new), V(==,!new)> {
    const eq: (K, K) -> bool
    const hash: K -> int
    const isString: K -> bool

    var table: seq<int>
    var entries: seq<Entry<K, V>>
    var nValid: nat
    var generation: nat
    var stringKeyed: bool

    /** The answers of the equality callback so far: candidate, sought key, verdict. */
    ghost var log: Log<K>

    function St(): State<K, V>
      reads this
    {
      State(table, entries, nValid, generation, stringKeyed)
    }

    ghost predicate Valid()
      reads this
    {
      Lawful(eq, hash) && Good(eq, hash, isString, St())
    }

    /** The dictionary as an ordered map. */
    ghost function Map(): Pairs<K, V>
      reads this
    {
      Contents(entries)
    }

    constructor (eq: (K, K) -> bool, hash: K -> int, isString: K -> bool)
      ensures this.eq == eq && this.hash == hash && this.isString == isString
      ensures Lawful(eq, hash) ==> Valid()
      ensures Ok(St()) && Map() == [] && stringKeyed
    {
      this.eq, this.hash, this.isString := eq, hash, isString;
      table := seq(MIN_TABLE_SIZE, _ => EMPTY);
      entries := [];
      nValid, generation, stringKeyed := 0, 0, true;
      log := [];
      new;
      EmptyTableLinked<K, V>(table);
      assert PowerOfTwo(8);
    }

    /** A new entry in slot i. */
    method WriteNewAtSlot(i: nat, h: int, key: K, value: V)
      requires Ok(St()) && i < |table| && table[i] < 0 && Chained(table, h, i)
      modifies this`table, this`entries, this`nValid
      ensures Ok(St()) && Rely(old(St()), St())
      ensures entries == old(entries) + [Live(key, value, h)] && |table| == old(|table|)
      ensures CountUsed(table) <= old(CountUsed(table)) + 1
    {
      table := table[i := |entries|];
      entries := entries + [Live(key, value, h)];
      nValid := nValid + 1;
      WrittenIsOk(old(St()), i, Live(key, value, h), St());
    }

    method WriteExisting(e: nat, value: V)
      requires Ok(St()) && e < |entries| && entries[e].Live?
      modifies this`entries
      ensures Ok(St()) && Rely(old(St()), St())
      ensures entries == old(entries)[e := old(entries)[e].(value := value)]
    {
      OverwriteKeepsLinked(table, entries, e, value);
      CountLiveUpdate(entries, e, entries[e].(value := value));
      entries := entries[e := entries[e].(value := value)];
    }

    /** The slot becomes a tombstone and its entry dead. */
    method DeleteEntryAtSlot(i: nat)
      requires Ok(St()) && i < |table| && table[i] >= 0
      modifies this`table, this`entries, this`nValid
      ensures Ok(St()) && Rely(old(St()), St())
      ensures entries == old(entries)[old(table)[i] := Dead] && |table| == old(|table|)
      ensures CountUsed(table) == old(CountUsed(table))
    {
      var e := table[i];
      DeleteKeepsLinked(table, entries, i);
      CountUpdate(table, i, TOMBSTONE);
      CountLiveUpdate(entries, e, Dead);
      entries := entries[e := Dead];
      table := table[i := TOMBSTONE];
      nValid := nValid - 1;
    }

    method Clear()
      requires Ok(St())
      modifies this`table, this`entries, this`nValid, this`generation
      ensures Ok(St()) && Rely(old(St()), St()) && generation > old(generation)
      ensures old(Valid()) ==> Valid()
      ensures entries == [] && Map() == []
    {
      entries, nValid := [], 0;
      generation := generation + 1;
      table := seq(|table|, _ => EMPTY);
      EmptyTableLinked<K, V>(table);
    }

    method PromoteToGeneralShape()
      requires Ok(St()) && stringKeyed
      modifies this`stringKeyed, this`generation
      ensures Ok(St()) && Rely(old(St()), St()) && !stringKeyed && generation > old(generation)
      ensures old(Valid()) ==> Valid()
    {
      stringKeyed := false;
      generation := generation + 1;
    }

    /** The first empty slot from the home slot on. */
    static method FindEmpty(t: seq<int>, h: int) returns (i: nat)
      requires |t| > 0 && CountUsed(t) < |t|
      ensures i < |t| && t[i] == EMPTY && Chained(t, h, i)
    {
      i := Home(h, |t|);
      ghost var z := EmptySlotExists(t);
      while t[i] != EMPTY
        invariant i < |t| && Chained(t, h, i)
        decreases |t| - Steps(Home(h, |t|), i, |t|)
      {
        StillAhead(t, h, i, z);
        AdvanceChained(t, h, i);
        i := Next(i, |t|);
      }
    }

    /** The table with the next entry after `done` entered. */
    static method Place(t: seq<int>, ghost done: seq<Entry<K, V>>, entry: Entry<K, V>, next: nat) returns (t': seq<int>)
      requires Linked(t, done) && CountUsed(t) == |done| == next && next < |t| && entry.Live?
      ensures Linked(t', done + [entry]) && CountUsed(t') == next + 1 && |t'| == |t|
    {
      var i := FindEmpty(t, entry.hash);
      WriteKeepsLinked(t, done, i, entry);
      CountUpdate(t, i, next);
      t' := t[i := next];
    }

    /** Moves the live entries down in place and enters each in the fresh table. */
    method Rebuild()
      requires |table| > 0 && CountLive(entries) < |table| && forall i :: 0 <= i < |table| ==> table[i] == EMPTY
      modifies this`table, this`entries
      ensures entries == Compact(old(entries)) && |table| == old(|table|)
      ensures Linked(table, entries) && CountUsed(table) == |entries|
    {
      ghost var es := entries;
      EmptyTableLinked<K, V>(table);
      var write, read := 0, 0;
      while read < |entries|
        invariant write <= read <= |entries| == |es| && |table| == old(|table|)
        invariant entries[..write] == Compact(es[..read]) && entries[read..] == es[read..]
        invariant Linked(table, Compact(es[..read])) && CountUsed(table) == write
      {
        ghost var done := Compact(es[..read]);
        CompactStep(es, read);
        MoveDown(entries, es, write, read);
        var entry := entries[read];
        if entry.Live? {
          entries := entries[write := entry];
          table := Place(table, done, entry, write);
          write := write + 1;
        }
        read := read + 1;
      }
      assert es[..read] == es;
      entries := entries[..write];
    }

    /** Doubles the table and drops dead entries. */
    method Grow()
      requires Ok(St())
      modifies this`table, this`entries, this`generation
      ensures Ok(St()) && Rely(old(St()), St()) && generation > old(generation)
      ensures entries == Compact(old(entries)) && Map() == old(Map())
      ensures |table| == 2 * old(|table|) && CountUsed(table) == |entries| <= |table| * 3 / 4
      ensures old(Valid()) ==> Valid()
    {
      CountBounds(table);
      generation := generation + 1;
      table := seq(2 * |table|, _ => EMPTY);
      Rebuild();
      GrownIsOk(old(St()), St());
      if old(Valid()) {
        GrownIsGood(eq, hash, isString, old(St()), St());
      }
    }

    /** The string-keyed probe: a slot with an equal key, or, at an empty slot, the slot to insert
        at, which is the first tombstone met if any. The empty slot z bounds the search. */
    static method ProbeTable(eq: (K, K) -> bool, t: seq<int>, es: seq<Entry<K, V>>, h: int, key: K, ghost z: nat)
      returns (slot: nat, ghost end: nat)
      requires Linked(t, es) && z < |t| && t[z] == EMPTY
      requires forall e :: 0 <= e < |es| && es[e].Live? ==> eq(key, es[e].key) == eq(es[e].key, key)
      ensures slot < |t| && Searching(eq, t, es, h, end, key)
      ensures t[slot] >= 0 ==> eq(es[t[slot]].key, key)
      ensures t[slot] < 0 ==> t[end] == EMPTY && Chained(t, h, slot) && FirstFree(t, h, slot)
    {
      var i: nat := Home(h, |t|);
      var tombstone := -1;
      HomeIsStart(eq, t, es, h, key);
      while true
        invariant Searching(eq, t, es, h, i, key)
        invariant tombstone == -1 || (0 <= tombstone < |t| && t[tombstone] < 0 && Chained(t, h, tombstone))
        invariant Recorded(t, h, i, tombstone)
        decreases |t| - Steps(Home(h, |t|), i, |t|)
      {
        if t[i] == EMPTY {
          return if tombstone == -1 then i else tombstone, i;
        }
        RecordOn(t, h, i, tombstone);
        if t[i] == TOMBSTONE {
          tombstone := if tombstone == -1 then i else tombstone;
        } else if eq(key, es[t[i]].key) {
          return i, i;
        }
        SearchOn(eq, t, es, h, i, key, z);
        i := Next(i, |t|);
      }
    }

    /** String-keyed search. It terminates because the load bound leaves an empty slot. */
    method FindEntry(key: K) returns (slot: nat)
      requires Valid()
      ensures slot < |table|
      ensures table[slot] >= 0 ==> Present(eq, entries, table[slot], key)
      ensures table[slot] < 0 ==> Absent(eq, entries, key) && Chained(table, hash(key), slot)
      ensures table[slot] < 0 ==> FirstFree(table, hash(key), slot)
    {
      ghost var z := SpareSlot(St());
      ghost var end: nat;
      slot, end := ProbeTable(eq, table, entries, hash(key), key, z);
      if table[slot] >= 0 {
        TheEntry(eq, hash, entries, table[slot], key);
      } else {
        SearchMissed(eq, hash, table, entries, end, key);
      }
    }

    /** The equality callback. Reentrant equality may leave any state that operations on this
        dictionary can produce, and may answer anything or raise. */
    method TestEqual(candidate: K, key: K, mode: Equality) returns (equal: Option<bool>)
      requires Ok(St())
      modifies this`table, this`entries, this`nValid, this`generation, this`stringKeyed, this`log
      ensures Rely(old(St()), St())
      ensures mode.Quiet? ==> St() == old(St()) && equal == Some(eq(candidate, key))
      ensures log == if equal.Some? then old(log) + [(candidate, key, equal.value)] else old(log)
    {
      if mode.Quiet? {
        log := log + [(candidate, key, eq(candidate, key))];
        return Some(eq(candidate, key));
      }
      var s: State<K, V> := *;
      if Rely(St(), s) {
        table, entries, nValid := s.table, s.entries, s.nValid;
        generation, stringKeyed := s.generation, s.stringKeyed;
      }
      equal := *;
      log := if equal.Some? then log + [(candidate, key, equal.value)] else log;
    }

    /** Whether the slot still names the entry that was handed to the callback. */
    predicate EntryStillMatches(gen: nat, i: nat, e: int, candidate: K)
      reads this
    {
      && generation == gen
      && i < |table| && table[i] == e
      && 0 <= e < |entries|
      && entries[e].Live? && entries[e].key == candidate
    }

    /** What a completed search hands to its caller: a live slot whose key is the sought object or
        was judged equal to it by the last callback. */
    ghost predicate Hit(i: nat, h: int, key: K)
      reads this
    {
      Ok(St()) && i < |table| && table[i] >= 0 && Judged(entries, log, table[i], h, key)
    }

    /** Shows the entry in slot i to equality, then checks that the slot still names it. */
    method Examine(i: nat, h: int, key: K, mode: Equality) returns (v: Verdict)
      requires Ok(St()) && i < |table| && table[i] >= 0 && entries[table[i]].hash == h
      modifies this`table, this`entries, this`nValid, this`generation, this`stringKeyed, this`log
      ensures Rely(old(St()), St())
      ensures old(log) <= log
      ensures v == Different || v == Same ==> generation == old(generation) && i < |table| && table[i] >= 0
      ensures v == Same ==> Hit(i, h, key)
      ensures v == Different && old(entries[table[i]].key) != key ==>
        Dismissed(entries[table[i]], log[|old(log)|..], h, key)
      ensures mode.Quiet? ==> St() == old(St()) && v == if eq(entries[table[i]].key, key) then Same else Different
    {
      var gen, e := generation, table[i];
      var candidate := entries[e].key;
      var equal := TestEqual(candidate, key, mode);
      if equal.None? {
        return Failed;
      }
      if !EntryStillMatches(gen, i, e, candidate) {
        return Moved;
      }
      assert equal == Some(false) ==> log[|old(log)|..] == [(candidate, key, false)];
      return if equal.value then Same else Different;
    }

    /** The same in the course of a walk, which goes on past a dismissed entry and begins anew at the
        home slot when the entry was moved. */
    method ExamineWalking(i: nat, h: int, key: K, mode: Equality, ghost w: Walk<K, V>)
      returns (v: Verdict, ghost w': Walk<K, V>)
      requires Ok(St()) && i < |table| && table[i] >= 0 && entries[table[i]].hash == h && entries[table[i]].key != key
      requires Walking(w, St(), log, h, i, key)
      modifies this`table, this`entries, this`nValid, this`generation, this`stringKeyed, this`log
      ensures Rely(old(St()), St()) && old(log) <= log
      ensures (w' == w || Rely(w.start, w'.start)) && w.mark <= w'.mark
      ensures v == Different || v == Same ==> generation == old(generation) && i < |table| && table[i] >= 0
      ensures v == Different ==> w' == w && Walking(w, St(), log, h, i, key)
      ensures v == Different ==> Dismissed(entries[table[i]], log[w.mark..], h, key)
      ensures v == Moved ==> Walking(w', St(), log, h, Home(h, |table|), key)
      ensures v == Same ==> Hit(i, h, key)
      ensures mode.Quiet? ==> St() == old(St()) && v == if eq(entries[table[i]].key, key) then Same else Different
    {
      w' := w;
      ghost var before, judged := St(), log;
      v := Examine(i, h, key, mode);
      RelyTrans(w.start, before, St());
      if v == Moved {
        StartWalk(St(), log, h, key);
        w' := Walk(St(), |log|);
      } else if v == Different {
        WalkSurvives(w, before, St(), judged, log, h, i, key);
        DismissedSince(entries[table[i]], log, w.mark, |judged|, h, key);
      }
    }

    /** The cursor of an insert probe: its slot and the recorded tombstone can be reached from home. */
    ghost predicate At(c: Cursor, h: int)
      reads this
    {
      && c.i < |table| && Chained(table, h, c.i)
      && (c.tombstone == -1 || (0 <= c.tombstone < |table| && Chained(table, h, c.tombstone)))
    }

    /** An insert probe may end at slot i. */
    ghost predicate CanEndAt(i: nat, h: int, key: K)
      reads this
    {
      i < |table| && if table[i] >= 0 then Hit(i, h, key) else Chained(table, h, i)
    }

    /** Shows the entry under the cursor to equality and drops a tombstone that was filled meanwhile. */
    method ExamineAtCursor(c: Cursor, h: int, key: K, mode: Equality, ghost w: Walk<K, V>)
      returns (v: Verdict, c': Cursor, ghost w': Walk<K, V>)
      requires Ok(St()) && At(c, h) && table[c.i] >= 0 && entries[table[c.i]].hash == h
      requires entries[table[c.i]].key != key && Walking(w, St(), log, h, c.i, key)
      modifies this`table, this`entries, this`nValid, this`generation, this`stringKeyed, this`log
      ensures Rely(old(St()), St()) && old(log) <= log
      ensures (w' == w || Rely(w.start, w'.start)) && w.mark <= w'.mark
      ensures v == Different || v == Same ==> c'.i == c.i && At(c', h) && table[c.i] >= 0
      ensures v == Different ==> w' == w && Walking(w, St(), log, h, c.i, key)
      ensures v == Different ==> Dismissed(entries[table[c.i]], log[w.mark..], h, key)
      ensures v == Moved ==> At(c', h) && Walking(w', St(), log, h, c'.i, key)
      ensures v == Same ==> Hit(c.i, h, key)
      ensures mode.Quiet? ==> St() == old(St()) && v == if eq(entries[table[c.i]].key, key) then Same else Different
      ensures mode.Quiet? && Recorded(table, h, c.i, c.tombstone) ==> c' == c
    {
      c' := c;
      ghost var before := St();
      v, w' := ExamineWalking(c.i, h, key, mode, w);
      if v == Moved {
        c' := Cursor(Home(h, |table|), -1);
      } else if v != Failed {
        KeepChains(before, St(), h, c.i, c.tombstone);
        if c.tombstone >= 0 && table[c.tombstone] != TOMBSTONE {
          c' := c.(tombstone := -1);
        }
      }
    }

    /** The step of the insert probe at an entry under the sought hash that is not the sought object. */
    method InsertAtEntry(c: Cursor, key: K, h: int, mode: Equality, ghost w: Walk<K, V>)
      returns (r: Option<Probe>, c': Cursor, ghost w': Walk<K, V>)
      requires Ok(St()) && At(c, h) && table[c.i] >= 0 && entries[table[c.i]].hash == h
      requires entries[table[c.i]].key != key && Walking(w, St(), log, h, c.i, key)
      requires mode.Quiet? ==> Recorded(table, h, c.i, c.tombstone)
      modifies this`table, this`entries, this`nValid, this`generation, this`stringKeyed, this`log
      ensures Rely(old(St()), St()) && old(log) <= log
      ensures (w' == w || Rely(w.start, w'.start)) && w.mark <= w'.mark
      ensures r == None ==> At(c', h) && Walking(w', St(), log, h, c'.i, key)
      ensures r.Some? ==> r.value.Raised? || (r.value.Slot? && Hit(r.value.slot, h, key))
      ensures mode.Quiet? ==> St() == old(St()) && QuietStep(c.i, key, h, r, c'.i)
      ensures mode.Quiet? && r == None ==> Recorded(table, h, c'.i, c'.tombstone)
    {
      var v;
      v, c', w' := ExamineAtCursor(c, h, key, mode, w);
      if v == Failed {
        return Some(Raised), c, w';
      }
      if v == Moved {
        return None, c', w';
      }
      if v == Same {
        return Some(Slot(c.i)), c, w';
      }
      AdvanceChained(table, h, c.i);
      WalkOn(w, St(), log, h, c.i, key);
      if mode.Quiet? {
        RecordOn(table, h, c.i, c.tombstone);
      }
      c' := c'.(i := Next(c.i, |table|));
      r := None;
    }

    /** One step of the insert probe: it ends, restarts from home, or moves to the next slot. */
    method InsertStep(c: Cursor, key: K, h: int, mode: Equality, ghost w: Walk<K, V>)
      returns (r: Option<Probe>, c': Cursor, ghost w': Walk<K, V>)
      requires Ok(St()) && At(c, h) && Walking(w, St(), log, h, c.i, key)
      requires mode.Quiet? ==> Recorded(table, h, c.i, c.tombstone)
      modifies this`table, this`entries, this`nValid, this`generation, this`stringKeyed, this`log
      ensures Rely(old(St()), St()) && old(log) <= log
      ensures (w' == w || Rely(w.start, w'.start)) && w.mark <= w'.mark
      ensures r == None ==> At(c', h) && Walking(w', St(), log, h, c'.i, key)
      ensures r.Some? ==> r.value.Raised? || (r.value.Slot? && CanEndAt(r.value.slot, h, key))
      ensures r.Some? && r.value.Slot? && table[r.value.slot] < 0 ==> Walked(w', St(), log, h, key)
      ensures mode.Quiet? ==> St() == old(St()) && QuietStep(c.i, key, h, r, c'.i)
      ensures mode.Quiet? && r == None ==> Recorded(table, h, c'.i, c'.tombstone)
      ensures mode.Quiet? && r.Some? && r.value.Slot? && table[r.value.slot] < 0 ==> FirstFree(table, h, r.value.slot)
    {
      c', w' := c, w;
      if table[c.i] == EMPTY {
        WalkDone(w, St(), log, h, c.i, key);
        var available := c.tombstone >= 0 && table[c.tombstone] == TOMBSTONE;
        return Some(Slot(if available then c.tombstone else c.i)), c, w;
      }
      if table[c.i] >= 0 && entries[table[c.i]].hash == h {
        if entries[table[c.i]].key == key {
          return Some(Slot(c.i)), c, w;
        }
        r, c', w' := InsertAtEntry(c, key, h, mode, w);
        return;
      }
      AdvanceChained(table, h, c.i);
      WalkOn(w, St(), log, h, c.i, key);
      if mode.Quiet? {
        RecordOn(table, h, c.i, c.tombstone);
      }
      var recorded := if table[c.i] == TOMBSTONE && c.tombstone < 0 then c.i else c.tombstone;
      return None, Cursor(Next(c.i, |table|), recorded), w;
    }

    /** What a step of a probe does when equality is quiet. */
    ghost predicate QuietStep(i: nat, key: K, h: int, r: Option<Probe>, i': nat)
      requires Ok(St()) && i < |table|
      reads this
    {
      if table[i] == EMPTY then r.Some? && r.value.Slot? && r.value.slot < |table| && table[r.value.slot] < 0
      else if table[i] >= 0 && entries[table[i]].hash == h
              && (entries[table[i]].key == key || eq(entries[table[i]].key, key))
      then r == Some(Slot(i))
      else r == None && i' == Next(i, |table|)
    }

    /** Under quiet equality the stored hash of an equal key is the sought hash. */
    ghost predicate HashesFor(key: K, h: int)
      reads this
    {
      forall e :: 0 <= e < |entries| && entries[e].Live? && eq(entries[e].key, key) ==> entries[e].hash == h
    }

    /** Where an insert probe stands when equality is quiet, with an empty slot z ahead. */
    ghost predicate QuietProbe(c: Cursor, h: int, key: K, steps: nat, z: nat)
      reads this
    {
      && z < |table| && table[z] == EMPTY && HashesFor(key, h)
      && SearchingFor(eq, table, entries, h, c.i, key, steps) && Recorded(table, h, c.i, c.tombstone)
    }

    /** Where it ends: at an equal key, or, having come to an empty slot, at the first free one. */
    ghost predicate QuietEnd(end: nat, slot: nat, h: int, key: K)
      reads this
    {
      && slot < |table| && Searching(eq, table, entries, h, end, key)
      && (table[slot] >= 0 ==> entries[table[slot]].key == key || eq(entries[table[slot]].key, key))
      && (table[slot] < 0 ==> table[end] == EMPTY && FirstFree(table, h, slot))
    }

    /** One round of the insert probe, with the bookkeeping for quiet equality. */
    method InsertRound(c: Cursor, key: K, h: int, mode: Equality, ghost w: Walk<K, V>, ghost steps: nat, ghost z: nat)
      returns (r: Option<Probe>, c': Cursor, ghost w': Walk<K, V>)
      requires Ok(St()) && At(c, h) && Walking(w, St(), log, h, c.i, key)
      requires mode.Quiet? ==> QuietProbe(c, h, key, steps, z)
      modifies this`table, this`entries, this`nValid, this`generation, this`stringKeyed, this`log
      ensures Rely(old(St()), St()) && old(log) <= log
      ensures (w' == w || Rely(w.start, w'.start)) && w.mark <= w'.mark
      ensures r == None ==> At(c', h) && Walking(w', St(), log, h, c'.i, key)
      ensures r.Some? ==> r.value.Raised? || (r.value.Slot? && CanEndAt(r.value.slot, h, key))
      ensures r.Some? && r.value.Slot? && table[r.value.slot] < 0 ==> Walked(w', St(), log, h, key)
      ensures mode.Quiet? ==> St() == old(St())
      ensures mode.Quiet? && r.None? ==> steps > 1 && QuietProbe(c', h, key, steps - 1, z)
      ensures mode.Quiet? && r.Some? ==> r.value.Slot? && QuietEnd(c.i, r.value.slot, h, key)
    {
      r, c', w' := InsertStep(c, key, h, mode, w);
      if mode.Quiet? && r.None? {
        SearchStepOn(eq, table, entries, h, c.i, key, z, steps);
      }
    }

    /** The insert probe. Whatever the callbacks do, a completed probe ends at a live slot whose key
        is the sought object or was just judged equal, or at a free slot that no empty slot separates
        from the home slot, having dismissed every other entry that could be the key's. Under quiet
        equality it always completes, at the first free slot if the key is absent. */
    method InsertProbe(key: K, h: int, mode: Equality, ghost z: nat)
      returns (r: Probe, ghost end: nat)
      requires Ok(St()) && (mode.Quiet? ==> z < |table| && table[z] == EMPTY && HashesFor(key, h))
      modifies this`table, this`entries, this`nValid, this`generation, this`stringKeyed, this`log
      ensures Rely(old(St()), St()) && !r.Missing? && old(log) <= log
      ensures r.Slot? ==> CanEndAt(r.slot, h, key)
      ensures r.Slot? && table[r.slot] < 0 ==> NoneFor(old(St()), old(log), St(), log, h, key)
      ensures mode.Quiet? ==> St() == old(St()) && r.Slot? && QuietEnd(end, r.slot, h, key)
    {
      var steps: nat := if mode.Quiet? then |table| else mode.steps;
      StartSearch(eq, table, entries, h, key);
      var c := Cursor(Home(h, |table|), -1);
      end := c.i;
      ghost var w := Walk(St(), |log|);
      StartWalk(St(), log, h, key);
      while steps > 0
        invariant Rely(old(St()), St()) && At(c, h) && old(log) <= log
        invariant Walking(w, St(), log, h, c.i, key) && Rely(old(St()), w.start) && |old(log)| <= w.mark
        invariant mode.Quiet? ==> St() == old(St()) && QuietProbe(c, h, key, steps, z)
      {
        ghost var before := St();
        var outcome, c';
        ghost var w';
        outcome, c', w' := InsertRound(c, key, h, mode, w, steps, z);
        RelyTrans(old(St()), before, St());
        if w' != w {
          RelyTrans(old(St()), w.start, w'.start);
        }
        if outcome.Some? {
          if outcome.value.Slot? && table[outcome.value.slot] < 0 {
            FoundNone(old(St()), old(log), w', St(), log, h, key);
          }
          return outcome.value, c.i;
        }
        c, w, steps := c', w', steps - 1;
      }
      return OutOfSteps, c.i;
    }

    /** One step of the lookup probe. */
    method LookupStep(i: nat, key: K, h: int, mode: Equality, ghost w: Walk<K, V>)
      returns (r: Option<Probe>, i': nat, ghost w': Walk<K, V>)
      requires Ok(St()) && i < |table| && Walking(w, St(), log, h, i, key)
      modifies this`table, this`entries, this`nValid, this`generation, this`stringKeyed, this`log
      ensures Rely(old(St()), St()) && i' < |table|
      ensures old(log) <= log && (w' == w || Rely(w.start, w'.start)) && w.mark <= w'.mark
      ensures r == None ==> Walking(w', St(), log, h, i', key)
      ensures r == Some(Missing) ==> Walked(w', St(), log, h, key)
      ensures r.Some? ==> !r.value.OutOfSteps?
      ensures r.Some? && r.value.Slot? ==> Hit(r.value.slot, h, key)
      ensures mode.Quiet? ==> St() == old(St())
      ensures mode.Quiet? && table[i] == EMPTY ==> r == Some(Missing)
      ensures mode.Quiet? && table[i] != EMPTY ==> QuietStep(i, key, h, r, i')
    {
      i', w' := i, w;
      if table[i] == EMPTY {
        WalkDone(w, St(), log, h, i, key);
        return Some(Missing), i, w;
      }
      if table[i] >= 0 && entries[table[i]].hash == h {
        if entries[table[i]].key == key {
          return Some(Slot(i)), i, w;
        }
        var v;
        v, w' := ExamineWalking(i, h, key, mode, w);
        if v == Failed {
          return Some(Raised), Home(h, |table|), w';
        }
        if v == Moved {
          return None, Home(h, |table|), w';
        }
        if v == Same {
          return Some(Slot(i)), i, w';
        }
      }
      WalkOn(w, St(), log, h, i, key);
      return None, Next(i, |table|), w;
    }

    /** The lookup probe. A completed hit is live in the current table. */
    method LookupProbe(key: K, h: int, mode: Equality, ghost z: nat)
      returns (r: Probe, ghost end: nat)
      requires Ok(St()) && (mode.Quiet? ==> z < |table| && table[z] == EMPTY && HashesFor(key, h))
      modifies this`table, this`entries, this`nValid, this`generation, this`stringKeyed, this`log
      ensures Rely(old(St()), St()) && old(log) <= log
      ensures r.Slot? ==> Hit(r.slot, h, key)
      ensures r.Missing? ==> NoneFor(old(St()), old(log), St(), log, h, key)
      ensures mode.Quiet? ==> St() == old(St()) && (r.Slot? || r.Missing?) && Searching(eq, table, entries, h, end, key)
      ensures mode.Quiet? && r.Slot? ==> entries[table[r.slot]].key == key || eq(entries[table[r.slot]].key, key)
      ensures mode.Quiet? && r.Missing? ==> table[end] == EMPTY
    {
      var steps: nat := if mode.Quiet? then |table| else mode.steps;
      StartSearch(eq, table, entries, h, key);
      var i: nat := Home(h, |table|);
      end := i;
      ghost var w := Walk(St(), |log|);
      StartWalk(St(), log, h, key);
      while steps > 0
        invariant Rely(old(St()), St()) && i < |table| && old(log) <= log
        invariant Walking(w, St(), log, h, i, key) && Rely(old(St()), w.start) && |old(log)| <= w.mark
        invariant mode.Quiet? ==> St() == old(St()) && SearchingFor(eq, table, entries, h, i, key, steps)
      {
        ghost var before := St();
        var outcome, i';
        ghost var w';
        outcome, i', w' := LookupStep(i, key, h, mode, w);
        RelyTrans(old(St()), before, St());
        if w' != w {
          RelyTrans(old(St()), w.start, w'.start);
        }
        if outcome.Some? {
          if outcome.value.Missing? {
            FoundNone(old(St()), old(log), w', St(), log, h, key);
          }
          return outcome.value, i;
        }
        if mode.Quiet? {
          SearchStepOn(eq, table, entries, h, i, key, z, steps);
        }
        i, w, steps := i', w', steps - 1;
      }
      return OutOfSteps, i;
    }

    /** find_entry_slot_for_general_insert */
    method FindSlotForGeneralInsert(key: K, mode: Equality) returns (r: Probe)
      requires Ok(St()) && (mode.Quiet? ==> Valid())
      modifies this`table, this`entries, this`nValid, this`generation, this`stringKeyed, this`log
      ensures Rely(old(St()), St()) && !r.Missing? && old(log) <= log
      ensures r.Slot? ==> CanEndAt(r.slot, hash(key), key)
      ensures r.Slot? && table[r.slot] < 0 ==> NoneFor(old(St()), old(log), St(), log, hash(key), key)
      ensures mode.Quiet? ==> St() == old(St()) && r.Slot?
      ensures mode.Quiet? && table[r.slot] >= 0 ==> Present(eq, entries, table[r.slot], key)
      ensures mode.Quiet? && table[r.slot] < 0 ==> Absent(eq, entries, key) && FirstFree(table, hash(key), r.slot)
    {
      ghost var z: nat, end: nat := 0, 0;
      if mode.Quiet? {
        z := SpareSlot(St());
      }
      r, end := InsertProbe(key, hash(key), mode, z);
      if mode.Quiet? {
        if table[r.slot] >= 0 {
          TheEntry(eq, hash, entries, table[r.slot], key);
        } else {
          SearchMissed(eq, hash, table, entries, end, key);
        }
      }
    }

    /** find_entry_slot_for_general_lookup */
    method FindSlotForGeneralLookup(key: K, mode: Equality) returns (r: Probe)
      requires Ok(St()) && (mode.Quiet? ==> Valid())
      modifies this`table, this`entries, this`nValid, this`generation, this`stringKeyed, this`log
      ensures Rely(old(St()), St()) && old(log) <= log
      ensures r.Slot? ==> Hit(r.slot, hash(key), key)
      ensures r.Missing? ==> NoneFor(old(St()), old(log), St(), log, hash(key), key)
      ensures mode.Quiet? ==> St() == old(St()) && (r.Slot? || r.Missing?)
      ensures mode.Quiet? && r.Slot? ==> Present(eq, entries, table[r.slot], key)
      ensures mode.Quiet? && r.Missing? ==> Absent(eq, entries, key)
    {
      ghost var z: nat, end: nat := 0, 0;
      if mode.Quiet? {
        z := SpareSlot(St());
      }
      r, end := LookupProbe(key, hash(key), mode, z);
      if mode.Quiet? {
        if r.Slot? {
          TheEntry(eq, hash, entries, table[r.slot], key);
        } else {
          SearchMissed(eq, hash, table, entries, end, key);
        }
      }
    }

    /** The load test that precedes every insertion. */
    method ResizeIfNeeded()
      requires Ok(St())
      modifies this`table, this`entries, this`generation
      ensures Ok(St()) && Rely(old(St()), St()) && Map() == old(Map())
      ensures entries == old(entries) || entries == Compact(old(entries))
      ensures |entries| <= |table| * 3 / 4 && (old(Loaded(St())) ==> Loaded(St())) && (old(Valid()) ==> Valid())
    {
      if |entries| > |table| * 3 / 4 {
        Grow();
      }
    }

    /** Writes into the slot found for key: overwrites a live entry or appends a new one. */
    method StoreAt(slot: nat, key: K, value: V)
      requires Ok(St()) && slot < |table| && (table[slot] < 0 ==> Chained(table, hash(key), slot))
      modifies this`table, this`entries, this`nValid
      ensures Ok(St()) && Rely(old(St()), St())
      ensures var e := old(table[slot]);
        Wrote(old(St()), St(), if e < 0 then |old(entries)| else e, key, value, hash(key))
      ensures old(Valid() && |entries| <= |table| * 3 / 4 && (stringKeyed ==> isString(key))
                  && (if table[slot] < 0 then Absent(eq, entries, key) else Present(eq, entries, table[slot], key)))
              ==> Valid() && Map() == Put(eq, old(Map()), key, value)
    {
      ghost var s := St();
      ghost var good := Valid() && |entries| <= |table| * 3 / 4 && (stringKeyed ==> isString(key))
        && (if table[slot] < 0 then Absent(eq, entries, key) else Present(eq, entries, table[slot], key));
      if table[slot] < 0 {
        WriteNewAtSlot(slot, hash(key), key, value);
        if good {
          InsertedIsGood(eq, hash, isString, s, St(), key, value);
        }
      } else {
        ghost var e := table[slot];
        WriteExisting(table[slot], value);
        if good {
          OverwrittenIsGood(eq, hash, isString, s, St(), e, key, value);
        }
      }
    }

    /** general_set_item. A run that raises or is cut off has written nothing itself. */
    method GeneralSetItem(key: K, value: V, mode: Equality)
      returns (stored: bool, ghost found: State<K, V>, ghost at: nat)
      requires Ok(St()) && (mode.Quiet? ==> Valid() && !stringKeyed)
      modifies this`table, this`entries, this`nValid, this`generation, this`stringKeyed, this`log
      ensures Rely(old(St()), found) && Rely(old(St()), St())
      ensures stored ==> Wrote(found, St(), at, key, value, hash(key)) && Judged(entries, log, at, hash(key), key)
      ensures stored && at == |found.entries| ==> NoneFor(old(St()), old(log), found, log, hash(key), key)
      ensures !stored ==> St() == found
      ensures mode.Quiet? ==> stored && Valid() && stringKeyed == old(stringKeyed)
      ensures mode.Quiet? ==> Map() == Put(eq, old(Map()), key, value)
    {
      ResizeIfNeeded();
      ghost var resized := St();
      var r := FindSlotForGeneralInsert(key, mode);
      RelyTrans(old(St()), resized, St());
      found, at := St(), 0;
      stored := r.Slot?;
      if stored {
        if table[r.slot] < 0 {
          NoneSince(old(St()), resized, old(log), St(), log, hash(key), key);
        }
        at := if table[r.slot] < 0 then |entries| else table[r.slot];
        StoreAt(r.slot, key, value);
        RelyTrans(old(St()), found, St());
      }
    }

    /** Deletes the entry in the slot found for key and hands out its value. */
    method TakeAt(slot: nat, ghost key: K) returns (value: V)
      requires Ok(St()) && slot < |table| && table[slot] >= 0
      modifies this`table, this`entries, this`nValid
      ensures Ok(St()) && Rely(old(St()), St()) && value == old(entries[table[slot]].value)
      ensures Took(old(St()), St(), old(table[slot]))
      ensures old(Valid() && Present(eq, entries, table[slot], key)) ==>
        Valid() && Map() == Remove(eq, old(Map()), key) && Lookup(eq, old(Map()), key) == Some(value)
    {
      ghost var s, e := St(), table[slot];
      value := entries[table[slot]].value;
      DeleteEntryAtSlot(slot);
      if old(Valid() && Present(eq, entries, table[slot], key)) {
        PresentKey(eq, s.entries, e, key, value);
        DeletedIsGood(eq, hash, isString, s, St(), e);
      }
    }

    /** general_pop_item_if_present, and general_del_item when the value is dropped. */
    method GeneralPop(key: K, mode: Equality) returns (r: Result<V>, ghost found: State<K, V>, ghost at: nat)
      requires Ok(St()) && (mode.Quiet? ==> Valid())
      modifies this`table, this`entries, this`nValid, this`generation, this`stringKeyed, this`log
      ensures Rely(old(St()), found) && Rely(old(St()), St())
      ensures r.Got? ==> Judged(found.entries, log, at, hash(key), key) && r.value == found.entries[at].value
      ensures r.Got? ==> Took(found, St(), at)
      ensures !r.Got? ==> St() == found
      ensures r.NoKey? ==> NoneFor(old(St()), old(log), found, log, hash(key), key)
      ensures mode.Quiet? ==> Valid() && stringKeyed == old(stringKeyed) && !r.Unfinished?
      ensures mode.Quiet? ==> AsOption(r) == Lookup(eq, old(Map()), key) && Map() == Remove(eq, old(Map()), key)
    {
      var slot := FindSlotForGeneralLookup(key, mode);
      found, at := St(), 0;
      if slot.Slot? {
        at := table[slot.slot];
        var v := TakeAt(slot.slot, key);
        RelyTrans(old(St()), found, St());
        return Got(v), found, at;
      }
      if mode.Quiet? {
        NotFound(eq, entries, key);
      }
      r := if slot.Missing? then NoKey else Unfinished;
    }

    /** general_get_item_if_present */
    method GeneralGet(key: K, mode: Equality) returns (r: Result<V>, ghost at: nat)
      requires Ok(St()) && (mode.Quiet? ==> Valid())
      modifies this`table, this`entries, this`nValid, this`generation, this`stringKeyed, this`log
      ensures Rely(old(St()), St())
      ensures r.Got? ==> Judged(entries, log, at, hash(key), key) && r.value == entries[at].value
      ensures r.NoKey? ==> NoneFor(old(St()), old(log), St(), log, hash(key), key)
      ensures mode.Quiet? ==> St() == old(St()) && !r.Unfinished? && AsOption(r) == Lookup(eq, Map(), key)
    {
      var slot := FindSlotForGeneralLookup(key, mode);
      at := 0;
      if slot.Slot? {
        var e := table[slot.slot];
        at := e;
        if mode.Quiet? {
          PresentKey(eq, entries, e, key, entries[e].value);
        }
        return Got(entries[e].value), at;
      }
      if mode.Quiet? {
        NotFound(eq, entries, key);
      }
      r := if slot.Missing? then NoKey else Unfinished;
    }

    /** general_setdefault_with_presence: an entry judged equal is read, or else the default is written. */
    method GeneralSetDefault(key: K, default: V, mode: Equality)
      returns (value: Option<V>, ghost found: State<K, V>, ghost at: nat)
      requires Ok(St()) && (mode.Quiet? ==> Valid() && !stringKeyed)
      modifies this`table, this`entries, this`nValid, this`generation, this`stringKeyed, this`log
      ensures Rely(old(St()), found) && Rely(old(St()), St())
      ensures value.Some? ==> Judged(entries, log, at, hash(key), key) && value.value == entries[at].value
      ensures value.Some? && at < |found.entries| ==> St() == found
      ensures value.Some? && at >= |found.entries| ==> Wrote(found, St(), at, key, default, hash(key))
      ensures value.Some? && at >= |found.entries| ==> NoneFor(old(St()), old(log), found, log, hash(key), key)
      ensures value.None? ==> St() == found
      ensures mode.Quiet? ==> Valid() && stringKeyed == old(stringKeyed) && value.Some?
      ensures mode.Quiet? && Lookup(eq, old(Map()), key).Some? ==>
        Map() == old(Map()) && value == Lookup(eq, old(Map()), key)
      ensures mode.Quiet? && Lookup(eq, old(Map()), key).None? ==>
        Map() == Put(eq, old(Map()), key, default) && value == Some(default)
    {
      ResizeIfNeeded();
      ghost var resized := St();
      var r := FindSlotForGeneralInsert(key, mode);
      RelyTrans(old(St()), resized, St());
      found, at := St(), 0;
      if !r.Slot? {
        return None, found, at;
      }
      if table[r.slot] >= 0 {
        var e := table[r.slot];
        if mode.Quiet? {
          PresentKey(eq, entries, e, key, entries[e].value);
        }
        return Some(entries[e].value), found, e;
      }
      if mode.Quiet? {
        NotFound(eq, entries, key);
      }
      NoneSince(old(St()), resized, old(log), St(), log, hash(key), key);
      at := |entries|;
      StoreAt(r.slot, key, default);
      RelyTrans(old(St()), found, St());
      return Some(default), found, at;
    }

    method StringKeyedInsert(key: K, value: V)
      requires Valid() && stringKeyed && isString(key)
      modifies this`table, this`entries, this`nValid, this`generation
      ensures Valid() && Rely(old(St()), St()) && stringKeyed && Map() == Put(eq, old(Map()), key, value)
    {
      ResizeIfNeeded();
      ghost var resized := St();
      var slot := FindEntry(key);
      StoreAt(slot, key, value);
      RelyTrans(old(St()), resized, St());
    }

    method StringKeyedGet(key: K) returns (value: Option<V>)
      requires Valid()
      ensures value == Lookup(eq, Map(), key)
    {
      var slot := FindEntry(key);
      if table[slot] >= 0 {
        PresentKey(eq, entries, table[slot], key, entries[table[slot]].value);
        return Some(entries[table[slot]].value);
      }
      NotFound(eq, entries, key);
      return None;
    }

    /** string_keyed_delete, and the string-keyed pop. */
    method StringKeyedPop(key: K) returns (value: Option<V>)
      requires Valid()
      modifies this`table, this`entries, this`nValid
      ensures Valid() && Rely(old(St()), St())
      ensures value == Lookup(eq, old(Map()), key) && Map() == Remove(eq, old(Map()), key)
    {
      var slot := FindEntry(key);
      if table[slot] < 0 {
        NotFound(eq, entries, key);
        return None;
      }
      var v := TakeAt(slot, key);
      return Some(v);
    }

    /** Removes and returns the pair inserted last. */
    method PopItem() returns (pair: Option<(K, V)>)
      requires Ok(St())
      modifies this`table, this`entries, this`nValid
      ensures Ok(St()) && Rely(old(St()), St()) && (old(Valid()) ==> Valid())
      ensures pair == None <==> old(Map()) == []
      ensures pair == None ==> St() == old(St())
      ensures pair.Some? ==> old(Map()) == Map() + [pair.value]
    {
      ContentsLength(entries);
      if nValid == 0 {
        return None;
      }
      var last := LastLive(entries);
      var slot := SlotOf(table, last);
      ghost var s := St();
      pair := Some((entries[last].key, entries[last].value));
      LastEntry(entries, last);
      DeleteEntryAtSlot(slot);
      if old(Valid()) {
        DeletedIsGood(eq, hash, isString, s, St(), last);
      }
    }

    static method LastLive(es: seq<Entry<K, V>>) returns (last: nat)
      requires CountLive(es) > 0
      ensures last < |es| && es[last].Live? && forall f :: last < f < |es| ==> es[f].Dead?
    {
      var found := -1;
      var e := 0;
      while e < |es|
        invariant 0 <= e <= |es|
        invariant found == -1 ==> forall f :: 0 <= f < e ==> es[f].Dead?
        invariant found != -1 ==> 0 <= found < e && es[found].Live? && forall f :: found < f < e ==> es[f].Dead?
      {
        if es[e].Live? {
          found := e;
        }
        e := e + 1;
      }
      if found == -1 {
        AllDead(es);
        ContentsLength(es);
        assert false;
      }
      last := found;
    }

    static method SlotOf(t: seq<int>, e: int) returns (slot: nat)
      requires e in t
      ensures slot < |t| && t[slot] == e
    {
      slot := 0;
      while t[slot] != e
        invariant slot < |t| && forall j :: 0 <= j < slot ==> t[j] != e
        decreases |t| - slot
      {
        slot := slot + 1;
      }
    }

    /** Appends a stored entry under its stored hash, without consulting equality. */
    method CopyStoredEntry(key: K, value: V, h: int)
      requires Ok(St()) && Loaded(St())
      modifies this`table, this`entries, this`nValid, this`generation
      ensures Ok(St()) && Loaded(St()) && stringKeyed == old(stringKeyed) && Map() == old(Map()) + [(key, value)]
      ensures old(Valid() && Absent(eq, entries, key) && (stringKeyed ==> isString(key))) && h == hash(key) ==> Valid()
    {
      if Absent(eq, entries, key) {
        CompactAbsent(eq, entries, key);
      }
      ResizeIfNeeded();
      AppendEntry(key, value, h);
    }

    method AppendEntry(key: K, value: V, h: int)
      requires Ok(St()) && Loaded(St()) && |entries| <= |table| * 3 / 4
      modifies this`table, this`entries, this`nValid
      ensures Ok(St()) && Loaded(St()) && Map() == old(Map()) + [(key, value)]
      ensures old(Valid() && Absent(eq, entries, key) && (stringKeyed ==> isString(key))) && h == hash(key) ==> Valid()
    {
      ghost var s := St();
      var slot := FindEmpty(table, h);
      WriteNewAtSlot(slot, h, key, value);
      if old(Valid() && Absent(eq, entries, key) && (stringKeyed ==> isString(key))) && h == hash(key) {
        InsertedIsGood(eq, hash, isString, s, St(), key, value);
      }
      ContentsAppend(s.entries, Live(key, value, h));
    }

    /** A copy has the same pairs in the same order, and the same shape, whatever equality does or did. */
    constructor Copy(other: Dict<K, V>)
      requires Ok(other.St())
      ensures Ok(St()) && Loaded(St()) && eq == other.eq && hash == other.hash && isString == other.isString
      ensures stringKeyed == other.stringKeyed && Map() == other.Map()
      ensures other.Valid() ==> Valid()
    {
      eq, hash, isString := other.eq, other.hash, other.isString;
      table := seq(MIN_TABLE_SIZE, _ => EMPTY);
      entries := [];
      nValid, generation, stringKeyed := 0, 0, true;
      log := [];
      new;
      EmptyTableLinked<K, V>(table);
      assert PowerOfTwo(8);
      if !other.stringKeyed {
        PromoteToGeneralShape();
      }
      CopyEntries(other.entries);
    }

    /** Entries that this dictionary may hold together. */
    ghost predicate Copyable(es: seq<Entry<K, V>>)
      reads this
    {
      KeysUnique(eq, es) && HashesAgree(hash, es) && (stringKeyed ==> AllKeys(isString, es))
    }

    method CopyEntries(es: seq<Entry<K, V>>)
      requires Ok(St()) && Loaded(St()) && Map() == []
      modifies this`table, this`entries, this`nValid, this`generation
      ensures Ok(St()) && Loaded(St()) && stringKeyed == old(stringKeyed) && Map() == Contents(es)
      ensures old(Valid() && Copyable(es)) ==> Valid()
    {
      ghost var good := Valid() && Copyable(es);
      var k := 0;
      while k < |es|
        invariant 0 <= k <= |es| && (good ==> Valid())
        invariant Ok(St()) && Loaded(St()) && stringKeyed == old(stringKeyed) && Map() == Contents(es[..k])
      {
        assert es[..k + 1] == es[..k] + [es[k]];
        ContentsConcat(es[..k], [es[k]]);
        assert [es[k]][1..] == [];
        if es[k].Live? {
          if good {
            NextIsAbsent(eq, es, k, entries);
          }
          CopyStoredEntry(es[k].key, es[k].value, es[k].hash);
        }
        k := k + 1;
      }
      assert es[..k] == es;
    }
  }

  lemma MoveDown<E>(a: seq<E>, es: seq<E>, write: nat, read: nat)
    requires write <= read < |a| == |es| && a[read..] == es[read..]
    ensures a[read] == es[read] && a[read + 1..] == es[read + 1..]
    ensures a[write := a[read]][..write + 1] == a[..write] + [a[read]]
    ensures a[write := a[read]][read + 1..] == es[read + 1..]
  {
    assert a[read] == a[read..][0] && es[read] == es[read..][0];
    assert a[read + 1..] == a[read..][1..] && es[read + 1..] == es[read..][1..];
  }

  ghost function AsOption<V>(r: Result<V>): Option<V> {
    if r.Got? then Some(r.value) else None
  }

  /** Entry e is live under hash h, and its key is the sought object or was judged equal to it by the
      last callback. */
  ghost predicate Judged<K, V>(es: seq<Entry<K, V>>, log: Log<K>, e: int, h: int, key: K) {
    && 0 <= e < |es| && es[e].Live? && es[e].hash == h
    && (es[e].key == key || (log != [] && log[|log| - 1] == (es[e].key, key, true)))
  }

  /** s' is s after one write for key at position `at`: the value of a live entry, or a new entry. */
  ghost predicate Wrote<K, V>(s: State<K, V>, s': State<K, V>, at: nat, key: K, value: V, h: int) {
    && s'.generation == s.generation && s'.stringKeyed == s.stringKeyed && at <= |s.entries|
    && if at == |s.entries| then s'.entries == s.entries + [Live(key, value, h)]
       else s.entries[at].Live? && s'.entries == s.entries[at := s.entries[at].(value := value)] && s'.table == s.table
  }

  /** s' is s after the entry at position `at` was deleted. */
  ghost predicate Took<K, V>(s: State<K, V>, s': State<K, V>, at: nat) {
    && s'.generation == s.generation && s'.stringKeyed == s.stringKeyed
    && at < |s.entries| && s'.entries == s.entries[at := Dead]
  }

  datatype Cursor = Cursor(i: nat, tombstone: int)

  datatype Verdict = Same | Different | Moved | Failed

  /** Probe positions stay reachable across a callback that did not change the generation. */
  lemma KeepChains<K, V>(s: State<K, V>, s': State<K, V>, h: int, i: nat, tombstone: int)
    requires Rely(s, s') && s'.generation == s.generation && i < |s.table| && Chained(s.table, h, i)
    requires tombstone == -1 || (0 <= tombstone < |s.table| && Chained(s.table, h, tombstone))
    ensures i < |s'.table| && Chained(s'.table, h, i)
    ensures tombstone == -1 || (0 <= tombstone < |s'.table| && Chained(s'.table, h, tombstone))
  {
    ChainSurvives(s, s', h, i);
    if tombstone != -1 {
      ChainSurvives(s, s', h, tombstone);
    }
  }
}
