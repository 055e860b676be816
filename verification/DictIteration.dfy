/** Iterating a dictionary while it is being changed. */
module DictIteration {
  import opened DictTable
  import opened DictContents
  import opened DictState
  import opened Dictionary
  import opened DictRuns

  /** The position of an iterator and the size it expects; -1 after a size change was seen. */
  datatype Position = Position(index: nat, expected: int)

  datatype Outcome<K, V> = Yield(entry: nat, key: K, value: V) | Stop | SizeChanged

  /** The first live entry from i on, or the end. */
  function NextLive<K, V>(es: seq<Entry<K, V>>, i: nat): (e: nat)
    ensures i <= e && (e < |es| ==> es[e].Live?)
    ensures forall f :: i <= f < e && f < |es| ==> es[f].Dead?
    ensures e <= |es| || e == i
    decreases |es| - i
  {
    if i >= |es| || es[i].Live? then i else NextLive(es, i + 1)
  }

  /** One step of the iterator on the dictionary as it is now. */
  function Advance<K, V>(p: Position, s: State<K, V>): (Position, Outcome<K, V>) {
    if s.nValid != p.expected then (p.(expected := -1), SizeChanged) else
      var e := NextLive(s.entries, p.index);
      if e < |s.entries| then (p.(index := e + 1), Yield(e, s.entries[e].key, s.entries[e].value))
      else (p.(index := e), Stop)
  }

  class DictIterator<K(==,!new), V(==,!new)> {
    const dict: Dict<K, V>
    var index: nat
    var expectedSize: int

    function Pos(): Position
      reads this
    {
      Position(index, expectedSize)
    }

    constructor (dict: Dict<K, V>)
      ensures this.dict == dict && Pos() == Position(0, dict.nValid)
    {
      this.dict := dict;
      index := 0;
      expectedSize := dict.nValid;
    }

    method Next() returns (r: Outcome<K, V>)
      modifies this
      ensures (Pos(), r) == Advance(old(Pos()), dict.St())
      ensures r == SizeChanged <==> dict.nValid != old(expectedSize)
      ensures r == SizeChanged ==> index == old(index) && expectedSize == -1
      ensures r != SizeChanged ==> expectedSize == old(expectedSize) && old(index) <= index
      ensures r.Yield? ==> HandsOut(r, dict.entries) && r.entry >= old(index) && index == r.entry + 1
      ensures r.Yield? ==> forall e :: old(index) <= e < r.entry ==> dict.entries[e].Dead?
      ensures r == Stop ==> forall e :: old(index) <= e < |dict.entries| ==> dict.entries[e].Dead?
    {
      if dict.nValid != expectedSize {
        expectedSize := -1;
        return SizeChanged;
      }
      var scan := index;
      while scan < |dict.entries|
        invariant index == old(index) && expectedSize == old(expectedSize)
        invariant NextLive(dict.entries, scan) == NextLive(dict.entries, index)
      {
        if dict.entries[scan].Live? {
          index := scan + 1;
          return Yield(scan, dict.entries[scan].key, dict.entries[scan].value);
        }
        scan := scan + 1;
      }
      index := scan;
      return Stop;
    }
  }

  /** A yield carries the key and the value stored at its entry. */
  ghost predicate HandsOut<K, V>(y: Outcome<K, V>, es: seq<Entry<K, V>>)
    requires y.Yield?
  {
    y.entry < |es| && es[y.entry].Live? && es[y.entry].key == y.key && es[y.entry].value == y.value
  }

  /** A loop over a dictionary that it leaves alone hands out its pairs, all of them and in order. */
  method Iterate<K(==,!new), V(==,!new)>(d: Dict<K, V>) returns (pairs: seq<(K, V)>)
    ensures pairs == d.Map()
  {
    var it := new DictIterator(d);
    pairs := [];
    assert d.entries[0..] == d.entries;
    while true
      invariant it.dict == d && fresh(it) && it.expectedSize == d.nValid && it.index <= |d.entries|
      invariant pairs + Contents(d.entries[it.index..]) == d.Map()
      decreases |d.entries| - it.index
    {
      var from := it.index;
      var r := it.Next();
      if r == Stop {
        AllDead(d.entries[from..]);
        return;
      }
      OnePairMore(d.entries, from, r, pairs);
      pairs := pairs + [(r.key, r.value)];
    }
  }

  lemma {:induction false} OnePairMore<K, V>(es: seq<Entry<K, V>>, from: nat, y: Outcome<K, V>, pairs: seq<(K, V)>)
    requires y.Yield? && HandsOut(y, es) && from <= y.entry && forall e :: from <= e < y.entry ==> es[e].Dead?
    ensures pairs + [(y.key, y.value)] + Contents(es[y.entry + 1..]) == pairs + Contents(es[from..])
  {
    SkipDead(es, from, y.entry);
  }

  /** The contents from i on begin with the first live entry e. */
  lemma {:induction false} SkipDead<K, V>(es: seq<Entry<K, V>>, i: nat, e: nat)
    requires i <= e < |es| && es[e].Live? && forall f :: i <= f < e ==> es[f].Dead?
    ensures Contents(es[i..]) == [(es[e].key, es[e].value)] + Contents(es[e + 1..])
    decreases e - i
  {
    assert es[i..][1..] == es[i + 1..] && es[i..][0] == es[i];
    if i < e {
      SkipDead(es, i + 1, e);
    }
  }

  /** The answers of an iterator asked once in each of the given states. */
  function Answers<K, V>(p: Position, states: seq<State<K, V>>): (answers: seq<Outcome<K, V>>)
    ensures |answers| == |states|
    decreases states
  {
    if states == [] then [] else
      var (p', r) := Advance(p, states[0]);
      [r] + Answers(p', states[1..])
  }

  /** The entries handed out, in the order they were. */
  function Yielded<K, V>(answers: seq<Outcome<K, V>>): seq<nat> {
    if answers == [] then []
    else if answers[0].Yield? then [answers[0].entry] + Yielded(answers[1..])
    else Yielded(answers[1..])
  }

  /** The dictionary changed only within its table generation between the states. */
  ghost predicate OneGeneration<K, V>(states: seq<State<K, V>>) {
    |states| >= 2 ==> Evolves(states[0], states[1]) && OneGeneration(states[1..])
  }

  /** An entry live at the end was live, under the same key, as soon as it existed. */
  lemma {:induction false} LiveThroughout<K, V>(states: seq<State<K, V>>, e: nat)
    requires states != [] && OneGeneration(states) && e < |states[|states| - 1].entries|
    requires states[|states| - 1].entries[e].Live? && e < |states[0].entries|
    ensures states[0].entries[e].Live? && states[0].entries[e].key == states[|states| - 1].entries[e].key
  {
    if |states| > 1 {
      LiveThroughout(states[1..], e);
    }
  }

  /** Each state comes from the one before by some operations on the dictionary. */
  ghost predicate Follows<K, V>(states: seq<State<K, V>>) {
    |states| >= 2 ==> Rely(states[0], states[1]) && Follows(states[1..])
  }

  /** Generations only grow, so if the first and the last are the same, so are all between, and
      the states evolve within one generation. */
  lemma {:induction false} GenerationsAgree<K, V>(states: seq<State<K, V>>)
    requires states != [] && Follows(states)
    ensures states[0].generation <= states[|states| - 1].generation
    ensures states[0].generation == states[|states| - 1].generation ==> OneGeneration(states)
  {
    if |states| >= 2 {
      GenerationsAgree(states[1..]);
    }
  }

  /** Positions are handed out in increasing order, each at most once, none before the start. */
  lemma {:induction false} InOrder<K, V>(p: Position, states: seq<State<K, V>>)
    ensures forall i :: 0 <= i < |Yielded(Answers(p, states))| ==> Yielded(Answers(p, states))[i] >= p.index
    ensures forall i, j :: 0 <= i < j < |Yielded(Answers(p, states))| ==>
      Yielded(Answers(p, states))[i] < Yielded(Answers(p, states))[j]
    decreases states
  {
    if states != [] {
      var (p', r) := Advance(p, states[0]);
      InOrder(p', states[1..]);
      assert Answers(p, states)[1..] == Answers(p', states[1..]);
    }
  }

  /** An exhausted iterator has handed out every entry that is still live, if the table was never
      rebuilt meanwhile and no size change was seen. */
  lemma {:induction false} NothingMissed<K, V>(p: Position, states: seq<State<K, V>>, e: nat)
    requires states != [] && OneGeneration(states)
    requires Answers(p, states)[|states| - 1] == Stop && SizeChanged !in Answers(p, states)
    requires p.index <= e < |states[|states| - 1].entries| && states[|states| - 1].entries[e].Live?
    ensures e in Yielded(Answers(p, states))
    decreases states
  {
    var answers, rest := Answers(p, states), states[1..];
    var (p', r) := Advance(p, states[0]);
    assert answers == [r] + Answers(p', rest) && answers[1..] == Answers(p', rest);
    if e < |states[0].entries| {
      LiveThroughout(states, e);
    }
    if |states| > 1 && !(r.Yield? && r.entry == e) {
      NothingMissed(p', rest, e);
    }
  }

  /** The answers are right in the states in which they were given: a yield carries what is stored,
      and a size change is reported exactly from the first state of another size on. */
  lemma {:induction false} AnswersAreRight<K, V>(p: Position, states: seq<State<K, V>>, i: nat)
    requires i < |states|
    ensures Answers(p, states)[i].Yield? ==> HandsOut(Answers(p, states)[i], states[i].entries)
    ensures Answers(p, states)[i] == SizeChanged <==> exists k :: 0 <= k <= i && states[k].nValid != p.expected
    decreases states
  {
    var (p', r) := Advance(p, states[0]);
    var rest := states[1..];
    if i > 0 {
      AnswersAreRight(p', rest, i - 1);
      if states[0].nValid == p.expected {
        if k :| 0 <= k <= i - 1 && rest[k].nValid != p'.expected {
          assert states[k + 1].nValid != p.expected;
        }
        if k :| 0 <= k <= i && states[k].nValid != p.expected {
          assert rest[k - 1].nValid != p'.expected;
        }
      } else {
        assert rest[0].nValid != p'.expected;
      }
    } else {
      assert states[0].nValid != p.expected <==> r == SizeChanged;
    }
  }

  /** After one size change the iterator fails forever. */
  lemma {:induction false} FailsForever<K, V>(p: Position, states: seq<State<K, V>>, k: nat, i: nat)
    requires k <= i < |states| && Answers(p, states)[k] == SizeChanged
    ensures Answers(p, states)[i] == SizeChanged
    decreases states, k
  {
    var (p', r) := Advance(p, states[0]);
    if k > 0 {
      FailsForever(p', states[1..], k - 1, i - 1);
    } else if i > 0 {
      assert p'.expected == -1;
      assert Answers(p', states[1..])[0] == SizeChanged;
      FailsForever(p', states[1..], 0, i - 1);
    }
  }

  /** Within one generation a position names one entry: the one handed out from it is, at the end,
      still there under the same key, or dead. So positions in order are entries in insertion order. */
  lemma {:induction false} PositionsNameEntries<K, V>(p: Position, states: seq<State<K, V>>, i: nat)
    requires i < |states| && OneGeneration(states) && Answers(p, states)[i].Yield?
    ensures NamesEntry(Answers(p, states)[i], states[|states| - 1].entries)
    decreases states
  {
    var (p', r) := Advance(p, states[0]);
    if i > 0 {
      PositionsNameEntries(p', states[1..], i - 1);
    } else {
      EntryKept(states, r.entry);
    }
  }

  lemma {:induction false} EntryKept<K, V>(states: seq<State<K, V>>, e: nat)
    requires states != [] && OneGeneration(states) && e < |states[0].entries| && states[0].entries[e].Live?
    ensures var es := states[|states| - 1].entries;
      e < |es| && (es[e].Dead? || es[e].key == states[0].entries[e].key)
    decreases states
  {
    if |states| > 1 {
      if states[1].entries[e].Live? {
        EntryKept(states[1..], e);
      } else {
        StaysDead(states[1..], e);
      }
    }
  }

  lemma {:induction false} StaysDead<K, V>(states: seq<State<K, V>>, e: nat)
    requires states != [] && OneGeneration(states) && e < |states[0].entries| && states[0].entries[e].Dead?
    ensures e < |states[|states| - 1].entries| && states[|states| - 1].entries[e].Dead?
    decreases states
  {
    if |states| > 1 {
      StaysDead(states[1..], e);
    }
  }

  method PerformAll<K(==,!new), V(==,!new)>(d: Dict<K, V>, ops: seq<Op<K, V>>, mode: Equality)
    requires Ok(d.St()) && (mode.Quiet? || d.stringKeyed ==> d.Valid())
    modifies d
    ensures Rely(old(d.St()), d.St())
    ensures mode.Quiet? || d.stringKeyed ==> d.Valid()
  {
    for i := 0 to |ops|
      invariant Rely(old(d.St()), d.St())
      invariant mode.Quiet? || d.stringKeyed ==> d.Valid()
    {
      ghost var s := d.St();
      var a := Perform(d, ops[i], mode);
      RelyTrans(old(d.St()), s, d.St());
    }
  }

  /** The body of a loop over the dictionary, round by round: any operations, then one step of the
      iterator, in the states in which the steps were made. */
  method Interleave<K(==,!new), V(==,!new)>(it: DictIterator<K, V>, rounds: seq<seq<Op<K, V>>>, mode: Equality)
    returns (answers: seq<Outcome<K, V>>, ghost states: seq<State<K, V>>)
    requires Ok(it.dict.St()) && (mode.Quiet? || it.dict.stringKeyed ==> it.dict.Valid())
    modifies it, it.dict
    ensures |states| == |rounds| && Follows([old(it.dict.St())] + states)
    ensures it.dict.St() == ([old(it.dict.St())] + states)[|rounds|]
    ensures answers == Answers(old(it.Pos()), states)
    decreases rounds
  {
    if rounds == [] {
      return [], [];
    }
    ghost var before := it.dict.St();
    PerformAll(it.dict, rounds[0], mode);
    ghost var s := it.dict.St();
    var r := it.Next();
    var rest;
    ghost var later;
    rest, later := Interleave(it, rounds[1..], mode);
    answers, states := [r] + rest, [s] + later;
    assert ([before] + states)[1..] == states;
  }

  /** The last answer was the end, and no size change was seen. */
  predicate RanToEnd<K(==), V(==)>(answers: seq<Outcome<K, V>>) {
    answers != [] && answers[|answers| - 1] == Stop && SizeChanged !in answers
  }

  /** The position handed out still names the entry that was there, unless that has died. */
  ghost predicate NamesEntry<K, V>(y: Outcome<K, V>, es: seq<Entry<K, V>>)
    requires y.Yield?
  {
    y.entry < |es| && (es[y.entry].Dead? || es[y.entry].key == y.key)
  }

  /** A whole loop over a dictionary that its body changes: if the table was not rebuilt, the loop
      ran to the end and saw no size change, then it visited every entry that is live at the end
      exactly once, in insertion order. */
  method LoopVisitsAll<K(==,!new), V(==,!new)>(d: Dict<K, V>, rounds: seq<seq<Op<K, V>>>, mode: Equality)
    returns (answers: seq<Outcome<K, V>>, ghost states: seq<State<K, V>>)
    requires Ok(d.St()) && (mode.Quiet? || d.stringKeyed ==> d.Valid())
    modifies d
    ensures |answers| == |rounds| == |states| && Follows([old(d.St())] + states)
    ensures d.St() == ([old(d.St())] + states)[|rounds|]
    ensures forall i :: 0 <= i < |answers| && answers[i].Yield? ==> HandsOut(answers[i], states[i].entries)
    ensures forall i :: 0 <= i < |answers| ==>
      (answers[i] == SizeChanged <==> exists k :: 0 <= k <= i && states[k].nValid != old(d.nValid))
    ensures forall i, j :: 0 <= i < j < |Yielded(answers)| ==> Yielded(answers)[i] < Yielded(answers)[j]
    ensures d.generation == old(d.generation) && RanToEnd(answers) ==>
      forall e :: 0 <= e < |d.entries| && d.entries[e].Live? ==> e in Yielded(answers)
    ensures d.generation == old(d.generation) ==>
      forall i :: 0 <= i < |answers| && answers[i].Yield? ==>
        NamesEntry(answers[i], d.entries)
  {
    var it := new DictIterator(d);
    ghost var start, s0 := it.Pos(), d.St();
    answers, states := Interleave(it, rounds, mode);
    InOrder(start, states);
    forall i | 0 <= i < |answers|
      ensures answers[i].Yield? ==> HandsOut(answers[i], states[i].entries)
      ensures answers[i] == SizeChanged <==> exists k :: 0 <= k <= i && states[k].nValid != start.expected
    {
      AnswersAreRight(start, states, i);
    }
    if d.generation == s0.generation && rounds != [] {
      InOneGeneration(s0, states, d.St());
      forall i | 0 <= i < |answers| && answers[i].Yield?
        ensures NamesEntry(answers[i], d.entries)
      {
        PositionsNameEntries(start, states, i);
      }
      if RanToEnd(answers) {
        forall e | 0 <= e < |d.entries| && d.entries[e].Live?
          ensures e in Yielded(answers)
        {
          NothingMissed(start, states, e);
        }
      }
    }
  }

  lemma {:induction false} InOneGeneration<K, V>(s: State<K, V>, states: seq<State<K, V>>, last: State<K, V>)
    requires states != [] && Follows([s] + states)
    requires ([s] + states)[|states|] == last && last.generation == s.generation
    ensures OneGeneration(states) && states[|states| - 1] == last
  {
    GenerationsAgree([s] + states);
    assert ([s] + states)[1..] == states;
  }
}
