/** The dictionary's public operations, dispatched on shape, and whole runs of them. */
module DictRuns {
  import opened Options
  import opened DictContents
  import opened DictState
  import opened OrderedMap
  import opened Dictionary

  datatype Op<K, V> =
    | SetItem(key: K, value: V)
    | DelItem(key: K)
    | GetItem(key: K)
    | Pop(key: K)
    | SetDefault(key: K, value: V)
    | PopItem
    | Clear
    | Size
    | Promote

  datatype Answer<K, V> = Done | Value(value: V) | Pair(key: K, item: V) | Count(n: nat) | KeyError | Interrupted

  function Found<K, V>(v: Option<V>): Answer<K, V> {
    match v
    case Some(x) => Value(x)
    case None => KeyError
  }

  /** What each operation means on the ordered map. */
  function Apply<K, V>(eq: (K, K) -> bool, m: Pairs<K, V>, op: Op<K, V>): (Pairs<K, V>, Answer<K, V>) {
    match op
    case SetItem(k, v) => (Put(eq, m, k, v), Done)
    case DelItem(k) => (Remove(eq, m, k), if Lookup(eq, m, k).Some? then Done else KeyError)
    case GetItem(k) => (m, Found(Lookup(eq, m, k)))
    case Pop(k) => (Remove(eq, m, k), Found(Lookup(eq, m, k)))
    case SetDefault(k, v) =>
      if Lookup(eq, m, k).Some? then (m, Value(Lookup(eq, m, k).value)) else (Put(eq, m, k, v), Value(v))
    case PopItem => if m == [] then (m, KeyError) else (m[..|m| - 1], Pair(m[|m| - 1].0, m[|m| - 1].1))
    case Clear => ([], Done)
    case Size => (m, Count(|m|))
    case Promote => (m, Done)
  }

  /** What each operation does, said of positions: m is the map before and m' after. */
  ghost predicate Meets<K, V>(eq: (K, K) -> bool, m: Pairs<K, V>, op: Op<K, V>, m': Pairs<K, V>, a: Answer<K, V>) {
    match op
    case SetItem(k, v) =>
      && a == Done
      && ((forall i :: !KeyAt(eq, m, i, k)) ==> m' == m + [(k, v)])
      && (forall i :: KeyAt(eq, m, i, k) ==> m' == m[i := (m[i].0, v)])
    case DelItem(k) =>
      && ((forall i :: !KeyAt(eq, m, i, k)) ==> a == KeyError && m' == m)
      && (forall i :: KeyAt(eq, m, i, k) ==> a == Done && m' == m[..i] + m[i + 1..])
    case GetItem(k) =>
      && m' == m
      && ((forall i :: !KeyAt(eq, m, i, k)) ==> a == KeyError)
      && (forall i :: KeyAt(eq, m, i, k) ==> a == Value(m[i].1))
    case Pop(k) =>
      && ((forall i :: !KeyAt(eq, m, i, k)) ==> a == KeyError && m' == m)
      && (forall i :: KeyAt(eq, m, i, k) ==> a == Value(m[i].1) && m' == m[..i] + m[i + 1..])
    case SetDefault(k, v) =>
      && ((forall i :: !KeyAt(eq, m, i, k)) ==> a == Value(v) && m' == m + [(k, v)])
      && (forall i :: KeyAt(eq, m, i, k) ==> a == Value(m[i].1) && m' == m)
    case PopItem =>
      && (m == [] ==> a == KeyError && m' == m)
      && (m != [] ==> a.Pair? && m == m' + [(a.key, a.item)])
    case Clear => a == Done && m' == []
    case Size => a == Count(|m|) && m' == m
    case Promote => a == Done && m' == m
  }

  lemma {:induction false} ApplyMeets<K(!new), V>(eq: (K, K) -> bool, hash: K -> int, m: Pairs<K, V>, op: Op<K, V>)
    requires Lawful(eq, hash) && Unique(eq, m)
    ensures Meets(eq, m, op, Apply(eq, m, op).0, Apply(eq, m, op).1)
  {
    if Keyed(op) {
      if i :| KeyAt(eq, m, i, op.key) {
        KeyedAt(eq, hash, m, op, i);
      } else {
        KeyedNowhere(eq, m, op);
      }
    } else if op.PopItem? && m != [] {
      assert m == m[..|m| - 1] + [m[|m| - 1]];
    }
  }

  lemma {:induction false} KeyedAt<K(!new), V>(eq: (K, K) -> bool, hash: K -> int, m: Pairs<K, V>, op: Op<K, V>, i: nat)
    requires Lawful(eq, hash) && Unique(eq, m) && Keyed(op) && KeyAt(eq, m, i, op.key)
    ensures Meets(eq, m, op, Apply(eq, m, op).0, Apply(eq, m, op).1)
  {
    var k := op.key;
    LookupAt(eq, hash, m, i, k);
    RemoveAt(eq, hash, m, i, k);
    if op.SetItem? {
      PutAt(eq, hash, m, i, k, op.value);
    }
    forall j | KeyAt(eq, m, j, k)
      ensures j == i
    {
      assert eq(k, m[i].0) && eq(k, m[j].0);
      assert eq(m[i].0, m[j].0) && eq(m[j].0, m[i].0);
    }
  }

  lemma {:induction false} KeyedNowhere<K(!new), V>(eq: (K, K) -> bool, m: Pairs<K, V>, op: Op<K, V>)
    requires Keyed(op) && forall i :: !KeyAt(eq, m, i, op.key)
    ensures Meets(eq, m, op, Apply(eq, m, op).0, Apply(eq, m, op).1)
  {
    FoundNowhere(eq, m, op.key);
    if op.SetItem? || op.SetDefault? {
      PutLast(eq, m, op.key, op.value);
    }
  }

  function ApplyAll<K, V>(eq: (K, K) -> bool, m: Pairs<K, V>, ops: seq<Op<K, V>>): (Pairs<K, V>, seq<Answer<K, V>>) {
    if ops == [] then (m, []) else
      var (m1, answers) := ApplyAll(eq, m, ops[..|ops| - 1]);
      var (m2, answer) := Apply(eq, m1, ops[|ops| - 1]);
      (m2, answers + [answer])
  }

  function Answered<K, V>(r: Result<V>): Answer<K, V> {
    match r
    case Got(x) => Value(x)
    case NoKey => KeyError
    case Unfinished => Interrupted
  }

  /** A key that is not a string moves a string-keyed dictionary to the general shape. */
  method PrepareFor<K(==,!new), V(==,!new)>(d: Dict<K, V>, key: K) returns (asString: bool)
    requires Ok(d.St())
    modifies d
    ensures Rely(old(d.St()), d.St()) && d.entries == old(d.entries) && (old(d.Valid()) ==> d.Valid())
    ensures asString ==> d.St() == old(d.St()) && d.stringKeyed && d.isString(key)
    ensures !asString ==> !d.stringKeyed
  {
    asString := d.stringKeyed && d.isString(key);
    if d.stringKeyed && !asString {
      d.PromoteToGeneralShape();
    }
  }

  method SetItemOn<K(==,!new), V(==,!new)>(d: Dict<K, V>, key: K, value: V, mode: Equality) returns (a: Answer<K, V>)
    requires Ok(d.St()) && (mode.Quiet? || d.stringKeyed ==> d.Valid())
    modifies d
    ensures Rely(old(d.St()), d.St()) && (d.stringKeyed ==> d.Valid())
    ensures mode.Quiet? ==> d.Valid() && (d.Map(), a) == Apply(d.eq, old(d.Map()), SetItem(key, value))
  {
    var asString := PrepareFor(d, key);
    ghost var s := d.St();
    var stored := true;
    if asString {
      d.StringKeyedInsert(key, value);
    } else {
      ghost var found, at;
      stored, found, at := d.GeneralSetItem(key, value, mode);
    }
    RelyTrans(old(d.St()), s, d.St());
    a := if stored then Done else Interrupted;
  }

  method PopOn<K(==,!new), V(==,!new)>(d: Dict<K, V>, key: K, mode: Equality) returns (r: Result<V>)
    requires Ok(d.St()) && (mode.Quiet? || d.stringKeyed ==> d.Valid())
    modifies d
    ensures Rely(old(d.St()), d.St()) && (d.stringKeyed ==> d.Valid())
    ensures mode.Quiet? ==> d.Valid() && !r.Unfinished? && AsOption(r) == Lookup(d.eq, old(d.Map()), key)
    ensures mode.Quiet? ==> d.Map() == Remove(d.eq, old(d.Map()), key)
  {
    var asString := PrepareFor(d, key);
    ghost var s := d.St();
    if asString {
      var value := d.StringKeyedPop(key);
      r := if value.Some? then Got(value.value) else NoKey;
    } else {
      ghost var found, at;
      r, found, at := d.GeneralPop(key, mode);
    }
    RelyTrans(old(d.St()), s, d.St());
  }

  method GetItemOn<K(==,!new), V(==,!new)>(d: Dict<K, V>, key: K, mode: Equality) returns (r: Result<V>)
    requires Ok(d.St()) && (mode.Quiet? || d.stringKeyed ==> d.Valid())
    modifies d
    ensures Rely(old(d.St()), d.St()) && (d.stringKeyed ==> d.Valid())
    ensures mode.Quiet? ==> d.Valid() && !r.Unfinished? && AsOption(r) == Lookup(d.eq, old(d.Map()), key)
    ensures mode.Quiet? ==> d.Map() == old(d.Map())
  {
    var asString := PrepareFor(d, key);
    ghost var s := d.St();
    if asString {
      var value := d.StringKeyedGet(key);
      r := if value.Some? then Got(value.value) else NoKey;
    } else {
      ghost var at;
      r, at := d.GeneralGet(key, mode);
    }
    RelyTrans(old(d.St()), s, d.St());
  }

  method SetDefaultOn<K(==,!new), V(==,!new)>(d: Dict<K, V>, key: K, default: V, mode: Equality)
    returns (a: Answer<K, V>)
    requires Ok(d.St()) && (mode.Quiet? || d.stringKeyed ==> d.Valid())
    modifies d
    ensures Rely(old(d.St()), d.St()) && (d.stringKeyed ==> d.Valid())
    ensures mode.Quiet? ==> d.Valid() && (d.Map(), a) == Apply(d.eq, old(d.Map()), SetDefault(key, default))
  {
    var asString := PrepareFor(d, key);
    ghost var s := d.St();
    var value: Option<V>;
    if asString {
      value := d.StringKeyedGet(key);
      if value.None? {
        d.StringKeyedInsert(key, default);
        value := Some(default);
      }
    } else {
      ghost var found, at;
      value, found, at := d.GeneralSetDefault(key, default, mode);
    }
    RelyTrans(old(d.St()), s, d.St());
    a := if value.Some? then Value(value.value) else Interrupted;
  }

  method PopItemOn<K(==,!new), V(==,!new)>(d: Dict<K, V>) returns (a: Answer<K, V>)
    requires Ok(d.St())
    modifies d
    ensures Rely(old(d.St()), d.St())
    ensures old(d.Valid()) ==> d.Valid() && (d.Map(), a) == Apply(d.eq, old(d.Map()), PopItem)
  {
    var pair := d.PopItem();
    a := if pair.Some? then Pair(pair.value.0, pair.value.1) else KeyError;
    if pair.Some? {
      ghost var m := old(d.Map());
      assert m[..|m| - 1] == d.Map();
    }
  }

  predicate Keyed<K, V>(op: Op<K, V>) {
    op.SetItem? || op.DelItem? || op.GetItem? || op.Pop? || op.SetDefault?
  }

  /** The operations on one key. */
  method PerformKeyed<K(==,!new), V(==,!new)>(d: Dict<K, V>, op: Op<K, V>, mode: Equality) returns (a: Answer<K, V>)
    requires Keyed(op)
    requires Ok(d.St()) && (mode.Quiet? || d.stringKeyed ==> d.Valid())
    modifies d
    ensures Rely(old(d.St()), d.St()) && (d.stringKeyed ==> d.Valid())
    ensures mode.Quiet? ==> d.Valid() && (d.Map(), a) == Apply(d.eq, old(d.Map()), op)
  {
    match op {
      case SetItem(k, v) =>
        a := SetItemOn(d, k, v, mode);
      case DelItem(k) =>
        var r := PopOn(d, k, mode);
        a := if r.Got? then Done else Answered(r);
      case GetItem(k) =>
        var r := GetItemOn(d, k, mode);
        a := Answered(r);
      case Pop(k) =>
        var r := PopOn(d, k, mode);
        a := Answered(r);
      case SetDefault(k, v) =>
        a := SetDefaultOn(d, k, v, mode);
    }
  }

  /** The operations that consult no key. */
  method PerformWhole<K(==,!new), V(==,!new)>(d: Dict<K, V>, op: Op<K, V>, ghost mode: Equality)
    returns (a: Answer<K, V>)
    requires !Keyed(op)
    requires Ok(d.St()) && (mode.Quiet? || d.stringKeyed ==> d.Valid())
    modifies d
    ensures Rely(old(d.St()), d.St()) && (d.stringKeyed ==> d.Valid())
    ensures mode.Quiet? ==> d.Valid() && (d.Map(), a) == Apply(d.eq, old(d.Map()), op)
    ensures op.Promote? ==> !d.stringKeyed
  {
    match op {
      case PopItem =>
        a := PopItemOn(d);
      case Clear =>
        d.Clear();
        a := Done;
      case Size =>
        ContentsLength(d.entries);
        a := Count(d.nValid);
      case Promote =>
        if d.stringKeyed {
          d.PromoteToGeneralShape();
        }
        a := Done;
    }
  }

  /** Every operation acts on the storage as its meaning acts on the ordered map; and even with
      reentrant equality it does no more to the storage than a suspended probe tolerates. */
  method Perform<K(==,!new), V(==,!new)>(d: Dict<K, V>, op: Op<K, V>, mode: Equality) returns (a: Answer<K, V>)
    requires Ok(d.St()) && (mode.Quiet? || d.stringKeyed ==> d.Valid())
    modifies d
    ensures Rely(old(d.St()), d.St()) && (d.stringKeyed ==> d.Valid())
    ensures mode.Quiet? ==> d.Valid() && (d.Map(), a) == Apply(d.eq, old(d.Map()), op)
    ensures mode.Quiet? ==> Meets(d.eq, old(d.Map()), op, d.Map(), a)
    ensures op.Promote? ==> !d.stringKeyed
  {
    if mode.Quiet? {
      UniqueContents(d.eq, d.entries);
      ApplyMeets(d.eq, d.hash, d.Map(), op);
    }
    if Keyed(op) {
      a := PerformKeyed(d, op, mode);
    } else {
      a := PerformWhole(d, op, mode);
    }
  }

  /** Step i of a run takes the map from one state of its history to the next. */
  ghost predicate StepMeets<K, V>(eq: (K, K) -> bool, history: seq<Pairs<K, V>>, ops: seq<Op<K, V>>,
      answers: seq<Answer<K, V>>, i: nat)
  {
    i < |ops| && i < |answers| && i + 1 < |history| && Meets(eq, history[i], ops[i], history[i + 1], answers[i])
  }

  /** A whole run answers as the ordered map does, and ends with its pairs in its order. */
  method Run<K(==,!new), V(==,!new)>(d: Dict<K, V>, ops: seq<Op<K, V>>)
    returns (answers: seq<Answer<K, V>>, ghost history: seq<Pairs<K, V>>)
    requires d.Valid()
    modifies d
    ensures d.Valid() && (d.Map(), answers) == ApplyAll(d.eq, old(d.Map()), ops)
    ensures |answers| == |ops| && |history| == |ops| + 1 && history[0] == old(d.Map()) && history[|ops|] == d.Map()
    ensures forall i :: 0 <= i < |ops| ==> StepMeets(d.eq, history, ops, answers, i)
  {
    answers, history := [], [d.Map()];
    var i := 0;
    while i < |ops|
      invariant 0 <= i <= |ops|
      invariant d.Valid() && (d.Map(), answers) == ApplyAll(d.eq, old(d.Map()), ops[..i])
      invariant |answers| == i && |history| == i + 1 && history[0] == old(d.Map()) && history[i] == d.Map()
      invariant forall j :: 0 <= j < i ==> StepMeets(d.eq, history, ops, answers, j)
    {
      assert ops[..i + 1][..i] == ops[..i];
      ghost var before, given := history, answers;
      var a := Perform(d, ops[i], Quiet);
      answers, history := answers + [a], history + [d.Map()];
      forall j | 0 <= j < i
        ensures StepMeets(d.eq, history, ops, answers, j)
      {
        assert StepMeets(d.eq, before, ops, given, j);
      }
      i := i + 1;
    }
    assert ops[..i] == ops;
  }

  /** A whole run under reentrant equality, from a new dictionary on, keeps the structural invariant.
      As long as only strings were used it is even valid: comparing strings does not re-enter. */
  method RunReentrant<K(==,!new), V(==,!new)>(d: Dict<K, V>, ops: seq<Op<K, V>>, steps: nat)
    requires Ok(d.St()) && (d.stringKeyed ==> d.Valid())
    modifies d
    ensures Rely(old(d.St()), d.St()) && (d.stringKeyed ==> d.Valid())
  {
    var i := 0;
    while i < |ops|
      invariant 0 <= i <= |ops|
      invariant Rely(old(d.St()), d.St()) && (d.stringKeyed ==> d.Valid())
    {
      ghost var s := d.St();
      var a := Perform(d, ops[i], Reentrant(steps));
      RelyTrans(old(d.St()), s, d.St());
      i := i + 1;
    }
  }
}
