/** What the entry array means: the live entries, in storage order, as an ordered map. */
module DictContents {
  import opened Options
  import opened DictTable
  import opened OrderedMap

  function Contents<K, V>(es: seq<Entry<K, V>>): Pairs<K, V> {
    if es == [] then []
    else if es[0].Live? then [(es[0].key, es[0].value)] + Contents(es[1..])
    else Contents(es[1..])
  }

  /** No two live entries have equal keys. */
  ghost predicate KeysUnique<K, V>(eq: (K, K) -> bool, es: seq<Entry<K, V>>) {
    forall e, f :: 0 <= e < f < |es| && es[e].Live? && es[f].Live? ==> !eq(es[e].key, es[f].key)
  }

  ghost predicate HashesAgree<K, V>(hash: K -> int, es: seq<Entry<K, V>>) {
    forall e :: 0 <= e < |es| && es[e].Live? ==> es[e].hash == hash(es[e].key)
  }

  ghost predicate Absent<K, V>(eq: (K, K) -> bool, es: seq<Entry<K, V>>, k: K) {
    forall e :: 0 <= e < |es| && es[e].Live? ==> !eq(es[e].key, k)
  }

  /** Entry e is the one with a key equal to k. */
  ghost predicate Present<K, V>(eq: (K, K) -> bool, es: seq<Entry<K, V>>, e: int, k: K) {
    && 0 <= e < |es| && es[e].Live? && eq(es[e].key, k)
    && forall f :: 0 <= f < e && es[f].Live? ==> !eq(es[f].key, k)
  }

  lemma {:induction false} ContentsConcat<K, V>(es: seq<Entry<K, V>>, fs: seq<Entry<K, V>>)
    ensures Contents(es + fs) == Contents(es) + Contents(fs)
  {
    if es == [] {
      assert es + fs == fs;
    } else {
      assert (es + fs)[1..] == es[1..] + fs;
      ContentsConcat(es[1..], fs);
    }
  }

  lemma {:induction false} ContentsAppend<K, V>(es: seq<Entry<K, V>>, x: Entry<K, V>)
    requires x.Live?
    ensures Contents(es + [x]) == Contents(es) + [(x.key, x.value)]
  {
    ContentsConcat(es, [x]);
    assert [x][1..] == [];
  }

  lemma {:induction false} ContentsLength<K, V>(es: seq<Entry<K, V>>)
    ensures |Contents(es)| == CountLive(es)
  {
    if es != [] {
      var last := |es| - 1;
      ContentsLength(es[..last]);
      ContentsConcat(es[..last], es[last..]);
      assert es == es[..last] + es[last..];
      assert es[last..][1..] == [];
    }
  }

  lemma {:induction false} NotFound<K, V>(eq: (K, K) -> bool, es: seq<Entry<K, V>>, k: K)
    requires Absent(eq, es, k)
    ensures Lookup(eq, Contents(es), k) == None
    ensures Remove(eq, Contents(es), k) == Contents(es)
  {
    if es != [] {
      NotFound(eq, es[1..], k);
      if es[0].Live? {
        assert Contents(es)[1..] == Contents(es[1..]);
      }
    }
  }

  lemma {:induction false} AbsentKey<K, V>(eq: (K, K) -> bool, es: seq<Entry<K, V>>, k: K, v: V, hash: int)
    requires Absent(eq, es, k)
    ensures Put(eq, Contents(es), k, v) == Contents(es + [Live(k, v, hash)])
  {
    if es != [] {
      AbsentKey(eq, es[1..], k, v, hash);
      assert (es + [Live(k, v, hash)])[1..] == es[1..] + [Live(k, v, hash)];
      if es[0].Live? {
        assert Contents(es)[1..] == Contents(es[1..]);
      }
    } else {
      assert ([] + [Live(k, v, hash)])[1..] == [];
    }
  }

  lemma {:induction false} PresentKey<K, V>(eq: (K, K) -> bool, es: seq<Entry<K, V>>, e: int, k: K, v: V)
    requires Present(eq, es, e, k)
    ensures Lookup(eq, Contents(es), k) == Some(es[e].value)
    ensures Put(eq, Contents(es), k, v) == Contents(es[e := es[e].(value := v)])
    ensures Remove(eq, Contents(es), k) == Contents(es[e := Dead])
  {
    var rest := es[1..];
    if es[0].Live? {
      assert Contents(es)[1..] == Contents(rest);
    }
    if e == 0 {
      assert es[0 := es[0].(value := v)][1..] == rest && es[0 := Dead][1..] == rest;
    } else {
      assert es[e := es[e].(value := v)][1..] == rest[e - 1 := es[e].(value := v)];
      assert es[e := Dead][1..] == rest[e - 1 := Dead];
      PresentKey(eq, rest, e - 1, k, v);
    }
  }

  /** With unique keys, any live entry with an equal key is the one. */
  lemma TheEntry<K(!new), V>(eq: (K, K) -> bool, hash: K -> int, es: seq<Entry<K, V>>, e: int, k: K)
    requires Lawful(eq, hash) && KeysUnique(eq, es)
    requires 0 <= e < |es| && es[e].Live? && eq(es[e].key, k)
    ensures Present(eq, es, e, k)
  {
    assert eq(k, es[e].key);
  }

  /** The entry behind position i of the map. */
  lemma {:induction false} EntryOf<K, V>(es: seq<Entry<K, V>>, i: nat) returns (e: nat)
    requires i < |Contents(es)|
    ensures e < |es| && es[e].Live? && es[e].key == Contents(es)[i].0
  {
    if es[0].Live? && i == 0 {
      e := 0;
    } else {
      var e' := EntryOf(es[1..], if es[0].Live? then i - 1 else i);
      e := e' + 1;
    }
  }

  /** Unique keys in the entries are unique keys in the map. */
  lemma {:induction false} UniqueContents<K, V>(eq: (K, K) -> bool, es: seq<Entry<K, V>>)
    requires KeysUnique(eq, es)
    ensures Unique(eq, Contents(es))
  {
    if es != [] {
      var rest, m := es[1..], Contents(es);
      UniqueContents(eq, rest);
      if es[0].Live? {
        assert m[1..] == Contents(rest);
        forall i, j | 0 <= i < j < |m|
          ensures !eq(m[i].0, m[j].0)
        {
          assert m[j] == m[1..][j - 1];
          if i > 0 {
            assert m[i] == m[1..][i - 1];
          } else {
            var e := EntryOf(rest, j - 1);
            assert es[e + 1] == rest[e];
          }
        }
      }
    }
  }

  /** Only the live entries, in order. */
  function Compact<K, V>(es: seq<Entry<K, V>>): seq<Entry<K, V>> {
    if es == [] then []
    else Compact(es[..|es| - 1]) + if es[|es| - 1].Live? then [es[|es| - 1]] else []
  }

  lemma {:induction false} CompactMeaning<K, V>(es: seq<Entry<K, V>>)
    ensures |Compact(es)| == CountLive(es)
    ensures Contents(Compact(es)) == Contents(es)
    ensures forall e :: 0 <= e < |Compact(es)| ==> Compact(es)[e].Live?
  {
    if es != [] {
      var last := |es| - 1;
      var init := es[..last];
      CompactMeaning(init);
      assert es == init + [es[last]];
      ContentsConcat(init, [es[last]]);
      ContentsConcat(Compact(init), if es[last].Live? then [es[last]] else []);
      assert [es[last]][1..] == [];
    }
  }

  lemma {:induction false} CompactKeys<K(!new), V>(eq: (K, K) -> bool, hash: K -> int, es: seq<Entry<K, V>>)
    ensures |Compact(es)| <= |es|
    ensures forall e :: 0 <= e < |Compact(es)| ==> Compact(es)[e] in es
    ensures KeysUnique(eq, es) ==> KeysUnique(eq, Compact(es))
    ensures HashesAgree(hash, es) ==> HashesAgree(hash, Compact(es))
  {
    if es != [] {
      var last := |es| - 1;
      var init := es[..last];
      CompactKeys(eq, hash, init);
      assert es == init + [es[last]];
      if KeysUnique(eq, es) {
        assert KeysUnique(eq, init);
        forall e | 0 <= e < |Compact(init)| && Compact(init)[e].Live? && es[last].Live?
          ensures !eq(Compact(init)[e].key, es[last].key)
        {
          var f :| 0 <= f < |init| && init[f] == Compact(init)[e];
          assert es[f] == init[f];
        }
      }
    }
  }

  lemma {:induction false} AllLive<K, V>(es: seq<Entry<K, V>>)
    requires forall e :: 0 <= e < |es| ==> es[e].Live?
    ensures CountLive(es) == |es|
  {
    if es != [] {
      AllLive(es[..|es| - 1]);
    }
  }

  /** Compacting one more entry. */
  lemma {:induction false} CompactStep<K, V>(es: seq<Entry<K, V>>, k: nat)
    requires k < |es|
    ensures Compact(es[..k + 1]) == Compact(es[..k]) + if es[k].Live? then [es[k]] else []
    ensures |Compact(es[..k + 1])| <= CountLive(es)
    decreases |es| - k
  {
    assert es[..k + 1][..k] == es[..k];
    if k + 1 < |es| {
      CompactStep(es, k + 1);
    } else {
      assert es[..k + 1] == es;
      CompactMeaning(es);
    }
  }

  ghost predicate AllKeys<K, V>(p: K -> bool, es: seq<Entry<K, V>>) {
    forall e :: 0 <= e < |es| && es[e].Live? ==> p(es[e].key)
  }

  lemma {:induction false} CompactAllKeys<K, V>(p: K -> bool, es: seq<Entry<K, V>>)
    requires AllKeys(p, es)
    ensures AllKeys(p, Compact(es))
  {
    if es != [] {
      CompactAllKeys(p, es[..|es| - 1]);
    }
  }

  /** Killing the last live entry drops the last pair. */
  lemma {:induction false} LastEntry<K, V>(es: seq<Entry<K, V>>, e: nat)
    requires e < |es| && es[e].Live? && forall f :: e < f < |es| ==> es[f].Dead?
    ensures Contents(es) == Contents(es[e := Dead]) + [(es[e].key, es[e].value)]
  {
    var tail := es[e + 1..];
    assert es == es[..e] + ([es[e]] + tail);
    assert es[e := Dead] == es[..e] + ([Dead] + tail);
    ContentsConcat(es[..e], [es[e]] + tail);
    ContentsConcat(es[..e], [Dead] + tail);
    assert ([es[e]] + tail)[1..] == tail && ([Dead] + tail)[1..] == tail;
    AllDead(tail);
  }

  lemma {:induction false} AllDead<K, V>(es: seq<Entry<K, V>>)
    requires forall f :: 0 <= f < |es| ==> es[f].Dead?
    ensures Contents(es) == []
  {
    if es != [] {
      AllDead(es[1..]);
    }
  }

  lemma {:induction false} CompactAbsent<K, V>(eq: (K, K) -> bool, es: seq<Entry<K, V>>, k: K)
    requires Absent(eq, es, k)
    ensures Absent(eq, Compact(es), k)
  {
    if es != [] {
      CompactAbsent(eq, es[..|es| - 1], k);
    }
  }

  /** The position in the map of a live entry. */
  lemma {:induction false} PositionOf<K, V>(es: seq<Entry<K, V>>, e: nat) returns (i: nat)
    requires e < |es| && es[e].Live?
    ensures i < |Contents(es)| && Contents(es)[i].0 == es[e].key
  {
    if e == 0 {
      i := 0;
    } else {
      var j := PositionOf(es[1..], e - 1);
      i := if es[0].Live? then j + 1 else j;
    }
  }

  /** A copy of the first k entries of a dictionary with unique keys does not have the next key. */
  lemma {:induction false} NextIsAbsent<K(!new), V>(eq: (K, K) -> bool, es: seq<Entry<K, V>>, k: nat,
      copied: seq<Entry<K, V>>)
    requires k < |es| && es[k].Live? && KeysUnique(eq, es) && Contents(copied) == Contents(es[..k])
    ensures Absent(eq, copied, es[k].key)
  {
    forall e | 0 <= e < |copied| && copied[e].Live?
      ensures !eq(copied[e].key, es[k].key)
    {
      var i := PositionOf(copied, e);
      var f := EntryOf(es[..k], i);
      assert es[f] == es[..k][f];
    }
  }
}
