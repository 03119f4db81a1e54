/** Python's insertion-ordered `dict`: a map together with the order in which
    its keys were first inserted. Assigning to an existing key replaces the
    value in place; assigning a new key appends it; `del` drops the key and
    keeps the order of the rest. Both the subscription store and a parsed
    menu are dictionaries of this kind, and the bot iterates over both. */
module Dicts {
  import opened Seqs

  datatype DictRep<K(==,!new), V> = DictRep(keys: seq<K>, entries: map<K, V>)

  /** The key sequence lists every key of the map exactly once. */
  predicate Valid<K(==,!new), V>(d: DictRep<K, V>)
  {
    && Distinct(d.keys)
    && (forall k :: k in d.entries ==> k in d.keys)
    && (forall k :: k in d.keys ==> k in d.entries)
  }

  type Dict<K(==,!new), V> = d: DictRep<K, V> | Valid(d) witness DictRep([], map[])

  function Empty<K(==,!new), V>(): (d: Dict<K, V>)
    ensures |d.entries| == 0
  {
    DictRep([], map[])
  }

  /** The dictionary has one entry per listed key. */
  lemma Size<K(!new), V>(d: Dict<K, V>)
    ensures |d.entries| == |d.keys|
  {
    DistinctCard(d.keys);
    assert d.entries.Keys == set x | x in d.keys;
  }

  /** `d[k] = v`. */
  function Put<K(==,!new), V>(d: Dict<K, V>, k: K, v: V): (r: Dict<K, V>)
    ensures k in r.entries && r.entries[k] == v
    ensures forall j :: j != k ==> (j in r.entries <==> j in d.entries)
    ensures forall j :: j != k && j in d.entries ==> r.entries[j] == d.entries[j]
    ensures k in d.entries ==> r.keys == d.keys
    ensures k !in d.entries ==> r.keys == d.keys + [k]
  {
    if k in d.entries then
      DictRep(d.keys, d.entries[k := v])
    else
      var keys := d.keys + [k];
      assert Distinct(keys) by {
        forall i, j | 0 <= i < j < |keys|
          ensures keys[i] != keys[j]
        {
          if j == |d.keys| {
            assert keys[i] == d.keys[i];
          }
        }
      }
      DictRep(keys, d.entries[k := v])
  }

  /** `del d[k]` when `k` is present; the identity otherwise. */
  function Delete<K(==,!new), V>(d: Dict<K, V>, k: K): (r: Dict<K, V>)
    ensures k !in r.entries
    ensures forall j :: j != k ==> (j in r.entries <==> j in d.entries)
    ensures forall j :: j != k && j in d.entries ==> r.entries[j] == d.entries[j]
    ensures r.keys == RemoveValue(d.keys, k)
  {
    RemoveValueDistinct(d.keys, k);
    DictRep(RemoveValue(d.keys, k), d.entries - {k})
  }

  /** Inserting a fresh key and deleting it again restores the dictionary,
      key order included. */
  lemma PutThenDelete<K(!new), V>(d: Dict<K, V>, k: K, v: V)
    requires k !in d.entries
    ensures Delete(Put(d, k, v), k) == d
  {
    assert k !in d.keys;
    RemoveValueAppend(d.keys, [k], k);
    RemoveValueAbsent(d.keys, k);
    assert RemoveValue([k], k) == [];
    assert (d.entries[k := v]) - {k} == d.entries;
  }

  /** No later position holds the same key as position `i`. */
  ghost predicate LastAt<K>(ks: seq<K>, i: int)
    requires 0 <= i < |ks|
  {
    forall j :: i < j < |ks| ==> ks[j] != ks[i]
  }

  /** The dictionary has exactly the keys `ks`. */
  ghost predicate HasKeys<K(!new), V>(d: DictRep<K, V>, ks: seq<K>)
  {
    forall k :: k in d.entries <==> k in ks
  }

  /** Every key holds the value of its last assignment. */
  ghost predicate LastAssignmentWins<K(!new), V>(d: DictRep<K, V>, ks: seq<K>, vs: seq<V>)
    requires |ks| == |vs|
  {
    forall i :: 0 <= i < |ks| && LastAt(ks, i) ==> ks[i] in d.entries && d.entries[ks[i]] == vs[i]
  }

  /** The keys are ordered by their first assignment. */
  ghost predicate FirstAssignmentOrder<K(!new), V>(d: DictRep<K, V>, ks: seq<K>)
  {
    && (forall i :: 0 <= i < |d.keys| ==> d.keys[i] in ks)
    && (forall i, j :: 0 <= i < j < |d.keys| ==> IndexOf(ks, d.keys[i]) < IndexOf(ks, d.keys[j]))
  }

  /** Starting from an empty dictionary, `d[ks[i]] = vs[i]` for each `i` in
      turn. */
  function AssignAll<K(==,!new), V>(ks: seq<K>, vs: seq<V>): (d: Dict<K, V>)
    requires |ks| == |vs|
    ensures HasKeys(d, ks)
    ensures LastAssignmentWins(d, ks, vs)
    ensures FirstAssignmentOrder(d, ks)
    decreases |ks|
  {
    if |ks| == 0 then Empty()
    else
      var n := |ks| - 1;
      var prev := AssignAll(ks[..n], vs[..n]);
      var d := Put(prev, ks[n], vs[n]);
      KeysStep(ks, prev, d);
      LastAssignmentStep(ks, vs, prev, d);
      OrderStep(ks, prev, d);
      d
  }

  lemma {:induction false} KeysStep<K(!new), V>(ks: seq<K>, prev: Dict<K, V>, d: Dict<K, V>)
    requires |ks| > 0
    requires HasKeys(prev, ks[..|ks| - 1])
    requires d.entries.Keys == prev.entries.Keys + {ks[|ks| - 1]}
    ensures HasKeys(d, ks)
  {
    assert ks == ks[..|ks| - 1] + [ks[|ks| - 1]];
  }

  lemma {:induction false} LastAssignmentStep<K(!new), V>(ks: seq<K>, vs: seq<V>, prev: Dict<K, V>, d: Dict<K, V>)
    requires |ks| == |vs| > 0
    requires LastAssignmentWins(prev, ks[..|ks| - 1], vs[..|vs| - 1])
    requires var n := |ks| - 1;
      && ks[n] in d.entries && d.entries[ks[n]] == vs[n]
      && forall j :: j != ks[n] && j in prev.entries ==> j in d.entries && d.entries[j] == prev.entries[j]
    ensures LastAssignmentWins(d, ks, vs)
  {
    var n := |ks| - 1;
    forall i | 0 <= i < |ks| && LastAt(ks, i)
      ensures ks[i] in d.entries && d.entries[ks[i]] == vs[i]
    {
      if i < n {
        assert ks[i] != ks[n];
        assert ks[..n][i] == ks[i] && vs[..n][i] == vs[i];
        assert LastAt(ks[..n], i) by {
          forall j | i < j < n ensures ks[..n][j] != ks[..n][i] {
            assert ks[..n][j] == ks[j];
          }
        }
      }
    }
  }

  lemma {:induction false} OrderStep<K(!new), V>(ks: seq<K>, prev: Dict<K, V>, d: Dict<K, V>)
    requires |ks| > 0
    requires HasKeys(prev, ks[..|ks| - 1])
    requires FirstAssignmentOrder(prev, ks[..|ks| - 1])
    requires var k := ks[|ks| - 1];
      && (k in prev.entries ==> d.keys == prev.keys)
      && (k !in prev.entries ==> d.keys == prev.keys + [k])
    ensures FirstAssignmentOrder(d, ks)
  {
    var n := |ks| - 1;
    var k := ks[n];
    var pks := ks[..n];
    assert ks == pks + [k];
    forall i, j | 0 <= i < j < |d.keys|
      ensures d.keys[i] in ks && d.keys[j] in ks
      ensures IndexOf(ks, d.keys[i]) < IndexOf(ks, d.keys[j])
    {
      var x := prev.keys[i];
      assert d.keys[i] == x;
      IndexOfAppend(pks, [k], x);
      if j < |prev.keys| {
        var y := prev.keys[j];
        assert d.keys[j] == y;
        IndexOfAppend(pks, [k], y);
      } else {
        NewKeyIndex(pks, k);
      }
    }
    if |d.keys| == 1 {
      assert d.keys[0] in ks;
    }
  }

  /** A key assigned for the first time sits behind all earlier ones. */
  lemma NewKeyIndex<K(!new)>(pks: seq<K>, k: K)
    requires k !in pks
    ensures IndexOf(pks + [k], k) == |pks|
  {
    var t := IndexOf(pks + [k], k);
    assert (pks + [k])[|pks|] == k;
  }
}
