/**
 * Group-by counting as both `HashMap.put(k, getOrDefault(k, 0) + 1)` loops
 * and `Collectors.groupingBy(..., Collectors.counting())` compute it.
 */
module Counting {

  /** Some key of a non-empty map. */
  ghost function Pick<K>(m: map<K, nat>): (k: K)
    requires |m| > 0
    ensures k in m
  {
    assert m.Keys != {} by { assert |m.Keys| == |m|; }
    var k :| k in m; k
  }

  lemma RemoveOneKey<K>(m: map<K, nat>, k: K)
    requires k in m
    ensures |m - {k}| == |m| - 1
  {
    assert (m - {k}).Keys == m.Keys - {k};
  }

  /** Sum of the values of a finite map. */
  ghost function SumValues<K>(m: map<K, nat>): nat
    decreases |m|
  {
    if |m| == 0 then 0
    else
      var k := Pick(m);
      RemoveOneKey(m, k);
      m[k] + SumValues(m - {k})
  }

  /** Any key can be taken out first. */
  lemma {:induction false} SumValuesRemove<K>(m: map<K, nat>, k: K)
    requires k in m
    ensures SumValues(m) == m[k] + SumValues(m - {k})
    decreases |m|
  {
    var j := Pick(m);
    if j != k {
      var mj := m - {j};
      var mk := m - {k};
      RemoveOneKey(m, j);
      RemoveOneKey(m, k);
      SumValuesRemove(mj, k);
      SumValuesRemove(mk, j);
      assert mj - {k} == mk - {j};
    }
  }

  lemma SumValuesUpdate<K>(m: map<K, nat>, k: K, v: nat)
    ensures k in m ==> SumValues(m[k := v]) + m[k] == SumValues(m) + v
    ensures k !in m ==> SumValues(m[k := v]) == SumValues(m) + v
  {
    var m' := m[k := v];
    SumValuesRemove(m', k);
    UpdateThenRemove(m, k, v);
    if k in m {
      SumValuesRemove(m, k);
    } else {
      assert m - {k} == m;
    }
  }

  lemma UpdateThenRemove<K>(m: map<K, nat>, k: K, v: nat)
    ensures m[k := v] - {k} == m - {k}
  {
  }

  /** Counting one more occurrence of a key adds one to the total. */
  lemma SumValuesIncrement<K>(m: map<K, nat>, k: K)
    ensures SumValues(m[k := (if k in m then m[k] else 0) + 1]) == SumValues(m) + 1
  {
    SumValuesUpdate(m, k, (if k in m then m[k] else 0) + 1);
  }

  /** Occurrence counts of the keys, folded left to right exactly as the
      `getOrDefault(k, 0) + 1` loops do it. */
  function GroupCount<K(==,!new)>(keys: seq<K>): (m: map<K, nat>)
    ensures forall k :: k in m <==> k in keys
  {
    if |keys| == 0 then map[]
    else
      var m := GroupCount(keys[..|keys| - 1]);
      var k := keys[|keys| - 1];
      assert keys == keys[..|keys| - 1] + [k];
      m[k := (if k in m then m[k] else 0) + 1]
  }

  /** Each key is mapped to its number of occurrences. */
  lemma {:induction false} GroupCountIsMultiplicity<K(!new)>(keys: seq<K>)
    ensures forall k :: k in GroupCount(keys) ==> GroupCount(keys)[k] == multiset(keys)[k] >= 1
  {
    if |keys| > 0 {
      var prefix := keys[..|keys| - 1];
      GroupCountIsMultiplicity(prefix);
      assert keys == prefix + [keys[|keys| - 1]];
    }
  }

  /** The counts add up to the number of keys grouped. */
  lemma {:induction false} GroupCountSum<K(!new)>(keys: seq<K>)
    ensures SumValues(GroupCount(keys)) == |keys|
  {
    if |keys| > 0 {
      var prefix := keys[..|keys| - 1];
      var k := keys[|keys| - 1];
      var m := GroupCount(prefix);
      calc {
        SumValues(GroupCount(keys));
        { GroupCountStep(keys, prefix, k); }
        SumValues(m[k := (if k in m then m[k] else 0) + 1]);
        { SumValuesIncrement(m, k); }
        SumValues(m) + 1;
        { GroupCountSum(prefix); }
        |prefix| + 1;
      }
    }
  }

  /** The last key is counted on top of the counts of the others. */
  lemma GroupCountStep<K(!new)>(keys: seq<K>, prefix: seq<K>, k: K)
    requires |keys| > 0 && prefix == keys[..|keys| - 1] && k == keys[|keys| - 1]
    ensures GroupCount(keys) == GroupCount(prefix)[k := (if k in GroupCount(prefix) then GroupCount(prefix)[k] else 0) + 1]
  {
  }
}
