/** DoubleAssociation of openbsd/utils.py: a dictionary whose every assignment also
    records the reverse association. */
module DoubleAssociations {
  import opened Common

  /** Every entry's value is itself a key that leads back to the entry's key. */
  ghost predicate Symmetric<K>(m: map<K, K>)
  {
    forall k :: k in m ==> m[k] in m && m[m[k]] == k
  }

  /** The dictionary after `self[key] = value`. */
  function Associate<K>(m: map<K, K>, key: K, value: K): (r: map<K, K>)
    ensures r.Keys == m.Keys + {key, value}
    ensures key in r && value in r && r[value] == key
    ensures key != value ==> r[key] == value
    ensures forall k :: k in m && k != key && k != value ==> r[k] == m[k]
  {
    m[key := value][value := key]
  }

  /** The dictionary after assigning each pair in turn. */
  function AssociateAll<K>(m: map<K, K>, pairs: seq<(K, K)>): map<K, K>
    decreases |pairs|
  {
    if pairs == [] then m
    else AssociateAll(Associate(m, pairs[0].0, pairs[0].1), pairs[1..])
  }

  /** While keys and values stay disjoint (a fresh key and a fresh value each time),
      the dictionary goes both ways. */
  lemma AssociateKeepsSymmetric<K>(m: map<K, K>, key: K, value: K)
    requires Symmetric(m)
    requires key !in m && value !in m
    ensures Symmetric(Associate(m, key, value))
  {
    var r := Associate(m, key, value);
    forall k | k in r ensures r[k] in r && r[r[k]] == k {
      if k != key && k != value {
        assert m[k] != key && m[k] != value;
      }
    }
  }

  /** Pairs whose keys and values are all distinct build a symmetric dictionary. */
  lemma {:induction false} AssociateAllSymmetric<K>(m: map<K, K>, pairs: seq<(K, K)>)
    requires Symmetric(m)
    requires forall i :: 0 <= i < |pairs| ==> pairs[i].0 !in m && pairs[i].1 !in m
    requires forall i, j :: 0 <= i < |pairs| && 0 <= j < |pairs| && i != j ==>
               pairs[i].0 != pairs[j].0 && pairs[i].0 != pairs[j].1 && pairs[i].1 != pairs[j].1
    ensures Symmetric(AssociateAll(m, pairs))
    decreases |pairs|
  {
    if pairs != [] {
      var m' := Associate(m, pairs[0].0, pairs[0].1);
      AssociateKeepsSymmetric(m, pairs[0].0, pairs[0].1);
      forall i | 0 <= i < |pairs[1..]| ensures pairs[1..][i].0 !in m' && pairs[1..][i].1 !in m' {
        assert pairs[1..][i] == pairs[i + 1];
      }
      AssociateAllSymmetric(m', pairs[1..]);
    }
  }

  class DoubleAssociation<K(==)> {
    var items: map<K, K>

    /** DoubleAssociation(idict): each of the initial pairs assigned in turn. */
    constructor (init: seq<(K, K)>)
      ensures items == AssociateAll(map[], init)
    {
      items := AssociateAll(map[], init);
    }

    /** self[key]: KeyError when absent. */
    function Get(key: K): (r: Result<K>)
      reads this
      ensures r.Ok? <==> key in items
      ensures r.Ok? ==> r.value == items[key]
      ensures r.Err? ==> r.error == KeyError
    {
      if key in items then Ok(items[key]) else Err(KeyError)
    }

    /** self[key] = value: the forward write, then the reverse one. */
    method Set(key: K, value: K)
      modifies this
      ensures items == Associate(old(items), key, value)
      ensures Get(value) == Ok(key)
      ensures key != value ==> Get(key) == Ok(value)
    {
      items := items[key := value];
      items := items[value := key];
    }
  }

  /** The source's tests: "one" -> 1 is readable both ways. */
  lemma AssociationExample()
    ensures Associate(map[], 1, 2)[1] == 2 && Associate(map[], 1, 2)[2] == 1
    ensures AssociateAll(map[], [(1, 2)]) == Associate(map[], 1, 2)
  {
  }
}
