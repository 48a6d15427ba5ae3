/**
 * A pass over every entry of a map in an unspecified order, as the stores
 * do over `HashMap.values()`. Only which values are collected is specified,
 * never their order.
 */
module Scans {
  import opened Sequences

  /** Distinct keys hold distinct values (each stored entity carries its own key). */
  predicate Injective<K, V(==)>(m: map<K, V>) {
    forall k1, k2 :: k1 in m && k2 in m && k1 != k2 ==> m[k1] != m[k2]
  }

  /** The keys whose values pass `keep`. */
  function Selected<K(!new), V>(m: map<K, V>, keep: V -> bool): (ks: set<K>)
    ensures forall k :: k in ks <==> k in m && keep(m[k])
  {
    set k | k in m && keep(m[k])
  }

  /**
   * Progress of a scan: the keys outside `todo` have been visited, `chosen`
   * are those among them that passed, and `r` holds their values in the
   * visiting order recorded by `keys`.
   */
  ghost predicate ScanState<K, V>(m: map<K, V>, keep: V -> bool, todo: set<K>,
                                      chosen: set<K>, keys: seq<K>, r: seq<V>)
  {
    && todo <= m.Keys
    && chosen <= m.Keys && chosen !! todo
    && (forall k :: k in m && k !in todo ==> (k in chosen <==> keep(m[k])))
    && |keys| == |r| == |chosen|
    && (forall i :: 0 <= i < |r| ==> keys[i] in chosen && r[i] == m[keys[i]])
    && (forall k :: k in chosen ==> m[k] in r)
    && (Injective(m) ==> NoDuplicates(r))
  }

  lemma ScanStart<K, V>(m: map<K, V>, keep: V -> bool)
    ensures ScanState(m, keep, m.Keys, {}, [], [])
  {
  }

  /** Visiting one more key keeps the scan state. */
  lemma ScanStep<K, V>(m: map<K, V>, keep: V -> bool, todo: set<K>,
                       chosen: set<K>, keys: seq<K>, r: seq<V>, k: K)
    requires ScanState(m, keep, todo, chosen, keys, r) && k in todo
    ensures keep(m[k]) ==> ScanState(m, keep, todo - {k}, chosen + {k}, keys + [k], r + [m[k]])
    ensures !keep(m[k]) ==> ScanState(m, keep, todo - {k}, chosen, keys, r)
  {
    if keep(m[k]) && Injective(m) {
      forall i | 0 <= i < |r|
        ensures r[i] != m[k]
      {
        assert keys[i] != k;
      }
      AppendFreshKeepsNoDuplicates(r, m[k]);
    }
  }

  /** Once every key has been visited, the collected values are exactly the selected ones. */
  lemma ScanDone<K(!new), V>(m: map<K, V>, keep: V -> bool, chosen: set<K>, keys: seq<K>, r: seq<V>)
    requires ScanState(m, keep, {}, chosen, keys, r)
    ensures forall v :: v in r <==> v in m.Values && keep(v)
    ensures chosen == Selected(m, keep)
  {
    forall v | v in r
      ensures v in m.Values && keep(v)
    {
      var i :| 0 <= i < |r| && r[i] == v;
      assert keys[i] in m;
    }
  }

  /** Collects the values that pass `keep`, each stored entry once. */
  method CollectValues<K(!new), V(==)>(m: map<K, V>, keep: V -> bool) returns (r: seq<V>)
    ensures forall v :: v in r <==> v in m.Values && keep(v)
    ensures |r| == |Selected(m, keep)|
    ensures Injective(m) ==> NoDuplicates(r)
  {
    r := [];
    var todo := m.Keys;
    ghost var chosen: set<K> := {};
    ghost var keys: seq<K> := [];
    ScanStart(m, keep);
    while todo != {}
      invariant ScanState(m, keep, todo, chosen, keys, r)
      decreases |todo|
    {
      var k :| k in todo;
      ScanStep(m, keep, todo, chosen, keys, r, k);
      if keep(m[k]) {
        r := r + [m[k]];
        keys := keys + [k];
        chosen := chosen + {k};
      }
      todo := todo - {k};
    }
    ScanDone(m, keep, chosen, keys, r);
  }

  /** Some listing of a finite set, each element once. */
  ghost function Enumerate<T(!new)>(s: set<T>): (r: seq<T>)
    ensures forall x :: x in r <==> x in s
    ensures |r| == |s|
  {
    if s == {} then []
    else
      var x :| x in s;
      [x] + Enumerate(s - {x})
  }
}
