/** Sums over the values of a finite map, taken in no particular order. */
module Sums {

  /** Some key of a non-empty map; which one is left open, as a hash map's iteration order is. */
  ghost function Pick<K>(m: map<K, int>): (k: K)
    requires |m| > 0
    ensures k in m
  {
    var k :| k in m; k
  }

  /** The sum of all values of m. */
  ghost function MapSum<K>(m: map<K, int>): int
    decreases m.Keys
  {
    if |m| == 0 then 0
    else
      var k := Pick(m);
      m[k] + MapSum(m - {k})
  }

  /** The sum does not depend on the order: any key may be taken out first. */
  lemma {:induction false} MapSumPick<K>(m: map<K, int>, k: K)
    requires k in m
    ensures MapSum(m) == m[k] + MapSum(m - {k})
    decreases m.Keys
  {
    var j := Pick(m);
    if j != k {
      MapSumPick(m - {j}, k);
      MapSumPick(m - {k}, j);
      assert m - {j} - {k} == m - {k} - {j};
    }
  }

  /** The entries of m whose keys lie in ks. */
  ghost function Restrict<K>(m: map<K, int>, ks: set<K>): (r: map<K, int>)
    ensures r.Keys == m.Keys * ks
    ensures forall k :: k in r ==> r[k] == m[k]
  {
    map k | k in m.Keys * ks :: m[k]
  }

  /** Taking one more key out of the restriction takes its value out of the sum. */
  lemma MapSumRestrictStep<K>(m: map<K, int>, ks: set<K>, k: K)
    requires k in ks && k in m
    ensures MapSum(Restrict(m, ks)) == m[k] + MapSum(Restrict(m, ks - {k}))
  {
    MapSumPick(Restrict(m, ks), k);
    assert Restrict(m, ks) - {k} == Restrict(m, ks - {k});
  }

  /** Restricting to a superset of the keys changes nothing. */
  lemma RestrictAll<K>(m: map<K, int>, ks: set<K>)
    requires m.Keys <= ks
    ensures Restrict(m, ks) == m
  {
  }
}
