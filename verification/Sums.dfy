/** Totals over finite maps and lists of sizes. */
module Sums {
  import opened Sets

  /** The sum of a map's values, in whatever order they are visited. */
  ghost function Total<K>(m: map<K, nat>): nat
    decreases |m|
  {
    if m == map[] then 0
    else
      var k := Pick(m.Keys);
      Remove(m, k);
      m[k] + Total(m - {k})
  }

  lemma Remove<K, V>(m: map<K, V>, k: K)
    requires k in m
    ensures (m - {k}).Keys == m.Keys - {k} && |m - {k}| == |m| - 1
  {
  }

  /** The order of the visit does not matter: any key may be taken first. */
  lemma {:induction false} TotalWithout<K>(m: map<K, nat>, k: K)
    requires k in m
    ensures Total(m) == m[k] + Total(m - {k})
    decreases |m|
  {
    var p := Pick(m.Keys);
    Remove(m, p);
    Remove(m, k);
    if p != k {
      TotalWithout(m - {p}, k);
      TotalWithout(m - {k}, p);
      assert m - {p} - {k} == m - {k} - {p};
    }
  }

  lemma OneMore(n: nat, bound: nat)
    ensures (n + 1) * bound == n * bound + bound
  {
  }

  /** A map of at most `n` values, each at most `bound`, totals at most `n * bound`. */
  lemma {:induction false} TotalAtMost<K>(m: map<K, nat>, bound: nat)
    requires forall k :: k in m ==> m[k] <= bound
    ensures Total(m) <= |m| * bound
    decreases |m|
  {
    if m != map[] {
      var k := Pick(m.Keys);
      Remove(m, k);
      TotalAtMost(m - {k}, bound);
      OneMore(|m| - 1, bound);
    }
  }

  /** A map whose values are all the same totals that many times its size. */
  lemma {:induction false} TotalOfEqual<K>(m: map<K, nat>, each: nat)
    requires forall k :: k in m ==> m[k] == each
    ensures Total(m) == |m| * each
    decreases |m|
  {
    if m != map[] {
      var k := Pick(m.Keys);
      Remove(m, k);
      TotalOfEqual(m - {k}, each);
      OneMore(|m| - 1, each);
    }
  }
}
