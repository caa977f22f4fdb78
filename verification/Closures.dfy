/** The least set holding the seeds and closed under a successor relation. */
module Closures {

  ghost predicate Closed<N(!new)>(next: N -> set<N>, s: set<N>) {
    forall x :: x in s ==> next(x) <= s
  }

  ghost predicate IsClosure<N(!new)>(next: N -> set<N>, seeds: set<N>, s: set<N>) {
    && seeds <= s
    && Closed(next, s)
    && forall t :: seeds <= t && Closed(next, t) ==> s <= t
  }

  lemma ClosureIsUnique<N(!new)>(next: N -> set<N>, seeds: set<N>, a: set<N>, b: set<N>)
    requires IsClosure(next, seeds, a) && IsClosure(next, seeds, b)
    ensures a == b
  {
    assert a <= b && b <= a;
  }

  /** Closing two seed sets together is the union of closing each. */
  lemma ClosureOfBoth<N(!new)>(next: N -> set<N>, a: set<N>, b: set<N>, x: set<N>, y: set<N>, z: set<N>)
    requires IsClosure(next, a, x) && IsClosure(next, b, y) && IsClosure(next, a + b, z)
    ensures z == x + y
  {
    assert Closed(next, x + y);
    assert z <= x + y && x <= z && y <= z;
  }

  /** A closure depends on the successors of its own members alone. */
  lemma ClosureIsLocal<N(!new)>(next: N -> set<N>, other: N -> set<N>, seeds: set<N>, s: set<N>)
    requires IsClosure(next, seeds, s) && forall x :: x in s ==> other(x) == next(x)
    ensures IsClosure(other, seeds, s)
  {
    forall t | seeds <= t && Closed(other, t) ensures s <= t {
      assert Closed(next, s * t) by {
        forall x | x in s * t ensures next(x) <= s * t {
          assert other(x) == next(x);
        }
      }
    }
  }
}
