/** Cancellation laws for tallies kept as multisets. */
module Multisets {
  lemma Swapped<T>(a: multiset<T>, b: multiset<T>, old': multiset<T>, new': multiset<T>, more: multiset<T>)
    requires a + old' == b + new'
    ensures (more + a) + old' == (more + b) + new'
  {
    assert (more + a) + old' == more + (a + old') && (more + b) + new' == more + (b + new');
  }

  /** One part of a sum is replaced: what it gained is `more`, what it lost is `out`. */
  lemma Cancelled<T>(held: multiset<T>, held': multiset<T>, has: multiset<T>, has': multiset<T>,
                     rest: multiset<T>, more: multiset<T>, out: multiset<T>)
    requires held' + has == held + has' && has' + out == has + more
    ensures (rest + held) + more == (rest + out) + held'
  {
    forall x
      ensures ((rest + held) + more)[x] == ((rest + out) + held')[x]
    {
      assert (held' + has)[x] == (held + has')[x] && (has' + out)[x] == (has + more)[x];
    }
  }
}
