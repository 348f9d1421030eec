/** A fact about multisets that both games share. */
module Multisets {

  /** What is added to both sides changes no balance. */
  lemma AddBoth<T>(a: multiset<T>, x: multiset<T>, b: multiset<T>, y: multiset<T>, more: multiset<T>)
    requires a + x == b + y
    ensures a + more + x == b + more + y
  {
    assert a + more + x == a + x + more;
    assert b + more + y == b + y + more;
  }
}
