/** What the modules share: an answer that may be absent (a missing record, an unset time, a text that is no number),
    and a fact about sets. */
module Common {
  datatype Option<+T> = None | Some(value: T)

  lemma SubsetSize<T>(a: set<T>, b: set<T>)
    requires a <= b
    ensures |a| <= |b|
  {
    assert b == a + (b - a);
  }
}
