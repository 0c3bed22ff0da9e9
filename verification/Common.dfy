/** Small things several modules need. */
module Common {

  datatype Option<+T> = None | Some(value: T)

  lemma SmallerSet<T>(a: set<T>, b: set<T>)
    requires a <= b
    ensures |a| <= |b|
  {
    assert b == a + (b - a);
  }

  lemma SameSize<T>(a: set<T>, b: set<T>)
    requires a <= b && |a| == |b|
    ensures a == b
  {
    assert b == a + (b - a);
  }

  /** The last event of a history, and what was before it. */
  lemma Extend<E>(history: seq<E>, e: E)
    ensures (history + [e])[..|history|] == history && (history + [e])[|history|] == e
  {
  }
}
