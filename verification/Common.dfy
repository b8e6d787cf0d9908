/** What several modules of the model share. */
module Common {

  datatype Option<+T> = None | Some(value: T)

  /** What keeps a stream alive while a command prints nothing; the server sends it, the client drops it. */
  const HEARTBEAT: string := "\U{200B}"

  predicate Nondecreasing(s: seq<int>) {
    forall i, j :: 0 <= i <= j < |s| ==> s[i] <= s[j]
  }

  lemma SubsetSize<T>(a: set<T>, b: set<T>)
    requires a <= b
    ensures |a| <= |b|
  {
    assert b == a + (b - a);
  }
}
