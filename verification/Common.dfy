/** What several of the modules need. */
module Common {

  datatype Option<T> = None | Some(value: T)

  function Least(a: int, b: int): int {
    if a <= b then a else b
  }

  /** Places in a list of this length, in order. */
  ghost predicate Places(at: seq<nat>, n: nat) {
    && (forall i | 0 <= i < |at| :: at[i] < n)
    && (forall i, j | 0 <= i < j < |at| :: at[i] < at[j])
  }

  lemma PlacesNext(at: seq<nat>, n: nat)
    requires Places(at, n)
    ensures Places(at, n + 1) && Places(at + [n], n + 1) && n !in at
  {
  }
}
