/** Small things that several modules share. */
module Wrappers {
  /** A value that may be missing: the source's null pointers and error returns. */
  datatype Option<+T> = None | Some(value: T)

  /** Always true. A predicate written `forall ask :: Inspect(ask) ==> P` stays
      out of a proof, however often it is passed on, until the proof says
      `assert Inspect(true)` and so asks for `P`. */
  ghost predicate Inspect(ask: bool) {
    true
  }

  /** The same for a predicate that holds such predicates: each level is asked
      for on its own. */
  ghost predicate InspectInner(ask: bool) {
    true
  }
}
