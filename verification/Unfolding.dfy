/** A way to keep a definition shut. A predicate defined as
      forall k {:trigger Unfold(k)} :: Unfold(k) ==> Body
    means Body, but the verifier looks at Body only where Unfold is mentioned. The invariants carried
    through whole algorithms are defined like this; small lemmas open them. There are several such
    predicates, so that opening one invariant leaves the others shut. */
module Unfolding {
  ghost predicate Unfold(k: int) { true }

  /** For the DNS resolver's tables. */
  ghost predicate UnfoldTasks(k: int) { true }

  /** For the registry slots, the requests, their numbers and the count of a stream handle. */
  ghost predicate UnfoldSlots(k: int) { true }

  ghost predicate UnfoldRequests(k: int) { true }

  ghost predicate UnfoldNumbers(k: int) { true }

  ghost predicate UnfoldCount(k: int) { true }
}
