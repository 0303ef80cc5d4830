/** What the kernel's queues and the allocator's history have in common. */
module Sequences {

  /** No number occurs twice. */
  ghost predicate NoDuplicates(s: seq<nat>) {
    forall i, j | 0 <= i < j < |s| :: s[i] != s[j]
  }
}
