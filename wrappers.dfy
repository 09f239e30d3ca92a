/** Small shared vocabulary: an optional value, standing in for a nullable
    pointer or an "absent" result. */
module Wrappers {

  datatype Option<+T> = None | Some(value: T)

  /** Task handles: the `idx` field of the C `Handle` struct. Index 0 is the
      "no task" sentinel; valid handles are 1-based slot numbers. */
  type Handle = nat

  /** Size of every task stack, in bytes (async.h). */
  const STACK_SIZE: int := 16384

  /** No index occurs twice in a list of slots (free-lists, chains, queues). */
  ghost predicate Distinct(list: seq<nat>)
  {
    forall j, k :: 0 <= j < k < |list| ==> list[j] != list[k]
  }
}
