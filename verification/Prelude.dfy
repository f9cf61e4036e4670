/** Small notions shared by several parts of the kernel. */
module Prelude {
  datatype Option<T> = None | Some(value: T)

  type Byte = b: nat | b < 256

  /** Capacity of the executor's ready queue. */
  const MAX_TASKS: nat := 128

  ghost predicate Distinct(s: seq<nat>) {
    forall i, j :: 0 <= i < j < |s| ==> s[i] != s[j]
  }
}
