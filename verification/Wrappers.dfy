/** What every module shares: a value that may be absent, a byte, and lists without repetitions. */
module Wrappers {
  datatype Option<+T> = None | Some(value: T)

  type Byte = x: int | 0 <= x < 256

  predicate Distinct<T(==)>(s: seq<T>) {
    forall i, j | 0 <= i < j < |s| :: s[i] != s[j]
  }

  function AsList<T>(value: Option<T>): seq<T> {
    if value.Some? then [value.value] else []
  }
}
