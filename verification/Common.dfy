/** Types and error numbers shared by the models of the libfutils components. */
module Common {
  type byte = x: int | 0 <= x < 256

  datatype Option<+T> = None | Some(value: T)

  ghost predicate Distinct<T>(s: seq<T>) {
    forall i, j :: 0 <= i < j < |s| ==> s[i] != s[j]
  }

  const TWO32: int := 0x1_0000_0000
  const TWO64: int := 0x1_0000_0000_0000_0000

  // errno values; the library returns their negation
  const EPERM := 1
  const ENOENT := 2
  const EAGAIN := 11
  const EEXIST := 17
  const EINVAL := 22
  const EPROTO := 71
  const EOVERFLOW := 75
  const EINPROGRESS := 115
}
