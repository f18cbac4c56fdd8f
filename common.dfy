/**
 * Shared vocabulary of the librbd crypto layer model: fixed-width integer
 * ranges, the (negated) errno values the workflows return, Option, and the
 * "first non-zero status wins" rule that every callback chain follows.
 */
module Common {

  /** The C++ code stores statuses, lengths and offsets in fixed-width types. */
  const U32: int := 0x1_0000_0000
  const U64: int := 0x1_0000_0000_0000_0000

  type byte = b: int | 0 <= b < 256
  type u32 = x: int | 0 <= x < U32
  type u64 = x: int | 0 <= x < U64

  /** Linux errno values; the code returns them negated. */
  const ENOENT: int := 2
  const EIO: int := 5
  const EEXIST: int := 17
  const EINVAL: int := 22
  const ENOTSUP: int := 95

  datatype Option<T> = None | Some(value: T)

  /**
   * The status a callback chain reports when every step aborts the chain on
   * the first non-zero status: the first non-zero entry, or 0.
   */
  function FirstError(statuses: seq<int>): (r: int)
    ensures r != 0 ==> r in statuses
    ensures r == 0 <==> forall i :: 0 <= i < |statuses| ==> statuses[i] == 0
  {
    if statuses == [] then 0
    else if statuses[0] != 0 then statuses[0]
    else FirstError(statuses[1..])
  }

  /** A run of steps whose every status is zero reports zero. */
  lemma {:induction false} FirstErrorAppend(a: seq<int>, b: seq<int>)
    ensures FirstError(a + b) == if FirstError(a) != 0 then FirstError(a) else FirstError(b)
  {
    if a != [] {
      assert (a + b)[1..] == a[1..] + b;
      FirstErrorAppend(a[1..], b);
    } else {
      assert a + b == b;
    }
  }
}
