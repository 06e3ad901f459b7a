/** Values shared by every part of the vector: machine limits, the optional and
    fallible results the operations hand back, memory layouts, and sequence
    reversal (the order in which popping from the back yields elements). */
module Common {

  /** Largest `usize` on the 64-bit target the model assumes. */
  const USIZE_MAX: nat := 0xFFFF_FFFF_FFFF_FFFF

  /** Largest `isize` on the same target. */
  const ISIZE_MAX: nat := 0x7FFF_FFFF_FFFF_FFFF

  datatype Option<T> = None | Some(value: T)

  /** Why an operation stopped the program instead of completing:
      `CapacityOverflow` and `AllocError` are the two fatal growth failures,
      `IndexOutOfBounds` the failed position check of `insert` and `remove`. */
  datatype Abort = CapacityOverflow | AllocError | IndexOutOfBounds

  /** Outcome of an operation that returns nothing when it completes. */
  datatype Status = Done | Aborted(reason: Abort)

  /** Outcome of an operation that returns a value when it completes. */
  datatype Result<T> = Ok(value: T) | Err(reason: Abort)

  /** Size and alignment, in bytes, of a type or of an allocation request. */
  datatype Layout = Layout(size: nat, align: nat)

  /** What every Rust type's layout satisfies: a non-zero alignment (so the
      dangling address equal to it is never null) and a size at most `isize::MAX`. */
  predicate TypeLayout(t: Layout) {
    t.align > 0 && t.size <= ISIZE_MAX
  }

  /** `s` read from its last element to its first. */
  function Reverse<T>(s: seq<T>): (r: seq<T>)
    ensures |r| == |s|
  {
    if s == [] then [] else [s[|s| - 1]] + Reverse(s[..|s| - 1])
  }

  /** Reversal neither adds nor loses elements. */
  lemma {:induction false} ReverseMultiset<T>(s: seq<T>)
    ensures multiset(Reverse(s)) == multiset(s)
  {
    if s != [] {
      ReverseMultiset(s[..|s| - 1]);
      assert s == s[..|s| - 1] + [s[|s| - 1]];
    }
  }
}
