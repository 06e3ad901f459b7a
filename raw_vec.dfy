/** The owned buffer behind the vector (src/raw_vec.rs): an address, a
    capacity in slots, and the allocation those slots occupy. It knows nothing
    about how many slots hold values. */
module RawVecs {
  import opened Common

  /** Capacity after one call of `grow`, or `None` when `grow` stops with
      "capacity overflow": always for a zero-sized element (whose buffer
      already claims `usize::MAX` slots), and for a sized element once the
      current allocation exceeds half of `isize::MAX` bytes. */
  function NextCap(cap: nat, size: nat): (r: Option<nat>)
    ensures r.Some? ==> r.value > cap
  {
    if size == 0 then None
    else if cap == 0 then Some(1)
    else if cap * size > ISIZE_MAX / 2 then None
    else Some(cap * 2)
  }

  /** What `grow` reports, given what the allocator hands back (0 is null). */
  function GrowStatus(cap: nat, size: nat, allocResult: nat): Status {
    match NextCap(cap, size)
    case None => Aborted(CapacityOverflow)
    case Some(_) => if allocResult == 0 then Aborted(AllocError) else Done
  }

  predicate IsPow2(n: nat)
    decreases n
  {
    n == 1 || (n >= 2 && n % 2 == 0 && IsPow2(n / 2))
  }

  /** A successful `grow` on a buffer whose allocation fits in `isize::MAX`
      bytes yields one that still fits, and no `usize` computation on the way
      (the doubled capacity, the old and the new byte counts) overflows. */
  lemma GrowStaysInRange(cap: nat, size: nat)
    requires cap * size <= ISIZE_MAX && size <= ISIZE_MAX
    ensures NextCap(cap, size).Some? ==>
              && NextCap(cap, size).value * size <= ISIZE_MAX
              && NextCap(cap, size).value <= USIZE_MAX
              && NextCap(cap, size).value * size == (if cap == 0 then size else cap * size * 2)
  {
  }

  /** Starting from capacity 0, growth only ever produces powers of two. */
  lemma {:induction false} GrowKeepsPow2(cap: nat, size: nat)
    requires cap == 0 || IsPow2(cap)
    ensures NextCap(cap, size).Some? ==> IsPow2(NextCap(cap, size).value)
  {
    if NextCap(cap, size).Some? && cap > 0 {
      var n := cap * 2;
      assert n / 2 == cap;
      assert IsPow2(n);
    }
  }

  /** The layout `grow` hands to `realloc` for the block being resized, as
      src/raw_vec.rs:44-45 write it: the layout of the new, doubled request.
      `realloc` must be given the layout the block was allocated with, and
      this never is that one. */
  function ReallocLayoutAsWritten(cap: nat, elem: Layout): (l: Layout)
    requires cap >= 1 && elem.size >= 1
    ensures l.align == elem.align && l != Layout(cap * elem.size, elem.align)
  {
    Layout(cap * elem.size * 2, elem.align)
  }

  class RawVec<T(0)> {
    /** `size_of::<T>()` and `align_of::<T>()`. */
    const elem: Layout
    /** Address of slot 0; the dangling address `align` while nothing is allocated. */
    var ptr: nat
    var cap: nat
    /** The slots at `ptr`, `ptr + size`, ...: `cap` of them. For a zero-sized
        element they occupy no memory at all. */
    var data: array<T>
    /** The block this buffer currently holds from the allocator. */
    ghost var Allocation: Option<Layout>
    /** Set once the buffer has been dropped. */
    ghost var Released: bool

    ghost predicate Valid()
      reads this
    {
      && TypeLayout(elem)
      && ptr != 0
      && data.Length == cap <= USIZE_MAX
      && cap * elem.size <= ISIZE_MAX
      && (elem.size == 0 ==> cap == USIZE_MAX)
      && (elem.size != 0 ==> cap == 0 || IsPow2(cap))
      && Allocation == (if cap != 0 && elem.size != 0 then Some(Layout(cap * elem.size, elem.align)) else None)
      && !Released
    }

    /** `RawVec::new`: no allocation; capacity 0, or `usize::MAX` for a
        zero-sized element, which never needs memory. */
    constructor (elem: Layout)
      requires TypeLayout(elem)
      ensures Valid() && this.elem == elem
      ensures cap == (if elem.size == 0 then USIZE_MAX else 0)
      ensures Allocation == None && ptr == elem.align && fresh(data)
    {
      this.elem := elem;
      ptr := elem.align;
      cap := if elem.size == 0 then USIZE_MAX else 0;
      data := new T[if elem.size == 0 then USIZE_MAX else 0];
      Allocation := None;
      Released := false;
    }

    /** `grow`: allocate one slot, or reallocate to twice the slots, keeping
        the old slots' contents. `allocResult` is the address the allocator
        returns (0 for a failed request). Every check happens before any field
        changes, so an abort leaves the buffer as it was. `resized` is the
        layout handed to `realloc` as that of the block being resized (`None`
        when a first block is allocated instead): exactly the block held. */
    method Grow(allocResult: nat) returns (s: Status, ghost resized: Option<Layout>)
      requires Valid()
      modifies this
      ensures Valid()
      ensures s == GrowStatus(old(cap), elem.size, allocResult)
      ensures s.Done? ==> resized == old(Allocation)
      ensures s.Done? ==>
                && cap == NextCap(old(cap), elem.size).value
                && ptr == allocResult
                && fresh(data) && data[..old(cap)] == old(data[..])
      ensures !s.Done? ==> ptr == old(ptr) && cap == old(cap) && data == old(data) && Allocation == old(Allocation)
    {
      resized := None;
      if elem.size == 0 {
        s := Aborted(CapacityOverflow);
        return;
      }
      var newCap: nat;
      var request: Layout;
      if cap == 0 {
        request := Layout(elem.size, elem.align);
        newCap := 1;
      } else {
        newCap := cap * 2;
        var oldBytes := cap * elem.size;
        if oldBytes > ISIZE_MAX / 2 {
          s := Aborted(CapacityOverflow);
          return;
        }
        request := Layout(oldBytes * 2, elem.align);
        resized := Some(Layout(oldBytes, elem.align));
      }
      if allocResult == 0 {
        s := Aborted(AllocError);
        return;
      }
      GrowStaysInRange(cap, elem.size);
      GrowKeepsPow2(cap, elem.size);
      var block := new T[newCap];
      forall i | 0 <= i < cap {
        block[i] := data[i];
      }
      ptr, cap, data := allocResult, newCap, block;
      Allocation := Some(request);
      s := Done;
    }

    /** `drop`: hands back to `dealloc` exactly the block held, if any, and
        there is one only when the capacity is non-zero and the element sized. */
    method Release() returns (freed: Option<Layout>)
      requires Valid()
      modifies this
      ensures Released && cap == old(cap) && ptr == old(ptr) && data == old(data)
      ensures freed == old(Allocation)
      ensures freed.Some? <==> old(cap) != 0 && elem.size != 0
    {
      if cap != 0 && elem.size != 0 {
        freed := Some(Layout(elem.size * cap, elem.align));
      } else {
        freed := None;
      }
      Released := true;
    }
  }
}
