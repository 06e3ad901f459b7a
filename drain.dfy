/** The draining iterator (src/drain.rs): a cursor over a vector's former
    contents. It owns no memory; dropping it takes every value still in range
    so that each one is dropped exactly once. */
module Drains {
  import opened Common
  import opened RawValIters

  class Drain<T> {
    const iter: RawValIter<T>
    /** Values taken, and so dropped, by `drop`, in the order taken. */
    ghost var Dropped: seq<T>
    /** Set once the iterator has been dropped. */
    ghost var Disposed: bool

    ghost predicate Valid()
      reads this, iter, iter.mem
    {
      iter.Valid() && !Disposed
    }

    constructor (iter: RawValIter<T>)
      requires iter.Valid()
      ensures Valid() && this.iter == iter && Dropped == []
    {
      this.iter := iter;
      Dropped, Disposed := [], false;
    }

    /** `next`: exactly what the cursor's `next` returns. */
    method Next() returns (r: Option<T>)
      requires Valid()
      modifies iter
      ensures Valid()
      ensures r.None? <==> old(iter.Remaining()) == []
      ensures r.None? ==> iter.Remaining() == old(iter.Remaining()) && iter.Front == old(iter.Front)
      ensures r.Some? ==>
                && r.value == old(iter.Remaining())[0]
                && iter.Remaining() == old(iter.Remaining())[1..]
                && iter.Front == old(iter.Front) + [r.value]
      ensures iter.Back == old(iter.Back) && iter.Original == old(iter.Original)
      ensures r.None? <==> old(iter.start) == old(iter.end)
      ensures iter.end == old(iter.end)
      ensures iter.start == if r.Some? then old(iter.start) + Step(iter.size) else old(iter.start)
    {
      r := iter.Next();
    }

    /** `next_back`: exactly what the cursor's `next_back` returns. */
    method NextBack() returns (r: Option<T>)
      requires Valid()
      modifies iter
      ensures Valid()
      ensures r.None? <==> old(iter.Remaining()) == []
      ensures r.None? ==> iter.Remaining() == old(iter.Remaining()) && iter.Back == old(iter.Back)
      ensures r.Some? ==>
                && r.value == old(iter.Remaining())[|old(iter.Remaining())| - 1]
                && iter.Remaining() == old(iter.Remaining())[..|old(iter.Remaining())| - 1]
                && iter.Back == [r.value] + old(iter.Back)
      ensures iter.Front == old(iter.Front) && iter.Original == old(iter.Original)
      ensures r.None? <==> old(iter.start) == old(iter.end)
      ensures iter.start == old(iter.start)
      ensures iter.end == if r.Some? then old(iter.end) - Step(iter.size) else old(iter.end)
    {
      r := iter.NextBack();
    }

    /** `size_hint`: the cursor's exact count. */
    function SizeHint(): (h: (nat, Option<nat>))
      reads this, iter, iter.mem
      requires Valid()
      ensures h.0 == |iter.Remaining()| && h.1 == Some(h.0)
    {
      iter.SizeHint()
    }

    /** `drop`: takes values from the front until the cursor is empty. Every
        value the cursor was created over was then either yielded by `next`,
        dropped here, or yielded by `next_back`, in its original position. */
    method Dispose()
      requires Valid()
      modifies this, iter
      ensures Disposed && iter.Valid() && iter.Remaining() == []
      ensures Dropped == old(iter.Remaining())
      ensures iter.Original == old(iter.Original) && iter.Back == old(iter.Back)
      ensures iter.start == iter.end == old(iter.end)
      ensures iter.Original == old(iter.Front) + Dropped + iter.Back
    {
      Dropped := iter.Exhaust();
      Disposed := true;
    }
  }
}
