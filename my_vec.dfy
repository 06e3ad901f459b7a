/** The growable vector (src/main.rs): a buffer plus the number of its
    leading slots that hold values, the operations that shift, add and take
    those values, and the consuming iterator that takes the buffer over. */
module MyVecs {
  import opened Common
  import opened Ptr
  import opened RawVecs
  import opened RawValIters
  import opened Drains

  /** Opening a gap at `index` among the first `len` slots (a move of the
      tail one slot up, skipped when the tail is empty) and writing `x` into
      it leaves the old values with `x` between `s[..index]` and the rest. */
  lemma InsertShift<T>(s: seq<T>, len: nat, index: nat, x: T)
    requires index <= len < |s|
    ensures (if index < len then Moved(s, index, index + 1, len - index) else s)[index := x][..len + 1]
            == s[..index] + [x] + s[index..len]
  {
    var t := (if index < len then Moved(s, index, index + 1, len - index) else s)[index := x];
    var want := s[..index] + [x] + s[index..len];
    assert |t[..len + 1]| == |want|;
    forall k | 0 <= k < len + 1
      ensures t[k] == want[k]
    {
      if k > index {
        assert t[k] == s[k - 1];
      }
    }
  }

  /** Closing the gap at `index` among the first `len` slots (a move of the
      `len - index - 1` later slots one down) leaves every value but `s[index]`,
      in order, in the first `len - 1` slots. */
  lemma RemoveShift<T>(s: seq<T>, len: nat, index: nat)
    requires index < len <= |s|
    ensures Moved(s, index + 1, index, len - index - 1)[..len - 1] == s[..index] + s[index + 1..len]
  {
    var t := Moved(s, index + 1, index, len - index - 1);
    var want := s[..index] + s[index + 1..len];
    assert |t[..len - 1]| == |want|;
    forall k | 0 <= k < len - 1
      ensures t[k] == want[k]
    {
      if k >= index {
        assert t[k] == s[k + 1];
      }
    }
  }

  /** The slot accesses of `remove`: it reads slot `read`, then moves
      `count` slots from `src` down to `dst`. */
  datatype RemovePlan = RemovePlan(read: nat, src: nat, dst: nat, count: nat)

  /** Every slot the plan reads or writes holds one of the `len` live values. */
  predicate WithinLive(p: RemovePlan, len: nat) {
    p.read < len && p.src + p.count <= len && p.dst + p.count <= len
  }

  /** `remove` as main.rs:76-83 write it: the guard admits `index == len`
      and the move copies `len - index` slots. Whatever index the guard
      admits, the plan touches slot `len`, which holds no value; when the
      vector is full that slot lies past the end of the allocation. */
  function RemovePlanAsWritten(len: nat, index: nat): (p: RemovePlan)
    requires index <= len
    ensures !WithinLive(p, len)
    ensures p.read == len || p.src + p.count == len + 1
  {
    RemovePlan(index, index + 1, index, len - index)
  }

  /** What `remove` as written returns, the length it stores and the values
      it leaves live, on slots with at least one spare slot after the live
      ones (so that the move stays in the buffer). Below `len` it keeps the
      right values; at `index == len` it returns the spare slot and drops
      `slots[len - 1]` from the live values without returning it. The stored length is
      `len - 1` taken as an integer: on an empty vector it is -1, the point
      where `self.len -= 1` underflows `usize` (a panic with overflow checks,
      `usize::MAX` without them) after slot 0, which holds no value, has
      already been read. */
  function RemoveAsWritten<T>(slots: seq<T>, len: nat, index: nat): (r: (T, int, seq<T>))
    requires index <= len && len + 1 <= |slots|
    ensures r.1 < 0 <==> len == 0
    ensures r.1 >= 0 ==> |r.2| == r.1 && r.1 + 1 == len
    ensures r.0 == slots[index]
    ensures index < len ==> r.2 == slots[..index] + slots[index + 1..len]
    ensures 1 <= len && index == len ==> r.2 == slots[..len - 1] && r.0 == slots[len]
  {
    var p := RemovePlanAsWritten(len, index);
    var kept := if len == 0 then [] else Moved(slots, p.src, p.dst, p.count)[..len - 1];
    if index < len then
      RemoveShift(slots, len + 1, index);
      assert kept == Moved(slots, index + 1, index, len - index)[..len][..len - 1];
      assert kept == (slots[..index] + slots[index + 1..len + 1])[..len - 1];
      (slots[p.read], len - 1, kept)
    else
      (slots[p.read], len - 1, kept)
  }

  /** `remove(1)` on the one-value vector `[7]` passes the guard, returns
      whatever the spare slot after it holds, and loses the 7: it is neither
      returned nor left in the vector. */
  lemma RemoveAtLenLosesValue()
    ensures RemoveAsWritten([7, 0], 1, 1) == (0, 0, [])
    ensures RemovePlanAsWritten(1, 0).src + RemovePlanAsWritten(1, 0).count == 2
  {
  }

  /** `remove(0)` on an empty vector whose one spare slot holds a stale 7
      passes the guard, returns the 7, which is not a value of the vector, and
      then drives the length below zero. */
  lemma RemoveOnEmptyUnderflows()
    ensures RemoveAsWritten([7], 0, 0).0 == 7 && RemoveAsWritten([7], 0, 0).1 == -1
    ensures !WithinLive(RemovePlanAsWritten(0, 0), 0)
  {
  }

  /** `remove` with the guard `index < len` and a move of the
      `len - index - 1` values after `index`: it touches live slots only, and
      the move covers exactly the values after the removed one. */
  function RemovePlanFixed(len: nat, index: nat): (p: RemovePlan)
    requires index < len
    ensures WithinLive(p, len)
    ensures p.read == p.dst == index && p.src == index + 1 && p.src + p.count == len
  {
    RemovePlan(index, index + 1, index, len - index - 1)
  }

  class MyVec<T(0)> {
    const buf: RawVec<T>
    var len: nat
    /** Values dropped by `drop`, in the order dropped. */
    ghost var Dropped: seq<T>
    /** Cleared once the vector is dropped or consumed by `into_iter`. */
    ghost var Live: bool

    ghost predicate Valid()
      reads this, buf
    {
      Live && buf.Valid() && len <= buf.cap
    }

    /** `MyVec::new`: an empty vector over a fresh, empty buffer. */
    constructor (elem: Layout)
      requires TypeLayout(elem)
      ensures Valid() && fresh(buf) && fresh(buf.data) && buf.elem == elem && Deref() == [] && Dropped == []
      ensures buf.cap == (if elem.size == 0 then USIZE_MAX else 0) && buf.Allocation == None
    {
      buf := new RawVec(elem);
      len := 0;
      Dropped, Live := [], true;
    }

    /** `deref`: the live slots `[0, len)`, read in place. */
    function Deref(): (s: seq<T>)
      reads this, buf, buf.data
      requires Valid()
      ensures |s| == len && s == buf.data[..len]
    {
      buf.data[..len]
    }

    /** `deref_mut` followed by a write through the view: positions inside
        the view change, any other position is an out-of-bounds panic. */
    method Set(index: nat, x: T) returns (s: Status)
      requires Valid()
      modifies buf.data
      ensures Valid()
      ensures s == (if index < len then Done else Aborted(IndexOutOfBounds))
      ensures Deref() == if s.Done? then old(Deref())[index := x] else old(Deref())
    {
      if index >= len {
        return Aborted(IndexOutOfBounds);
      }
      buf.data[index] := x;
      s := Done;
    }

    /** `push`: grows first only when full, then writes the value into the
        first free slot. */
    method Push(elem: T, allocResult: nat) returns (s: Status)
      requires Valid()
      modifies this, buf, buf.data
      ensures Valid() && Dropped == old(Dropped)
      ensures s == (if old(len) == old(buf.cap) then GrowStatus(old(buf.cap), buf.elem.size, allocResult) else Done)
      ensures Deref() == if s.Done? then old(Deref()) + [elem] else old(Deref())
      ensures buf.cap == if s.Done? && old(len) == old(buf.cap) then NextCap(old(buf.cap), buf.elem.size).value else old(buf.cap)
      ensures buf.data == old(buf.data) || fresh(buf.data)
      ensures s.Done? && old(len) == old(buf.cap) ==> buf.ptr == allocResult && fresh(buf.data)
      ensures !(s.Done? && old(len) == old(buf.cap)) ==> buf.ptr == old(buf.ptr) && buf.data == old(buf.data)
    {
      if len == buf.cap {
        ghost var resized;
        s, resized := buf.Grow(allocResult);
        if !s.Done? {
          return;
        }
      }
      buf.data[len] := elem;
      len := len + 1;
      s := Done;
    }

    /** `pop`: nothing on an empty vector; otherwise the last value, which
        leaves the live range. */
    method Pop() returns (r: Option<T>)
      requires Valid()
      modifies this
      ensures Valid() && Dropped == old(Dropped)
      ensures r.None? <==> old(len) == 0
      ensures r.None? ==> Deref() == old(Deref())
      ensures r.Some? ==> r.value == old(Deref())[old(len) - 1] && Deref() == old(Deref())[..old(len) - 1]
    {
      if len == 0 {
        return None;
      }
      len := len - 1;
      r := Some(buf.data[len]);
    }

    /** `insert`: an index past the end aborts before anything changes;
        otherwise grows first only when full, moves the tail up one slot and
        writes the value into the gap. */
    method Insert(index: nat, elem: T, allocResult: nat) returns (s: Status)
      requires Valid()
      modifies this, buf, buf.data
      ensures Valid() && Dropped == old(Dropped)
      ensures s == (if index > old(len) then Aborted(IndexOutOfBounds)
                    else if old(len) == old(buf.cap) then GrowStatus(old(buf.cap), buf.elem.size, allocResult)
                    else Done)
      ensures Deref() == if s.Done? then old(Deref())[..index] + [elem] + old(Deref())[index..] else old(Deref())
      ensures buf.cap == if s.Done? && old(len) == old(buf.cap) then NextCap(old(buf.cap), buf.elem.size).value else old(buf.cap)
      ensures buf.data == old(buf.data) || fresh(buf.data)
      ensures s.Done? && old(len) == old(buf.cap) ==> buf.ptr == allocResult && fresh(buf.data)
      ensures !(s.Done? && old(len) == old(buf.cap)) ==> buf.ptr == old(buf.ptr) && buf.data == old(buf.data)
    {
      if index > len {
        return Aborted(IndexOutOfBounds);
      }
      ghost var view := Deref();
      if len == buf.cap {
        ghost var resized;
        s, resized := buf.Grow(allocResult);
        if !s.Done? {
          return;
        }
        assert buf.data[..len] == view;
      }
      OpenGapAndWrite(index, elem);
      len := len + 1;
      s := Done;
    }

    /** The unsafe block of `insert`: with a free slot after the live ones,
        moves the values from `index` on up one slot (when there are any) and
        writes `elem` into the gap. */
    method OpenGapAndWrite(index: nat, elem: T)
      requires Valid() && index <= len < buf.cap
      modifies buf.data
      ensures buf.data[..len + 1] == old(Deref())[..index] + [elem] + old(Deref())[index..]
    {
      ghost var before := buf.data[..];
      assert before[..index] == Deref()[..index] && before[index..len] == Deref()[index..];
      if index < len {
        Copy(buf.data, index, index + 1, len - index);
      }
      buf.data[index] := elem;
      InsertShift(before, len, index, elem);
    }

    /** `remove`, with the bounds check `index < len`: an index outside the
        live range aborts before anything changes; otherwise the value at
        `index` is returned and the values after it move down one slot. */
    method Remove(index: nat) returns (r: Result<T>)
      requires Valid()
      modifies this, buf.data
      ensures Valid() && Dropped == old(Dropped)
      ensures r == (if index < old(len) then Ok(old(Deref())[index]) else Err(IndexOutOfBounds))
      ensures Deref() == if r.Ok? then old(Deref())[..index] + old(Deref())[index + 1..] else old(Deref())
    {
      if index >= len {
        return Err(IndexOutOfBounds);
      }
      var result := buf.data[index];
      CloseGap(index);
      len := len - 1;
      r := Ok(result);
    }

    /** The unsafe block of `remove` after the read: moves the values after
        `index` down one slot, over the one taken. */
    method CloseGap(index: nat)
      requires Valid() && index < len
      modifies buf.data
      ensures buf.data[..len - 1] == old(Deref())[..index] + old(Deref())[index + 1..]
    {
      ghost var before := buf.data[..];
      assert before[..index] == Deref()[..index] && before[index + 1..len] == Deref()[index + 1..];
      var p := RemovePlanFixed(len, index);
      Copy(buf.data, p.src, p.dst, p.count);
      RemoveShift(before, len, index);
    }

    /** `into_iter`: the buffer moves to the new iterator together with a
        cursor over the live values, and the vector is forgotten, so that
        neither its values nor its buffer are dropped by it. */
    method IntoIter() returns (it: IntoIter<T>)
      requires Valid()
      modifies this
      ensures !Live && Dropped == old(Dropped)
      ensures fresh(it) && fresh(it.iter) && it.Valid() && it.buf == buf
      ensures it.iter.Original == old(Deref()) && it.iter.Remaining() == old(Deref())
      ensures it.iter.Front == [] && it.iter.Back == []
    {
      var iter := new RawValIter(buf.data, buf.ptr, buf.elem.size, len);
      it := new IntoIter(buf, iter);
      Live := false;
    }

    /** `drain`: a cursor over the live values, after which the vector is
        empty; its buffer, capacity and slot contents are untouched, so it can
        be pushed to again. */
    method Drain() returns (d: Drain<T>)
      requires Valid()
      modifies this
      ensures Valid() && Deref() == [] && Dropped == old(Dropped)
      ensures unchanged(buf) && unchanged(buf.data)
      ensures fresh(d) && fresh(d.iter) && d.Valid() && d.iter.mem == buf.data
      ensures d.iter.Original == old(Deref()) && d.iter.Remaining() == old(Deref())
      ensures d.iter.Front == [] && d.iter.Back == []
    {
      var iter := new RawValIter(buf.data, buf.ptr, buf.elem.size, len);
      len := 0;
      d := new Drain(iter);
    }

    /** `drop`: when the capacity is non-zero, pops until empty, dropping
        each value exactly once (last first); then the buffer releases its
        allocation. A zero capacity means no values, so none is missed. */
    method Dispose() returns (freed: Option<Layout>)
      requires Valid()
      modifies this, buf
      ensures !Live && buf.Released
      ensures Dropped == old(Dropped) + Reverse(old(Deref()))
      ensures multiset(Dropped) == multiset(old(Dropped)) + multiset(old(Deref()))
      ensures freed == old(buf.Allocation)
    {
      ghost var before := Deref();
      if buf.cap != 0 {
        while true
          invariant Valid() && unchanged(buf)
          invariant Dropped + Reverse(Deref()) == old(Dropped) + Reverse(old(Deref()))
          decreases len
        {
          ghost var live := Deref();
          var x := Pop();
          if x.None? {
            break;
          }
          assert live[..|live| - 1] == Deref();
          Dropped := Dropped + [x.value];
        }
      }
      ReverseMultiset(before);
      freed := buf.Release();
      Live := false;
    }
  }

  /** What `into_iter` returns: it owns the vector's former buffer, only so
      as to release it, and a cursor over the vector's former values. */
  class IntoIter<T(0)> {
    const buf: RawVec<T>
    const iter: RawValIter<T>
    /** Values taken, and so dropped, by `drop`, in the order taken. */
    ghost var Dropped: seq<T>
    /** Set once the iterator has been dropped. */
    ghost var Disposed: bool

    ghost predicate Valid()
      reads this, buf, iter, iter.mem
    {
      && buf.Valid() && iter.Valid() && !Disposed
      && iter.mem == buf.data && iter.base == buf.ptr && iter.size == buf.elem.size
    }

    constructor (buf: RawVec<T>, iter: RawValIter<T>)
      requires buf.Valid() && iter.Valid()
      requires iter.mem == buf.data && iter.base == buf.ptr && iter.size == buf.elem.size
      ensures Valid() && this.buf == buf && this.iter == iter && Dropped == []
    {
      this.buf := buf;
      this.iter := iter;
      Dropped, Disposed := [], false;
    }

    /** `next`: exactly what the cursor's `next` returns. */
    method Next() returns (r: Option<T>)
      requires Valid()
      modifies iter
      ensures Valid()
      ensures r.None? <==> old(iter.Remaining()) == []
      ensures r.None? ==> iter.Remaining() == old(iter.Remaining()) && iter.Front == old(iter.Front)
      ensures r.Some? ==>
                && r.value == old(iter.Remaining())[0]
                && iter.Remaining() == old(iter.Remaining())[1..]
                && iter.Front == old(iter.Front) + [r.value]
      ensures iter.Back == old(iter.Back) && iter.Original == old(iter.Original)
      ensures r.None? <==> old(iter.start) == old(iter.end)
      ensures iter.end == old(iter.end)
      ensures iter.start == if r.Some? then old(iter.start) + Step(iter.size) else old(iter.start)
    {
      r := iter.Next();
    }

    /** `next_back`: exactly what the cursor's `next_back` returns. */
    method NextBack() returns (r: Option<T>)
      requires Valid()
      modifies iter
      ensures Valid()
      ensures r.None? <==> old(iter.Remaining()) == []
      ensures r.None? ==> iter.Remaining() == old(iter.Remaining()) && iter.Back == old(iter.Back)
      ensures r.Some? ==>
                && r.value == old(iter.Remaining())[|old(iter.Remaining())| - 1]
                && iter.Remaining() == old(iter.Remaining())[..|old(iter.Remaining())| - 1]
                && iter.Back == [r.value] + old(iter.Back)
      ensures iter.Front == old(iter.Front) && iter.Original == old(iter.Original)
      ensures r.None? <==> old(iter.start) == old(iter.end)
      ensures iter.start == old(iter.start)
      ensures iter.end == if r.Some? then old(iter.end) - Step(iter.size) else old(iter.end)
    {
      r := iter.NextBack();
    }

    /** `size_hint`: the cursor's exact count. */
    function SizeHint(): (h: (nat, Option<nat>))
      reads this, buf, iter, iter.mem
      requires Valid()
      ensures h.0 == |iter.Remaining()| && h.1 == Some(h.0)
    {
      iter.SizeHint()
    }

    /** `drop`: takes values from the front until the cursor is empty, so
        every value handed over was yielded or dropped exactly once, then
        releases the buffer it took over. */
    method Dispose() returns (freed: Option<Layout>)
      requires Valid()
      modifies this, iter, buf
      ensures Disposed && iter.Valid() && iter.Remaining() == [] && buf.Released
      ensures Dropped == old(iter.Remaining())
      ensures iter.Original == old(iter.Original) && iter.Back == old(iter.Back)
      ensures iter.start == iter.end == old(iter.end)
      ensures iter.Original == old(iter.Front) + Dropped + iter.Back
      ensures freed == old(buf.Allocation)
    {
      Dropped := iter.Exhaust();
      freed := buf.Release();
      Disposed := true;
    }
  }
}
