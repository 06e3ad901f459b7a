/** The unit tests of src/main.rs, and the worked example of the vector's
    behaviour, as client code of the model: each method states as its
    postcondition what the test asserts. Every allocation request is answered
    with the non-null address `addr`. */
module VecScenarios {
  import opened Common
  import opened RawVecs
  import opened RawValIters
  import opened Drains
  import opened MyVecs

  /** Layouts of the element types the tests use on a 64-bit target. */
  const I32: Layout := Layout(4, 4)
  const BOXED: Layout := Layout(8, 8)
  const UNIT: Layout := Layout(0, 1)

  /** The tests' `for i in 0..n { v.push(...) }` over an empty vector of
      small elements: every push succeeds, because the capacity never
      exceeds twice the length and so never comes near `isize::MAX` bytes. */
  method PushAll<T(0)>(v: MyVec<T>, values: seq<T>, addr: nat)
    requires v.Valid() && v.Deref() == [] && addr != 0 && |values| <= 10
    requires v.buf.elem.size <= 8 && (v.buf.elem.size != 0 ==> v.buf.cap == 0)
    modifies v, v.buf, v.buf.data
    ensures v.Valid() && v.Deref() == values && v.Dropped == old(v.Dropped)
    ensures v.buf.data == old(v.buf.data) || fresh(v.buf.data)
    ensures v.buf.elem.size == 0 ==> v.buf.cap == old(v.buf.cap)
  {
    var i := 0;
    while i < |values|
      invariant 0 <= i <= |values| && v.Valid() && v.Dropped == old(v.Dropped)
      invariant v.Deref() == values[..i]
      invariant v.buf.data == old(v.buf.data) || fresh(v.buf.data)
      invariant v.buf.elem.size == 0 ==> v.buf.cap == old(v.buf.cap)
      invariant v.buf.elem.size != 0 ==> v.buf.cap <= 2 * i
    {
      SmallProduct(v.buf.cap, v.buf.elem.size);
      var s := v.Push(values[i], addr);
      assert s.Done?;
      assert values[..i + 1] == values[..i] + [values[i]];
      i := i + 1;
    }
    assert values[..i] == values;
  }

  lemma SmallProduct(a: nat, b: nat)
    requires (a <= 20 || b == 0) && b <= 8
    ensures a * b <= 160
  {
  }

  /** `for i in v.iter_mut() { *i += 1 }`: every value goes up by one, in
      place, through the mutable view. */
  method AddOneToEach(v: MyVec<int>)
    requires v.Valid()
    modifies v.buf.data
    ensures v.Valid() && |v.Deref()| == |old(v.Deref())|
    ensures forall j :: 0 <= j < |v.Deref()| ==> v.Deref()[j] == old(v.Deref())[j] + 1
  {
    ghost var before := v.Deref();
    var k := 0;
    while k < v.len
      invariant 0 <= k <= v.len && v.Valid()
      invariant forall j :: 0 <= j < k ==> v.Deref()[j] == before[j] + 1
      invariant forall j :: k <= j < v.len ==> v.Deref()[j] == before[j]
    {
      var s := v.Set(k, v.Deref()[k] + 1);
      k := k + 1;
    }
  }

  /** `create_push_pop`: push 1, add one to every value through `iter_mut`,
      insert 5 in front, pop the 2, push 10 and remove the 5. */
  method CreatePushPop(addr: nat) returns (popped: Option<int>, removed: Result<int>, len: nat)
    requires addr != 0
    ensures popped == Some(2) && removed == Ok(5) && len == 1
  {
    var v := new MyVec<int>(I32);
    var s := v.Push(1, addr);
    assert v.len == 1 && v.Deref()[0] == 1;
    AddOneToEach(v);
    assert v.Deref() == [2];
    s := v.Insert(0, 5, addr);
    assert v.Deref() == [5, 2];
    popped := v.Pop();
    s := v.Push(10, addr);
    assert v.Deref() == [5, 10];
    removed := v.Remove(0);
    len := v.len;
  }

  /** `iter_test`: ten boxed values, the first taken from the front and the
      last from the back of the consuming iterator, which then drops the
      eight in between and hands back the buffer's block. */
  method IterTest(addr: nat) returns (first: int, last: int, freed: Option<Layout>, ghost dropped: seq<int>)
    requires addr != 0
    ensures first == 0 && last == 9 && dropped == [1, 2, 3, 4, 5, 6, 7, 8]
    ensures freed.Some? && freed.value.align == 8
  {
    var v := new MyVec<int>(BOXED);
    var values := [0, 1, 2, 3, 4, 5, 6, 7, 8, 9];
    PushAll(v, values, addr);
    var it := v.IntoIter();
    var x := it.Next();
    assert it.iter.Remaining() == values[1..];
    var y := it.NextBack();
    assert it.iter.Remaining() == values[1..9];
    first, last := x.value, y.value;
    freed := it.Dispose();
    dropped := it.Dropped;
  }

  /** `test_drain`: ten boxed values drained, the first and last taken, the
      rest dropped with the iterator; the vector is then empty and still
      usable. */
  method DrainTest(addr: nat) returns (first: int, last: int, lenAfter: nat, popped: Option<int>, ghost dropped: seq<int>)
    requires addr != 0
    ensures first == 0 && last == 9 && dropped == [1, 2, 3, 4, 5, 6, 7, 8]
    ensures lenAfter == 0 && popped == Some(1)
  {
    var v := new MyVec<int>(BOXED);
    PushAll(v, [0, 1, 2, 3, 4, 5, 6, 7, 8, 9], addr);
    first, last, dropped := DrainBothEnds(v);
    lenAfter := v.len;
    var s := v.Push(1, addr);
    popped := v.Pop();
  }

  /** The inner block of `test_drain`: a drain of `[0, ..., 9]` yields 0 from
      the front and 9 from the back, and its drop takes 1 to 8; the vector is
      left empty with its buffer untouched. */
  method DrainBothEnds(v: MyVec<int>) returns (first: int, last: int, ghost dropped: seq<int>)
    requires v.Valid() && v.Deref() == [0, 1, 2, 3, 4, 5, 6, 7, 8, 9]
    modifies v
    ensures v.Valid() && v.len == 0 && v.Dropped == old(v.Dropped)
    ensures first == 0 && last == 9 && dropped == [1, 2, 3, 4, 5, 6, 7, 8]
  {
    ghost var values := v.Deref();
    var d := v.Drain();
    var x := d.Next();
    assert x.value == 0 && d.iter.Remaining() == values[1..];
    var y := d.NextBack();
    assert y.value == 9 && d.iter.Remaining() == values[1..9];
    first, last := x.value, y.value;
    d.Dispose();
    dropped := d.Dropped;
  }

  /** `test_zst`: ten zero-sized values, all of which the consuming iterator
      yields; nothing was ever allocated, so nothing is freed. */
  method ZstTest(addr: nat) returns (count: nat, freed: Option<Layout>)
    requires addr != 0
    ensures count == 10 && freed == None
  {
    var v := new MyVec<()>(UNIT);
    PushAll(v, seq(10, _ => ()), addr);
    var it := v.IntoIter();
    count := 0;
    while true
      invariant it.Valid() && count + |it.iter.Remaining()| == 10
      invariant it.buf.cap == USIZE_MAX && it.buf.elem.size == 0
      decreases |it.iter.Remaining()|
    {
      var x := it.Next();
      if x.None? {
        break;
      }
      count := count + 1;
    }
    freed := it.Dispose();
  }

  /** The worked example: push 1, 2, 3; remove at 1 yields 2; insert 9 at 1;
      pop yields 3, leaving [1, 9]. */
  method WorkedExample(addr: nat) returns (removed: Result<int>, popped: Option<int>, contents: seq<int>)
    requires addr != 0
    ensures removed == Ok(2) && popped == Some(3) && contents == [1, 9]
  {
    var v := new MyVec<int>(I32);
    PushAll(v, [1, 2, 3], addr);
    removed := v.Remove(1);
    assert v.Deref() == [1, 3];
    var s := v.Insert(1, 9, addr);
    assert v.Deref() == [1, 9, 3];
    popped := v.Pop();
    contents := v.Deref();
  }
}
