/** The raw value cursor (src/raw_val_iter.rs): two byte addresses bounding
    the slots whose values have not been taken yet. It reads memory it does
    not own, from either end. */
module RawValIters {
  import opened Common

  /** Distance in bytes between neighbouring slots as the cursor counts it:
      the element size, or one byte for a zero-sized element, so that the two
      ends of a non-empty range of zero-sized values stay apart. */
  function Step(size: nat): (s: nat)
    ensures s >= 1 && (size != 0 ==> s == size)
  {
    if size == 0 then 1 else size
  }

  /** The end address `RawValIter::new` computes for a slice of `len` slots
      at `base`: its three branches agree with one uniform rule, `len` steps
      past `base`; in particular an empty slice ends where it starts. */
  function EndAddress(base: nat, len: nat, size: nat): (e: nat)
    ensures e == base + len * Step(size)
    ensures e == base <==> len == 0
  {
    if size == 0 then base + len
    else if len == 0 then base
    else base + len * size
  }

  /** Sign of a product with a positive factor. */
  lemma MulSign(a: int, s: int)
    requires s >= 1
    ensures a >= 1 ==> a * s >= s
    ensures a <= -1 ==> a * s <= -s
  {
  }

  lemma MulDivCancel(n: nat, s: nat)
    requires s >= 1
    ensures n * s / s == n
  {
    var m := n * s;
    var q, r := m / s, m % s;
    assert m == q * s + r && 0 <= r < s;
    assert (n - q) * s == r by { assert (n - q) * s == n * s - q * s; }
    MulSign(n - q, s);
  }

  lemma MulSubDistrib(a: int, b: int, s: int)
    ensures a * s - b * s == (a - b) * s
  {
  }

  /** `size_hint`'s division counts slots: between the addresses of slots
      `lo` and `hi` lie exactly `hi - lo` steps. */
  lemma SlotsBetween(base: nat, lo: nat, hi: nat, size: nat)
    requires lo <= hi
    ensures SlotAddress(base, lo, size) <= SlotAddress(base, hi, size)
    ensures (SlotAddress(base, hi, size) - SlotAddress(base, lo, size)) / Step(size) == hi - lo
  {
    SlotAddressIsProduct(base, lo, size);
    SlotAddressIsProduct(base, hi, size);
    var s := Step(size);
    MulSubDistrib(hi, lo, s);
    MulDivCancel(hi - lo, s);
  }

  /** Address of slot `i` of memory starting at `base`: `i` steps past it. */
  function SlotAddress(base: nat, i: nat, size: nat): nat
  {
    if i == 0 then base else SlotAddress(base, i - 1, size) + Step(size)
  }

  lemma {:induction false} SlotAddressIsProduct(base: nat, i: nat, size: nat)
    ensures SlotAddress(base, i, size) == base + i * Step(size)
  {
    if i > 0 {
      SlotAddressIsProduct(base, i - 1, size);
      assert (i - 1) * Step(size) + Step(size) == i * Step(size);
    }
  }

  /** The slot after slot `i` lies one step further on. */
  lemma SlotAddressNext(base: nat, i: nat, size: nat)
    ensures SlotAddress(base, i + 1, size) == SlotAddress(base, i, size) + Step(size)
  {
  }

  /** Distinct slots have distinct addresses. */
  lemma SlotAddressInjective(base: nat, i: nat, j: nat, size: nat)
    requires SlotAddress(base, i, size) == SlotAddress(base, j, size)
    ensures i == j
  {
    SlotAddressIsProduct(base, i, size);
    SlotAddressIsProduct(base, j, size);
    var s := Step(size);
    MulSubDistrib(i, j, s);
    MulSign(i - j, s);
  }

  /** Two ways of splitting one sequence that agree on the outer parts
      agree on the middle. */
  lemma SameFrameSameMiddle<T>(front: seq<T>, m1: seq<T>, m2: seq<T>, back: seq<T>, whole: seq<T>)
    requires whole == front + m1 + back && whole == front + m2 + back
    ensures m1 == m2
  {
    assert m1 == whole[|front|..|whole| - |back|];
  }

  /** The slot an address names, as `ptr::read` at that address sees it:
      the number of steps it lies past `base`. */
  function SlotIndex(base: nat, addr: nat, size: nat, ghost i: nat): (k: nat)
    requires addr == SlotAddress(base, i, size)
    ensures k == i
  {
    SlotsBetween(base, 0, i, size);
    (addr - base) / Step(size)
  }

  class RawValIter<T> {
    /** The memory the cursor reads; it belongs to someone else. */
    const mem: array<T>
    /** Address of `mem[0]`. */
    const base: nat
    /** `size_of::<T>()`. */
    const size: nat
    /** Address of the next slot `next` takes. */
    var start: nat
    /** Address just past the next slot `next_back` takes. */
    var end: nat
    /** Slot indices of `start` and `end`. */
    ghost var lo: nat
    ghost var hi: nat
    /** The values the cursor was created over. */
    ghost var Original: seq<T>
    /** Values taken by `next`, in the order taken. */
    ghost var Front: seq<T>
    /** Values taken by `next_back`, in memory order: the last one taken first. */
    ghost var Back: seq<T>

    ghost predicate Valid()
      reads this, mem
    {
      && lo <= hi <= mem.Length
      && start == SlotAddress(base, lo, size)
      && end == SlotAddress(base, hi, size)
      && Original == Front + mem[lo..hi] + Back
    }

    /** The values still to be taken, front first. */
    ghost function Remaining(): seq<T>
      reads this, mem
      requires Valid()
    {
      mem[lo..hi]
    }

    /** `RawValIter::new` over the slice of the first `len` slots of `mem`,
        which starts at address `base`. */
    constructor (mem: array<T>, base: nat, size: nat, len: nat)
      requires len <= mem.Length
      ensures Valid() && this.mem == mem && this.base == base && this.size == size
      ensures start == base && end == EndAddress(base, len, size)
      ensures Original == mem[..len] && Remaining() == mem[..len] && Front == [] && Back == []
    {
      this.mem := mem;
      this.base := base;
      this.size := size;
      start := base;
      end := EndAddress(base, len, size);
      lo, hi := 0, len;
      SlotAddressIsProduct(base, len, size);
      Original, Front, Back := mem[..len], [], [];
    }

    /** `next`: nothing when the range is empty; otherwise the value at
        `start`, which moves one step forward. */
    method Next() returns (r: Option<T>)
      requires Valid()
      modifies this
      ensures Valid() && Original == old(Original) && Back == old(Back) && end == old(end)
      ensures r.None? <==> old(start) == old(end)
      ensures r.None? <==> old(Remaining()) == []
      ensures r.None? ==> start == old(start) && Remaining() == old(Remaining()) && Front == old(Front)
      ensures r.Some? ==>
                && r.value == old(Remaining())[0]
                && Remaining() == old(Remaining())[1..]
                && Front == old(Front) + [r.value]
                && start == old(start) + Step(size)
    {
      if start == end {
        SlotAddressInjective(base, lo, hi, size);
        return None;
      }
      ghost var rem := mem[lo..hi];
      var result := mem[SlotIndex(base, start, size, lo)];
      SlotAddressNext(base, lo, size);
      if size == 0 {
        start := start + 1;
      } else {
        start := start + size;
      }
      assert rem == [result] + mem[lo + 1..hi];
      lo := lo + 1;
      Front := Front + [result];
      assert Original == Front + mem[lo..hi] + Back;
      r := Some(result);
    }

    /** `next_back`: nothing when the range is empty; otherwise `end` moves
        one step back and the value there is taken. */
    method NextBack() returns (r: Option<T>)
      requires Valid()
      modifies this
      ensures Valid() && Original == old(Original) && Front == old(Front) && start == old(start)
      ensures r.None? <==> old(start) == old(end)
      ensures r.None? <==> old(Remaining()) == []
      ensures r.None? ==> end == old(end) && Remaining() == old(Remaining()) && Back == old(Back)
      ensures r.Some? ==>
                && r.value == old(Remaining())[|old(Remaining())| - 1]
                && Remaining() == old(Remaining())[..|old(Remaining())| - 1]
                && Back == [r.value] + old(Back)
                && end == old(end) - Step(size)
    {
      if start == end {
        SlotAddressInjective(base, lo, hi, size);
        return None;
      }
      ghost var rem := mem[lo..hi];
      if size == 0 {
        end := end - 1;
      } else {
        end := end - size;
      }
      var result := mem[SlotIndex(base, end, size, hi - 1)];
      assert rem == mem[lo..hi - 1] + [result];
      hi := hi - 1;
      Back := [result] + Back;
      assert Original == Front + mem[lo..hi] + Back;
      r := Some(result);
    }

    /** The loop `for _ in &mut iter {}` that both iterators' `drop` runs:
        takes values from the front until none is left and drops them. */
    method Exhaust() returns (ghost dropped: seq<T>)
      requires Valid()
      modifies this
      ensures Valid() && Remaining() == [] && dropped == old(Remaining())
      ensures Front == old(Front) + dropped && Back == old(Back) && Original == old(Original)
      ensures start == end == old(end)
    {
      dropped := [];
      while true
        invariant Valid() && Original == old(Original) && Back == old(Back) && end == old(end)
        invariant Front == old(Front) + dropped
        decreases |Remaining()|
      {
        var x := Next();
        if x.None? {
          break;
        }
        dropped := dropped + [x.value];
      }
      SameFrameSameMiddle(old(Front), dropped, old(Remaining()), Back, Original);
    }

    /** `size_hint`: exact, both bounds equal to the number of values left. */
    function SizeHint(): (h: (nat, Option<nat>))
      reads this, mem
      requires Valid()
      ensures h.0 == |Remaining()| && h.1 == Some(h.0)
    {
      SlotsBetween(base, lo, hi, size);
      var n := (end - start) / Step(size);
      (n, Some(n))
    }
  }
}
