/** The one raw-memory primitive the vector uses that does more than a single
    slot read or write: an overlapping block move of `count` slots from `src`
    to `dst` within one buffer (`ptr::copy`, i.e. memmove). */
module Ptr {

  /** The buffer after moving slots `[src, src + count)` to `[dst, dst + count)`. */
  function Moved<T>(s: seq<T>, src: nat, dst: nat, count: nat): (r: seq<T>)
    requires src + count <= |s| && dst + count <= |s|
    ensures |r| == |s|
    ensures r[dst..dst + count] == s[src..src + count]
    ensures r[..dst] == s[..dst] && r[dst + count..] == s[dst + count..]
  {
    seq(|s|, k requires 0 <= k < |s| => if dst <= k < dst + count then s[k - dst + src] else s[k])
  }

  /** Block move that tolerates overlap: it copies front to back when the
      destination lies below the source and back to front otherwise, so no
      source slot is overwritten before it has been read. */
  method Copy<T>(a: array<T>, src: nat, dst: nat, count: nat)
    requires src + count <= a.Length && dst + count <= a.Length
    modifies a
    ensures a[..] == Moved(old(a[..]), src, dst, count)
  {
    if dst <= src {
      CopyForward(a, src, dst, count);
    } else {
      CopyBackward(a, src, dst, count);
    }
  }

  /** Moving one more slot at the top of the range is one more write, of a
      slot that a forward move has not overwritten yet. */
  lemma MovedExtendTop<T>(s: seq<T>, src: nat, dst: nat, count: nat)
    requires src + count < |s| && dst + count < |s|
    ensures Moved(s, src, dst, count + 1) == Moved(s, src, dst, count)[dst + count := s[src + count]]
    ensures dst <= src ==> Moved(s, src, dst, count)[src + count] == s[src + count]
  {
    var a, b := Moved(s, src, dst, count + 1), Moved(s, src, dst, count)[dst + count := s[src + count]];
    assert forall k | 0 <= k < |s| :: a[k] == b[k];
  }

  /** Moving one more slot at the bottom of the range is one more write, of
      a slot that a backward move has not overwritten yet. */
  lemma MovedExtendBottom<T>(s: seq<T>, src: nat, dst: nat, count: nat)
    requires 1 <= src && 1 <= dst && src + count <= |s| && dst + count <= |s|
    ensures Moved(s, src - 1, dst - 1, count + 1) == Moved(s, src, dst, count)[dst - 1 := s[src - 1]]
    ensures src <= dst ==> Moved(s, src, dst, count)[src - 1] == s[src - 1]
  {
    var a, b := Moved(s, src - 1, dst - 1, count + 1), Moved(s, src, dst, count)[dst - 1 := s[src - 1]];
    assert forall k | 0 <= k < |s| :: a[k] == b[k];
  }

  /** The front-to-back half of `Copy`: safe when `dst <= src`, because slot
      `src + i` is read before any write reaches it. */
  method CopyForward<T>(a: array<T>, src: nat, dst: nat, count: nat)
    requires src + count <= a.Length && dst + count <= a.Length && dst <= src
    modifies a
    ensures a[..] == Moved(old(a[..]), src, dst, count)
  {
    ghost var s := a[..];
    var i := 0;
    assert a[..] == Moved(s, src, dst, 0);
    while i < count
      invariant 0 <= i <= count
      invariant a[..] == Moved(s, src, dst, i)
    {
      MovedExtendTop(s, src, dst, i);
      ghost var done := a[..];
      a[dst + i] := a[src + i];
      assert a[..] == done[dst + i := s[src + i]];
      i := i + 1;
    }
  }

  /** The back-to-front half of `Copy`: safe when `dst > src`, because slot
      `src + i` is read before any write reaches it. */
  method CopyBackward<T>(a: array<T>, src: nat, dst: nat, count: nat)
    requires src + count <= a.Length && dst + count <= a.Length && dst > src
    modifies a
    ensures a[..] == Moved(old(a[..]), src, dst, count)
  {
    ghost var s := a[..];
    var from, to, n := src + count, dst + count, 0;
    assert a[..] == Moved(s, from, to, 0);
    while n < count
      invariant n <= count && from == src + count - n && to == dst + count - n
      invariant a[..] == Moved(s, from, to, n)
    {
      MovedExtendBottom(s, from, to, n);
      ghost var done := a[..];
      a[to - 1] := a[from - 1];
      assert a[..] == done[to - 1 := s[from - 1]];
      from, to, n := from - 1, to - 1, n + 1;
    }
    assert from == src && to == dst && n == count;
  }
}
