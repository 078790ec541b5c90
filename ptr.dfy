/** The raw-memory moves the container is built on, as array updates:
    `ptr::copy` (overlapping move inside one buffer) and `ptr::copy_nonoverlapping`
    (between two buffers, or from a slice into a buffer). */
module Ptr {

  /** The buffer `s` after `ptr::copy(src, dst, count)`: the `count` slots from `dst`
      hold what the `count` slots from `src` held, every other slot is unchanged. */
  function Moved<T>(s: seq<T>, src: nat, dst: nat, count: nat): (r: seq<T>)
    requires src + count <= |s| && dst + count <= |s|
    ensures |r| == |s|
  {
    s[..dst] + s[src..src + count] + s[dst + count..]
  }

  /** What a copy does slot by slot. */
  lemma MovedAt<T>(s: seq<T>, src: nat, dst: nat, count: nat, k: nat)
    requires src + count <= |s| && dst + count <= |s| && k < |s|
    ensures Moved(s, src, dst, count)[k] == if dst <= k < dst + count then s[k - dst + src] else s[k]
  {
  }

  /** What a copy does to the three parts of the buffer: before the destination, the
      destination, and after it. */
  lemma MovedParts<T>(s: seq<T>, src: nat, dst: nat, count: nat)
    requires src + count <= |s| && dst + count <= |s|
    ensures Moved(s, src, dst, count)[..dst] == s[..dst]
    ensures Moved(s, src, dst, count)[dst..dst + count] == s[src..src + count]
    ensures Moved(s, src, dst, count)[dst + count..] == s[dst + count..]
  {
  }

  /** `ptr::copy(src, dst, count)` inside one buffer: whichever way the two ranges
      overlap, the buffer afterwards is `Moved` of the buffer before. */
  method Copy<T>(a: array<T>, src: nat, dst: nat, count: nat)
    requires src + count <= a.Length && dst + count <= a.Length
    modifies a
    ensures a[..] == Moved(old(a[..]), src, dst, count)
  {
    ghost var before := a[..];
    if dst <= src {
      CopyDown(a, src, dst, count, before);
    } else {
      CopyUp(a, src, dst, count, before);
    }
    forall k | 0 <= k < a.Length
      ensures a[..][k] == Moved(before, src, dst, count)[k]
    {
      MovedAt(before, src, dst, count, k);
    }
  }

  /** The moving-down case of `Copy`: front to back, so no source slot is overwritten
      before it is read. */
  method CopyDown<T>(a: array<T>, src: nat, dst: nat, count: nat, ghost before: seq<T>)
    requires dst <= src && src + count <= a.Length && a[..] == before
    modifies a
    ensures forall k :: dst <= k < dst + count ==> a[k] == before[k - dst + src]
    ensures forall k :: 0 <= k < a.Length && !(dst <= k < dst + count) ==> a[k] == before[k]
  {
    var i := 0;
    while i < count
      invariant 0 <= i <= count && |before| == a.Length
      invariant forall k :: dst <= k < dst + i ==> a[k] == before[k - dst + src]
      invariant forall k :: 0 <= k < a.Length && !(dst <= k < dst + i) ==> a[k] == before[k]
    {
      a[dst + i] := a[src + i];
      i := i + 1;
    }
  }

  /** The moving-up case of `Copy`: back to front, for the same reason. */
  method CopyUp<T>(a: array<T>, src: nat, dst: nat, count: nat, ghost before: seq<T>)
    requires src < dst && dst + count <= a.Length && a[..] == before
    modifies a
    ensures forall k :: dst <= k < dst + count ==> a[k] == before[k - dst + src]
    ensures forall k :: 0 <= k < a.Length && !(dst <= k < dst + count) ==> a[k] == before[k]
  {
    var i := count;
    while i > 0
      invariant 0 <= i <= count && |before| == a.Length
      invariant forall k :: dst + i <= k < dst + count ==> a[k] == before[k - dst + src]
      invariant forall k :: 0 <= k < a.Length && !(dst + i <= k < dst + count) ==> a[k] == before[k]
    {
      i := i - 1;
      a[dst + i] := a[src + i];
    }
  }

  /** `ptr::copy_nonoverlapping` from one buffer into another. */
  method CopyNonoverlapping<T>(src: array<T>, srcOff: nat, dst: array<T>, dstOff: nat, count: nat)
    requires src != dst
    requires srcOff + count <= src.Length && dstOff + count <= dst.Length
    modifies dst
    ensures dst[dstOff..dstOff + count] == src[srcOff..srcOff + count]
    ensures dst[..dstOff] == old(dst[..dstOff])
    ensures dst[dstOff + count..] == old(dst[dstOff + count..])
  {
    forall k | 0 <= k < count {
      dst[dstOff + k] := src[srcOff + k];
    }
  }

  /** `ptr::copy_nonoverlapping` from a borrowed slice into a buffer. */
  method CopyFromSlice<T>(src: seq<T>, dst: array<T>, dstOff: nat)
    requires dstOff + |src| <= dst.Length
    modifies dst
    ensures dst[dstOff..dstOff + |src|] == src
    ensures dst[..dstOff] == old(dst[..dstOff])
    ensures dst[dstOff + |src|..] == old(dst[dstOff + |src|..])
  {
    forall k | 0 <= k < |src| {
      dst[dstOff + k] := src[k];
    }
  }
}
