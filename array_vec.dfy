/** `ArrayVec<T, N>`: a vector of at most N elements kept in N inline storage slots, of
    which only the prefix `[0, len)` is live. The capacity N is the length of `data`. */
module ArrayVecs {
  import opened Wrappers
  import opened Sequences
  import Ptr

  class ArrayVec<T(0)> {
    /** The N storage slots. Slots at or past `len` are not live: their values mean nothing. */
    const data: array<T>
    var len: nat
    /** Every element the container has destroyed, in the order it destroyed them. */
    ghost var Dropped: seq<T>

    ghost predicate Valid()
      reads this
    {
      len <= data.Length
    }

    /** `capacity`: N, the number of storage slots, fixed for the life of the container. */
    function Capacity(): (r: nat)
      ensures r == data.Length
    {
      data.Length
    }

    /** `as_slice`: the live elements. Every operation below is specified by what it does
        to this sequence. */
    function AsSlice(): (s: seq<T>)
      reads this, data
      requires Valid()
      ensures |s| == len <= Capacity()
    {
      data[..len]
    }

    /** `is_empty` */
    function IsEmpty(): (r: bool)
      reads this, data
      requires Valid()
      ensures r <==> AsSlice() == []
    {
      len == 0
    }

    /** `remaining_capacity`: the free slots. */
    function RemainingCapacity(): (r: nat)
      reads this
      requires Valid()
      ensures len + r == Capacity()
    {
      data.Length - len
    }

    /** `new`: empty, with uninitialised storage. */
    constructor New(n: nat)
      ensures Valid() && fresh(data) && Capacity() == n
      ensures AsSlice() == [] && Dropped == []
    {
      data := new T[n];
      len := 0;
      Dropped := [];
    }

    /** `from_array`: every slot of the array is live. */
    constructor FromArray(arr: seq<T>)
      ensures Valid() && fresh(data) && Capacity() == |arr|
      ensures AsSlice() == arr && Dropped == []
    {
      data := new T[|arr|](i requires 0 <= i < |arr| => arr[i]);
      len := |arr|;
      Dropped := [];
    }

    /** `from_array_and_len`: the first `n` slots are live, `n` clamped to the capacity. */
    constructor FromArrayAndLen(arr: seq<T>, n: nat)
      ensures Valid() && fresh(data) && Capacity() == |arr|
      ensures len == Min(n, |arr|) && AsSlice() == arr[..len] && Dropped == []
    {
      data := new T[|arr|](i requires 0 <= i < |arr| => arr[i]);
      len := if n < |arr| then n else |arr|;
      Dropped := [];
    }

    /** `push`: appends when there is room; otherwise hands the element back untouched. */
    method Push(e: T) returns (r: Result<(), T>)
      requires Valid()
      modifies this, data
      ensures Valid() && Dropped == old(Dropped)
      ensures r == if old(len) < Capacity() then Ok(()) else Err(e)
      ensures AsSlice() == if r.Ok? then old(AsSlice()) + [e] else old(AsSlice())
    {
      var n := len;
      if n >= data.Length {
        return Err(e);
      }
      data[n] := e;
      len := n + 1;
      r := Ok(());
    }

    /** `pop`: removes and returns the last element, or None when empty. */
    method Pop() returns (r: Option<T>)
      requires Valid()
      modifies this
      ensures Valid() && Dropped == old(Dropped)
      ensures old(len) == 0 ==> r == None && AsSlice() == old(AsSlice())
      ensures old(len) > 0 ==>
        r == Some(old(AsSlice())[old(len) - 1]) && AsSlice() == old(AsSlice())[..old(len) - 1]
    {
      if len == 0 {
        return None;
      }
      var n := len - 1;
      len := n;
      r := Some(data[n]);
    }

    /** `insert`: refuses (handing the element back) when `idx > len` or the vector is full;
        otherwise shifts `[idx, len)` up one slot and writes the element at `idx`.
        The source shifts `len - 1` slots instead of `len - idx`; this is the intended
        shift (see Findings.InsertAsWritten for the code as written). */
    method Insert(idx: nat, e: T) returns (r: Result<(), T>)
      requires Valid()
      modifies this, data
      ensures Valid() && Dropped == old(Dropped)
      ensures r == if idx > old(len) || old(len) == Capacity() then Err(e) else Ok(())
      ensures r.Err? ==> AsSlice() == old(AsSlice())
      ensures r.Ok? ==> AsSlice() == Inserted(old(AsSlice()), idx, e)
    {
      var n := len;
      if idx > n || RemainingCapacity() == 0 {
        return Err(e);
      }
      ghost var s, before := AsSlice(), data[..];
      Ptr.Copy(data, idx, idx + 1, n - idx);
      Ptr.MovedParts(before, idx, idx + 1, n - idx);
      data[idx] := e;
      len := n + 1;
      r := Ok(());
      assert data[..idx] == s[..idx];
      assert data[idx + 1..n + 1] == s[idx..];
      assert AsSlice() == data[..idx] + [e] + data[idx + 1..n + 1];
    }

    /** `remove`: None when `idx >= len`; otherwise returns the element and shifts
        `[idx + 1, len)` down one slot. */
    method Remove(idx: nat) returns (r: Option<T>)
      requires Valid()
      modifies this, data
      ensures Valid() && Dropped == old(Dropped)
      ensures idx >= old(len) ==> r == None && AsSlice() == old(AsSlice())
      ensures idx < old(len) ==>
        r == Some(old(AsSlice())[idx]) && AsSlice() == Removed(old(AsSlice()), idx)
    {
      var n := len;
      if idx >= n {
        return None;
      }
      ghost var s := AsSlice();
      var x := data[idx];
      ghost var before := data[..];
      Ptr.Copy(data, idx + 1, idx, n - idx - 1);
      Ptr.MovedParts(before, idx + 1, idx, n - idx - 1);
      len := n - 1;
      r := Some(x);
      assert data[..idx] == s[..idx];
      assert data[idx..n - 1] == s[idx + 1..];
      assert AsSlice() == data[..idx] + data[idx..n - 1];
    }

    /** `swap_remove`: None when `idx >= len`; otherwise returns the element and moves the
        last element into its slot. */
    method SwapRemove(idx: nat) returns (r: Option<T>)
      requires Valid()
      modifies this, data
      ensures Valid() && Dropped == old(Dropped)
      ensures idx >= old(len) ==> r == None && AsSlice() == old(AsSlice())
      ensures idx < old(len) ==>
        r == Some(old(AsSlice())[idx]) && AsSlice() == SwapRemoved(old(AsSlice()), idx)
    {
      var n := len;
      if idx >= n {
        return None;
      }
      var last := data[n - 1];
      len := n - 1;
      var x := data[idx];
      data[idx] := last;
      r := Some(x);
    }

    /** `truncate(k)`: nothing happens when `k >= len`; otherwise the prefix of length `k`
        stays and the `len - k` elements after it are destroyed, each once. */
    method Truncate(k: nat)
      requires Valid()
      modifies this
      ensures Valid()
      ensures k >= old(len) ==> AsSlice() == old(AsSlice()) && Dropped == old(Dropped)
      ensures k < old(len) ==>
        AsSlice() == old(AsSlice())[..k] && Dropped == old(Dropped) + old(AsSlice())[k..]
    {
      if len < k {
        return;
      }
      var remaining := len - k;
      ghost var dead := data[k..k + remaining];
      len := k;
      Dropped := Dropped + dead;
    }

    /** `clear`: `truncate(0)`. */
    method Clear()
      requires Valid()
      modifies this
      ensures Valid() && AsSlice() == []
      ensures Dropped == old(Dropped) + old(AsSlice())
    {
      Truncate(0);
    }

    /** `retain(f)`: keeps the elements satisfying `f` in their order, compacting in place
        with one pass of swaps, then destroys the rest. Every element is kept or destroyed,
        exactly once. */
    method Retain(f: T -> bool)
      requires Valid()
      modifies this, data
      ensures Valid()
      ensures AsSlice() == Filtered(old(AsSlice()), f)
      ensures old(Dropped) <= Dropped
      ensures multiset(AsSlice()) + multiset(Dropped) == multiset(old(AsSlice())) + multiset(old(Dropped))
    {
      var n := len;
      ghost var s, dropped := AsSlice(), Dropped;
      var del := RetainPartition(data, n, f, s);
      ghost var t := data[..n];
      KeptPrefix(t, n - del, s, dropped);
      if del > 0 {
        Truncate(n - del);
      } else {
        assert t[..n] == t && t[n..] == [];
      }
    }

    /** `dedup_by(same)`: an element is removed when `same(it, last kept)`, so each run of
        same-bucket elements collapses to its first; the removed ones are destroyed once. */
    method DedupBy(same: (T, T) -> bool)
      requires Valid()
      modifies this, data
      ensures Valid()
      ensures AsSlice() == Deduped(old(AsSlice()), same)
      ensures old(Dropped) <= Dropped
      ensures multiset(AsSlice()) + multiset(Dropped) == multiset(old(AsSlice())) + multiset(old(Dropped))
    {
      var n := len;
      ghost var s, dropped := AsSlice(), Dropped;
      var kept := PartitionDedup(data, n, same, s);
      ghost var t := data[..n];
      KeptPrefix(t, kept, s, dropped);
      Truncate(kept);
      assert kept == n ==> t[..kept] == t && t[kept..] == [];
    }

    /** `dedup_by_key(key)`: `dedup_by` with "equal keys" as the bucket relation. */
    method DedupByKey<K(==)>(key: T -> K)
      requires Valid()
      modifies this, data
      ensures Valid()
      ensures AsSlice() == Deduped(old(AsSlice()), SameKey(key))
      ensures old(Dropped) <= Dropped
      ensures multiset(AsSlice()) + multiset(Dropped) == multiset(old(AsSlice())) + multiset(old(Dropped))
    {
      DedupBy(SameKey(key));
    }

    /** `extend_from_copyable_slice`: one bulk copy of as much of `other` as fits; the
        refused suffix comes back as the error. */
    method ExtendFromCopyableSlice(other: seq<T>) returns (r: Result<(), seq<T>>)
      requires Valid()
      modifies this, data
      ensures Valid() && Dropped == old(Dropped)
      ensures AsSlice() == Extended(old(AsSlice()), other, Capacity())
      ensures r == if |other| > Capacity() - old(len) then Err(other[Capacity() - old(len)..]) else Ok(())
    {
      var otherLen := |other|;
      var room := RemainingCapacity();
      var selfLen := len;
      if otherLen > room {
        Ptr.CopyFromSlice(other[..room], data, selfLen);
        len := selfLen + room;
        r := Err(other[room..]);
      } else {
        Ptr.CopyFromSlice(other, data, selfLen);
        len := selfLen + otherLen;
        r := Ok(());
      }
    }

    /** `extend_from_cloneable_slice`: pushes a clone of each item of `other` that fits; the
        refused suffix comes back as the error. */
    method ExtendFromCloneableSlice(other: seq<T>) returns (r: Result<(), seq<T>>)
      requires Valid()
      modifies this, data
      ensures Valid() && Dropped == old(Dropped)
      ensures AsSlice() == Extended(old(AsSlice()), other, Capacity())
      ensures r == if |other| > Capacity() - old(len) then Err(other[Capacity() - old(len)..]) else Ok(())
    {
      var room := RemainingCapacity();
      if |other| > room {
        PushAll(other[..room]);
        r := Err(other[room..]);
      } else {
        PushAll(other);
        r := Ok(());
      }
    }

    /** `Extend::extend`: pushes the items of the iterator, taking no more than the free
        room; returns the items the iterator still holds. */
    method Extend(items: seq<T>) returns (rest: seq<T>)
      requires Valid()
      modifies this, data
      ensures Valid() && Dropped == old(Dropped)
      ensures AsSlice() == Extended(old(AsSlice()), items, Capacity())
      ensures rest == items[Min(|items|, Capacity() - old(len))..]
      ensures old(AsSlice()) + items == AsSlice() + rest
    {
      var room := RemainingCapacity();
      var taken := Min(|items|, room);
      PushAll(items[..taken]);
      rest := items[taken..];
      assert items == items[..taken] + items[taken..];
    }

    /** The loop shared by the two cloning appends, which pushes each item in turn and
        ignores the result, for items that are known to fit. */
    method PushAll(items: seq<T>)
      requires Valid() && len + |items| <= Capacity()
      modifies this, data
      ensures Valid() && Dropped == old(Dropped)
      ensures AsSlice() == old(AsSlice()) + items
    {
      for i := 0 to |items|
        invariant Valid() && Dropped == old(Dropped)
        invariant AsSlice() == old(AsSlice()) + items[..i]
      {
        var pushed := Push(items[i]);
        assert items[..i + 1] == items[..i] + [items[i]];
      }
      assert items[..|items|] == items;
    }

    /** `split_off(at)`: None when `at > len`; otherwise the elements from `at` on move into
        a new vector of the same capacity and this one keeps the prefix. */
    method SplitOff(at: nat) returns (r: Option<ArrayVec<T>>)
      requires Valid()
      modifies this
      ensures Valid() && Dropped == old(Dropped)
      ensures at > old(len) ==> r == None && AsSlice() == old(AsSlice())
      ensures at <= old(len) ==>
        && r.Some? && fresh(r.value) && fresh(r.value.data) && r.value.Valid()
        && r.value.Capacity() == Capacity()
        && AsSlice() == old(AsSlice())[..at]
        && r.value.AsSlice() == old(AsSlice())[at..]
    {
      var n := len;
      if at > n {
        return None;
      }
      var other := new ArrayVec<T>.New(data.Length);
      len := at;
      other.len := n - at;
      Ptr.CopyNonoverlapping(data, at, other.data, 0, other.len);
      r := Some(other);
    }

    /** `Clone::clone`: a new vector of the same capacity holding clones of the live elements. */
    method Clone() returns (c: ArrayVec<T>)
      requires Valid()
      ensures fresh(c) && fresh(c.data) && c.Valid()
      ensures c.Capacity() == Capacity() && c.AsSlice() == AsSlice()
    {
      c := new ArrayVec<T>.New(data.Length);
      var r := c.ExtendFromCloneableSlice(AsSlice());
    }

    /** `Clone::clone_from` as written: it APPENDS the source's elements to this vector
        instead of replacing this vector's contents (see Findings). */
    method CloneFrom(source: ArrayVec<T>)
      requires Valid() && source.Valid() && source.Capacity() == Capacity()
      requires source != this && source.data != data
      modifies this, data
      ensures Valid() && Dropped == old(Dropped)
      ensures AsSlice() == Extended(old(AsSlice()), old(source.AsSlice()), Capacity())
    {
      var r := ExtendFromCloneableSlice(source.AsSlice());
    }

    /** `clone_from` as `Clone` promises it: afterwards this vector equals the source, and
        its old elements are destroyed. */
    method CloneFromIntended(source: ArrayVec<T>)
      requires Valid() && source.Valid() && source.Capacity() == Capacity()
      requires source != this && source.data != data
      modifies this, data
      ensures Valid() && AsSlice() == old(source.AsSlice())
      ensures Dropped == old(Dropped) + old(AsSlice())
    {
      Clear();
      var r := ExtendFromCloneableSlice(source.AsSlice());
      ExtendedSpec([], source.AsSlice(), Capacity());
    }
  }

  /** The loop of `retain` over the live slots `a[..n]`: every element `f` rejects is
      counted in `del`, every one it keeps is swapped down past the rejected ones. */
  method RetainPartition<T>(a: array<T>, n: nat, f: T -> bool, ghost s: seq<T>) returns (del: nat)
    requires n <= a.Length && a[..n] == s
    modifies a
    ensures del <= n
    ensures a[..n][..n - del] == Filtered(s, f)
    ensures multiset(a[..n]) == multiset(s)
    ensures a[n..] == old(a[n..])
  {
    del := 0;
    for i := 0 to n
      invariant Retaining(a[..n], s, i, del, f)
      invariant multiset(a[..n]) == multiset(s)
      invariant a[n..] == old(a[n..])
    {
      del := RetainStep(a, n, f, s, i, del);
    }
    assert s[..n] == s;
  }

  /** One iteration of `retain`: a rejected element is counted, a kept one is swapped down
      past the `del` rejected ones before it. */
  method RetainStep<T>(a: array<T>, n: nat, f: T -> bool, ghost s: seq<T>, i: nat, del: nat)
    returns (del': nat)
    requires n <= a.Length && i < n && Retaining(a[..n], s, i, del, f)
    modifies a
    ensures Retaining(a[..n], s, i + 1, del', f)
    ensures multiset(a[..n]) == multiset(old(a[..n]))
    ensures a[n..] == old(a[n..])
  {
    ghost var kept := Filtered(s[..i], f);
    FilteredStep(s, i, f);
    assert a[..i - del] == a[..n][..i - del] && a[i..n] == a[..n][i..];
    assert a[i] == s[i] && a[i + 1..n] == s[i + 1..];
    if !f(a[i]) {
      assert Filtered(s[..i + 1], f) == kept;
      del' := del + 1;
      assert a[..n][..i + 1 - del'] == a[..i - del] && a[..n][i + 1..] == a[i + 1..n];
    } else {
      assert Filtered(s[..i + 1], f) == kept + [s[i]];
      if del > 0 {
        SwapBelow(a, i - del, i, n);
      }
      assert a[..i - del + 1] == a[..i - del] + [a[i - del]];
      del' := del;
      assert a[..n][..i + 1 - del'] == a[..i - del + 1] && a[..n][i + 1..] == a[i + 1..n];
    }
  }

  /** Keeping the first `k` of the rearranged live elements `t` and destroying the rest
      neither loses nor duplicates any of the original elements `s`. */
  lemma KeptPrefix<T>(t: seq<T>, k: nat, s: seq<T>, dropped: seq<T>)
    requires k <= |t| && multiset(t) == multiset(s)
    ensures multiset(t[..k]) + multiset(dropped + t[k..]) == multiset(s) + multiset(dropped)
  {
    assert t == t[..k] + t[k..];
  }

  /** The state of `retain` after `i` elements of `s` have been read, `del` of them
      rejected: the first `i - del` slots hold the kept ones and slots `i..` are untouched. */
  ghost predicate Retaining<T>(t: seq<T>, s: seq<T>, i: nat, del: nat, f: T -> bool)
  {
    |t| == |s| && del <= i <= |s| && t[..i - del] == Filtered(s[..i], f) && t[i..] == s[i..]
  }

  /** `<[T]>::partition_dedup_by` from the standard library: moves the deduplicated
      elements of `a[..n]` to the front and returns how many there are. */
  method PartitionDedup<T>(a: array<T>, n: nat, same: (T, T) -> bool, ghost s: seq<T>) returns (kept: nat)
    requires n <= a.Length && a[..n] == s
    modifies a
    ensures kept <= n
    ensures a[..n][..kept] == Deduped(s, same)
    ensures multiset(a[..n]) == multiset(s)
    ensures a[n..] == old(a[n..])
  {
    if n <= 1 {
      return n;
    }
    var w, r := 1, 1;
    while r < n
      invariant r <= n && Partitioned(a[..n], s, r, w, same)
      invariant multiset(a[..n]) == multiset(s)
      invariant a[n..] == old(a[n..])
    {
      w := PartitionDedupStep(a, n, same, s, r, w);
      r := r + 1;
    }
    assert s[..n] == s;
    kept := w;
  }

  /** The state of the partition after `r` elements of `s` have been read: the first `w`
      slots hold their deduplication and slots `r..` are still untouched. */
  ghost predicate Partitioned<T>(t: seq<T>, s: seq<T>, r: nat, w: nat, same: (T, T) -> bool)
  {
    |t| == |s| && 1 <= w <= r <= |s| && t[..w] == Deduped(s[..r], same) && t[r..] == s[r..]
  }

  /** One iteration of the partition: the element at `r` is compared with the last one
      kept (at `w - 1`) and, when it starts a new bucket, is swapped down to `w`. */
  method PartitionDedupStep<T>(a: array<T>, n: nat, same: (T, T) -> bool, ghost s: seq<T>, r: nat, w: nat)
    returns (w': nat)
    requires n <= a.Length && r < n && Partitioned(a[..n], s, r, w, same)
    modifies a
    ensures w <= w' <= w + 1
    ensures Partitioned(a[..n], s, r + 1, w', same)
    ensures multiset(a[..n]) == multiset(old(a[..n]))
    ensures a[n..] == old(a[n..])
  {
    ghost var t := a[..n];
    assert a[r] == t[r] && a[w - 1] == t[w - 1];
    PartitionedStep(t, s, r, w, same);
    if !same(a[r], a[w - 1]) {
      if r != w {
        SwapBelow(a, w, r, n);
      } else {
        assert t[w := t[r]][r := t[w]] == t;
      }
      w' := w + 1;
    } else {
      w' := w;
    }
  }

  /** The partition step on the live slots as a sequence `t`: keeping `t[r]` swaps it
      down to `w`, skipping it leaves `t` alone, and either way the partition has read one
      more element. */
  lemma PartitionedStep<T>(t: seq<T>, s: seq<T>, r: nat, w: nat, same: (T, T) -> bool)
    requires r < |s| && Partitioned(t, s, r, w, same)
    ensures !same(t[r], t[w - 1]) ==> Partitioned(t[w := t[r]][r := t[w]], s, r + 1, w + 1, same)
    ensures same(t[r], t[w - 1]) ==> Partitioned(t, s, r + 1, w, same)
  {
    ghost var d := Deduped(s[..r], same);
    DedupedStep(s, r, same);
    assert t[r] == s[r] && d[|d| - 1] == t[w - 1];
    if !same(t[r], t[w - 1]) {
      var t' := t[w := t[r]][r := t[w]];
      assert t'[..w + 1] == t[..w] + [t[r]];
      assert t'[r + 1..] == t[r + 1..];
    } else {
      assert t[r + 1..] == t[r..][1..];
    }
  }

  /** Swaps `a[i]` and `a[j]`, `i < j < n`; the live range `a[..n]` keeps its multiset. */
  method SwapBelow<T>(a: array<T>, i: nat, j: nat, n: nat)
    requires i < j < n <= a.Length
    modifies a
    ensures a[..i] == old(a[..i]) && a[j + 1..n] == old(a[j + 1..n])
    ensures a[i] == old(a[j]) && a[j] == old(a[i])
    ensures a[..n] == old(a[..n])[i := old(a[j])][j := old(a[i])]
    ensures multiset(a[..n]) == multiset(old(a[..n]))
    ensures a[n..] == old(a[n..])
  {
    ghost var before := a[..n];
    a[i], a[j] := a[j], a[i];
    assert a[..n] == before[i := before[j]][j := before[i]];
  }

  /** `dedup`: `dedup_by` with equality. Only element types with equality have it. */
  method Dedup<T(0, ==)>(v: ArrayVec<T>)
    requires v.Valid()
    modifies v, v.data
    ensures v.Valid()
    ensures v.AsSlice() == Deduped(old(v.AsSlice()), Equal)
    ensures old(v.Dropped) <= v.Dropped
    ensures multiset(v.AsSlice()) + multiset(v.Dropped) == multiset(old(v.AsSlice())) + multiset(old(v.Dropped))
  {
    v.DedupBy(Equal);
  }
}
