/** The examples in the crate's documentation, as callers of the model: each method runs
    the example on a fresh vector and its postcondition is what the example asserts. */
module Clients {
  import opened Wrappers
  import opened Sequences
  import opened ArrayVecs
  import opened Drains
  import opened Splices

  /** `[1, 2, 3]`, `drain(1..)` yields 2 and 3 and leaves `[1]`; `drain(..)` then leaves
      nothing. */
  method DrainExample() returns (first: Option<int>, second: Option<int>, after: seq<int>, afterAll: seq<int>)
    ensures first == Some(2) && second == Some(3)
    ensures after == [1] && afterAll == []
  {
    var v := new ArrayVec<int>.FromArray([1, 2, 3]);
    first, second, after := DrainFromOne(v);
    afterAll := DrainAll(v);
  }

  /** The first half of the `drain` example: `drain(1..)` on `[1, 2, 3]`, two `next`s,
      then release. */
  method DrainFromOne(v: ArrayVec<int>) returns (first: Option<int>, second: Option<int>, after: seq<int>)
    requires v.Valid() && v.AsSlice() == [1, 2, 3]
    modifies v, v.data
    ensures v.Valid() && v.AsSlice() == after
    ensures first == Some(2) && second == Some(3) && after == [1]
  {
    var d := DrainRange(v, Included(1), Unbounded);
    var it := d.value;
    assert it.Untaken() == [1, 2, 3][1..3] == [2, 3];
    first := it.Next();
    assert it.Untaken() == [3];
    second := it.Next();
    it.Release();
    after := v.AsSlice();
    assert after == Drained([1, 2, 3], 1, 3);
  }

  /** `drain(..)` released at once: whatever the vector held, it is left empty. */
  method DrainAll(v: ArrayVec<int>) returns (after: seq<int>)
    requires v.Valid()
    modifies v, v.data
    ensures v.Valid() && after == [] && v.AsSlice() == []
  {
    var d := DrainRange(v, Unbounded, Unbounded);
    d.value.Release();
    after := v.AsSlice();
    assert after == Drained(d.value.original, 0, |d.value.original|);
  }

  /** `[1, 2, 3]`, `splice(..2, [7, 8])` yields 1 and 2 and leaves `[7, 8, 3]`. After the
      first fill the replacement has nothing left, so its lower bound is 0. */
  method SpliceExample() returns (first: Option<int>, second: Option<int>, after: seq<int>)
    ensures first == Some(1) && second == Some(2)
    ensures after == [7, 8, 3]
  {
    var v := new ArrayVec<int>.FromArray([1, 2, 3]);
    var sp := SpliceRange(v, Unbounded, Excluded(2), [7, 8]);
    var it := sp.value;
    first := it.Next();
    second := it.Next();
    var rest := it.Release(0);
    after := v.AsSlice();
    assert [7, 8][..Min(2, 3 - 0 - 1)] == [7, 8];
    assert after == Spliced([1, 2, 3], 0, 2, [7, 8], 3);
  }

  /** `[1, 2, 2, 3, 2]`, `dedup()` leaves `[1, 2, 3, 2]`. */
  method DedupExample() returns (after: seq<int>)
    ensures after == [1, 2, 3, 2]
  {
    var v := new ArrayVec<int>.FromArray([1, 2, 2, 3, 2]);
    Dedup(v);
    after := v.AsSlice();
    DedupExampleValue();
  }

  lemma DedupExampleValue()
    ensures Deduped([1, 2, 2, 3, 2], Equal) == [1, 2, 3, 2]
  {
    var s := [1, 2, 2, 3, 2];
    assert s[..1] == [1];
    DedupedStep(s, 1, Equal);
    DedupedStep(s, 2, Equal);
    DedupedStep(s, 3, Equal);
    DedupedStep(s, 4, Equal);
    assert s[..5] == s;
  }

  /** `[10, 20, 21, 30, 20]`, `dedup_by_key(|i| i / 10)` leaves `[10, 20, 30, 20]`. */
  method DedupByKeyExample() returns (after: seq<int>)
    ensures after == [10, 20, 30, 20]
  {
    var v := new ArrayVec<int>.FromArray([10, 20, 21, 30, 20]);
    v.DedupByKey(Tens);
    after := v.AsSlice();
    DedupByKeyExampleValue();
  }

  /** The key of the `dedup_by_key` example: the tens digit. */
  function Tens(i: int): int
  {
    i / 10
  }

  lemma DedupByKeyExampleValue()
    ensures Deduped([10, 20, 21, 30, 20], SameKey(Tens)) == [10, 20, 30, 20]
  {
    var s := [10, 20, 21, 30, 20];
    var same := SameKey(Tens);
    assert s[..1] == [10];
    DedupedStep(s, 1, same);
    assert same(20, 10) == (Tens(20) == Tens(10)) == false;
    ghost var d2 := Deduped(s[..2], same);
    assert d2 == [10, 20];
    DedupedStep(s, 2, same);
    assert same(21, 20) == (Tens(21) == Tens(20)) == true;
    ghost var d3 := Deduped(s[..3], same);
    assert d3 == d2;
    DedupedStep(s, 3, same);
    assert same(30, 20) == (Tens(30) == Tens(20)) == false;
    ghost var d4 := Deduped(s[..4], same);
    assert d4 == [10, 20, 30];
    DedupedStep(s, 4, same);
    assert same(20, 30) == (Tens(20) == Tens(30)) == false;
    assert s[..5] == s;
  }

  /** `[1, 2, 3, 4, 5]`, `retain` keeping the second, third and fifth element, leaves
      `[2, 3, 5]`. The example's predicate counts its calls; here the kept values are
      named instead, which selects the same elements. */
  method RetainExample() returns (after: seq<int>)
    ensures after == [2, 3, 5]
  {
    var v := new ArrayVec<int>.FromArray([1, 2, 3, 4, 5]);
    v.Retain(Kept);
    after := v.AsSlice();
    RetainExampleValue();
  }

  /** The elements the `retain` example keeps. */
  predicate Kept(x: int)
  {
    x == 2 || x == 3 || x == 5
  }

  lemma RetainExampleValue()
    ensures Filtered([1, 2, 3, 4, 5], Kept) == [2, 3, 5]
  {
    var s := [1, 2, 3, 4, 5];
    assert s[..0] == [];
    FilteredStep(s, 0, Kept);
    FilteredStep(s, 1, Kept);
    FilteredStep(s, 2, Kept);
    FilteredStep(s, 3, Kept);
    FilteredStep(s, 4, Kept);
    assert s[..5] == s;
  }

  /** Capacity 2: `push(2)`, `insert(10, 4)` is refused, `insert(0, 4)` is accepted and
      gives `[4, 2]`, and a third `insert` is refused for want of room. */
  method InsertExample() returns (far: Result<(), int>, front: Result<(), int>, full: Result<(), int>, after: seq<int>)
    ensures far == Err(4) && front == Ok(()) && full == Err(6)
    ensures after == [4, 2]
  {
    var v := new ArrayVec<int>.New(2);
    var pushed := v.Push(2);
    far := v.Insert(10, 4);
    front := v.Insert(0, 4);
    full := v.Insert(0, 6);
    after := v.AsSlice();
  }

  /** `[1, 2, 3]`, `split_off(1)` leaves `[1]` and returns `[2, 3]`. */
  method SplitOffExample() returns (kept: seq<int>, split: seq<int>)
    ensures kept == [1] && split == [2, 3]
  {
    var v := new ArrayVec<int>.FromArray([1, 2, 3]);
    var other := v.SplitOff(1);
    kept := v.AsSlice();
    split := other.value.AsSlice();
  }

  /** `from_array([1, 2])` has length 2, `from_array_and_len([1, 2], 1)` length 1, and
      `new()` at capacity 2 length 0; `as_slice` of `from_array([1, 2])` is `[1, 2]`. */
  method ConstructorsExample() returns (full: seq<int>, partial: seq<int>, empty: seq<int>, cap: nat)
    ensures full == [1, 2] && |full| == 2
    ensures |partial| == 1 && |empty| == 0 && cap == 2
  {
    var a := new ArrayVec<int>.FromArray([1, 2]);
    var b := new ArrayVec<int>.FromArrayAndLen([1, 2], 1);
    var c := new ArrayVec<int>.New(2);
    full, partial, empty, cap := a.AsSlice(), b.AsSlice(), c.AsSlice(), c.Capacity();
  }

  /** Capacity 2: `push(1)` and `push(2)` succeed and land at indices 0 and 1; `push(3)`
      is refused. */
  method PushExample() returns (one: Result<(), int>, two: Result<(), int>, three: Result<(), int>, after: seq<int>)
    ensures one == Ok(()) && two == Ok(()) && three == Err(3)
    ensures |after| == 2 && after[0] == 1 && after[1] == 2
  {
    var v := new ArrayVec<int>.New(2);
    one := v.Push(1);
    two := v.Push(2);
    three := v.Push(3);
    after := v.AsSlice();
  }

  /** `[1, 2, 3]`, `pop()` gives 3 and leaves `[1, 2]`. */
  method PopExample() returns (popped: Option<int>, after: seq<int>)
    ensures popped == Some(3) && after == [1, 2]
  {
    var v := new ArrayVec<int>.FromArray([1, 2, 3]);
    popped := v.Pop();
    after := v.AsSlice();
  }

  /** `[1, 2, 3]`, `remove(10)` gives nothing, `remove(0)` gives 1 and leaves `[2, 3]`. */
  method RemoveExample() returns (far: Option<int>, first: Option<int>, after: seq<int>)
    ensures far == None && first == Some(1) && after == [2, 3]
  {
    var v := new ArrayVec<int>.FromArray([1, 2, 3]);
    far := v.Remove(10);
    first := v.Remove(0);
    after := v.AsSlice();
  }

  /** `[1, 2]`, `swap_remove(10)` gives nothing, `swap_remove(0)` gives 1, and the last
      element 2 takes its place in a vector of length 1. */
  method SwapRemoveExample() returns (far: Option<int>, first: Option<int>, after: seq<int>)
    ensures far == None && first == Some(1) && |after| == 1 && after[0] == 2
  {
    var v := new ArrayVec<int>.FromArray([1, 2]);
    far := v.SwapRemove(10);
    first := v.SwapRemove(0);
    after := v.AsSlice();
  }

  /** `[1, 2]`, `truncate(1)` leaves length 1. */
  method TruncateExample() returns (after: seq<int>)
    ensures |after| == 1
  {
    var v := new ArrayVec<int>.FromArray([1, 2]);
    v.Truncate(1);
    after := v.AsSlice();
  }

  /** `[1, 2]`, `clear()` leaves length 0. */
  method ClearExample() returns (after: seq<int>)
    ensures |after| == 0
  {
    var v := new ArrayVec<int>.FromArray([1, 2]);
    v.Clear();
    after := v.AsSlice();
  }

  /** A new vector is empty; after `push(1)` it is not. */
  method IsEmptyExample() returns (before: bool, after: bool)
    ensures before && !after
  {
    var v := new ArrayVec<int>.New(2);
    before := v.IsEmpty();
    var pushed := v.Push(1);
    after := v.IsEmpty();
  }

  /** Capacity 2: appending the clones of `[1, 2]` succeeds with `[1, 2]`; appending
      `[1, 2, 3]` instead keeps `[1, 2]` and refuses `[3]`. */
  method ExtendFromCloneableSliceExample() returns (fits: Result<(), seq<int>>, fitsAfter: seq<int>,
                                                    over: Result<(), seq<int>>, overAfter: seq<int>)
    ensures fits == Ok(()) && fitsAfter == [1, 2]
    ensures over == Err([3]) && overAfter == [1, 2]
  {
    var v := new ArrayVec<int>.New(2);
    fits := v.ExtendFromCloneableSlice([1, 2]);
    fitsAfter := v.AsSlice();
    var w := new ArrayVec<int>.New(2);
    over := w.ExtendFromCloneableSlice([1, 2, 3]);
    overAfter := w.AsSlice();
    assert [1, 2, 3][..2] == [1, 2];
  }

  /** The same two examples for the bulk copy of `extend_from_copyable_slice`. */
  method ExtendFromCopyableSliceExample() returns (fits: Result<(), seq<int>>, fitsAfter: seq<int>,
                                                   over: Result<(), seq<int>>, overAfter: seq<int>)
    ensures fits == Ok(()) && fitsAfter == [1, 2]
    ensures over == Err([3]) && overAfter == [1, 2]
  {
    var v := new ArrayVec<int>.New(2);
    fits := v.ExtendFromCopyableSlice([1, 2]);
    fitsAfter := v.AsSlice();
    var w := new ArrayVec<int>.New(2);
    over := w.ExtendFromCopyableSlice([1, 2, 3]);
    overAfter := w.AsSlice();
    assert [1, 2, 3][..2] == [1, 2];
  }
}
