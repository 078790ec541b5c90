/** `Drain`: the guard `ArrayVec::drain(range)` returns. While it is alive the vector's
    length is lowered to the start of the range; the guard hands out the removed elements
    from either end, and when it is released it destroys the ones nobody took and moves
    the preserved tail back down behind the live prefix. */
module Drains {
  import opened Wrappers
  import opened Sequences
  import Ptr
  import opened ArrayVecs

  /** One end of a `RangeBounds<usize>` argument. */
  datatype Bound = Included(n: nat) | Excluded(n: nat) | Unbounded

  /** Whether index `i` lies on the admitted side of a start bound. */
  predicate AfterStart(b: Bound, i: nat)
  {
    match b
    case Included(n) => n <= i
    case Excluded(n) => n < i
    case Unbounded => true
  }

  /** Whether index `i` lies on the admitted side of an end bound, an open end being
      the length `len`. */
  predicate BeforeEnd(b: Bound, len: nat, i: nat)
  {
    match b
    case Included(n) => i <= n
    case Excluded(n) => i < n
    case Unbounded => i < len
  }

  /** The first index a start bound admits: the bound admits exactly the indices from
      `r` on. */
  function StartIndex(b: Bound): (r: nat)
    ensures forall i: nat :: AfterStart(b, i) <==> r <= i
  {
    match b
    case Included(n) => n
    case Excluded(n) => n + 1
    case Unbounded => 0
  }

  /** One past the last index an end bound admits; an open end runs to `len`: the bound
      admits exactly the indices below `r`. */
  function EndIndex(b: Bound, len: nat): (r: nat)
    ensures forall i: nat :: BeforeEnd(b, len, i) <==> i < r
  {
    match b
    case Included(n) => n + 1
    case Excluded(n) => n
    case Unbounded => len
  }

  class Drain<T(0)> {
    /** The vector being drained; the guard holds it exclusively while it is alive. */
    const vec: ArrayVec<T>
    /** The slice iterator over the removed range: `vec.data[front..back]` is not yet taken. */
    var front: nat
    var back: nat
    /** Where the preserved tail sits now, and how many elements it has. */
    var tailStart: nat
    const tailLen: nat
    /** The removed range and the vector's contents when the drain began. */
    ghost const start: nat
    ghost const end: nat
    ghost const original: seq<T>
    /** Elements handed to the caller, and elements the guard itself destroyed. */
    ghost var Yielded: seq<T>
    ghost var Dropped: seq<T>

    /** The guard's invariant: the live prefix is the original prefix, the tail is intact
        where `tailStart` says, the untaken removed elements still sit in their slots while
        the iterator runs, and every removed element is taken, destroyed or still there. */
    ghost predicate Valid()
      reads this, vec, vec.data
    {
      && vec.Valid()
      && |original| == end + tailLen
      && start <= front <= back <= end <= tailStart
      && start <= vec.len <= tailStart
      && tailStart + tailLen <= vec.Capacity()
      && (forall i :: 0 <= i < start ==> vec.data[i] == original[i])
      && (forall i :: tailStart <= i < tailStart + tailLen ==> vec.data[i] == original[i - tailStart + end])
      && (front < back ==>
            && vec.len == start && tailStart == end
            && forall i :: start <= i < end ==> vec.data[i] == original[i])
    }

    /** Every removed element is handed out, destroyed by the guard, or still untaken. */
    ghost predicate Accounted()
      reads this
    {
      AccountedFor(original, start, end, front, back, Yielded, Dropped)
    }

    /** Builds the guard over `v` once its length has been lowered to `s`. */
    constructor (v: ArrayVec<T>, s: nat, e: nat, len: nat, ghost orig: seq<T>)
      requires v.Valid() && s <= e <= len <= v.Capacity() && |orig| == len
      requires v.len == s && v.data[..len] == orig
      ensures Valid() && Accounted() && vec == v && front == s && back == e
      ensures tailStart == e && tailLen == |orig| - e
      ensures start == s && end == e && original == orig && Yielded == [] && Dropped == []
    {
      vec := v;
      front, back := s, e;
      tailStart, tailLen := e, len - e;
      start, end, original := s, e, orig;
      Yielded, Dropped := [], [];
      new;
      forall i | 0 <= i < len
        ensures v.data[i] == orig[i]
      {
        assert v.data[..len][i] == v.data[i];
      }
    }

    /** The removed elements not yet taken from either end. */
    ghost function Untaken(): seq<T>
      reads this
      requires front <= back <= |original|
    {
      original[front..back]
    }

    /** The live prefix is the original one, as a sequence. */
    lemma PrefixIntact()
      requires Valid()
      ensures vec.data[..start] == original[..start]
    {
    }

    /** The tail is intact where `tailStart` says, as a sequence. */
    lemma TailIntact()
      requires Valid()
      ensures vec.data[tailStart..tailStart + tailLen] == original[end..]
    {
    }

    /** `as_slice`: what the iterator has not yet produced, read from the vector's slots,
        is the removed range less what was taken from either end. */
    function AsSlice(): (r: seq<T>)
      reads this, vec, vec.data
      requires Valid()
      ensures r == Untaken()
    {
      vec.data[front..back]
    }

    /** `ExactSizeIterator::is_empty` */
    function IsEmpty(): (r: bool)
      reads this, vec, vec.data
      requires Valid()
      ensures r <==> Untaken() == []
    {
      front == back
    }

    /** `size_hint`: exact, both bounds are the number of untaken elements. */
    function SizeHint(): (r: (nat, Option<nat>))
      reads this, vec, vec.data
      requires Valid()
      ensures r.0 == |Untaken()| && r.1 == Some(|Untaken()|)
    {
      (back - front, Some(back - front))
    }

    /** The front step of the slice iterator followed by `ptr::read`: the first untaken
        element, which leaves the iterator's range. */
    method TakeFront() returns (r: Option<T>)
      requires Valid()
      modifies this
      ensures Valid() && back == old(back) && tailStart == old(tailStart)
      ensures Yielded == old(Yielded) && Dropped == old(Dropped)
      ensures old(front) == old(back) ==> r == None && front == old(front)
      ensures old(front) < old(back) ==> r == Some(original[old(front)]) && front == old(front) + 1
    {
      if front == back {
        return None;
      }
      var x := vec.data[front];
      front := front + 1;
      r := Some(x);
    }

    /** `next`: the untaken elements from the front, each handed to the caller. */
    method Next() returns (r: Option<T>)
      requires Valid()
      modifies this
      ensures Valid() && back == old(back) && tailStart == old(tailStart) && Dropped == old(Dropped)
      ensures old(Untaken()) == [] ==> r == None && front == old(front) && Yielded == old(Yielded)
      ensures old(Untaken()) != [] ==>
        && r == Some(old(Untaken())[0]) && Untaken() == old(Untaken())[1..]
        && Yielded == old(Yielded) + [r.value]
    {
      if front == back {
        return None;
      }
      var x := vec.data[front];
      front, Yielded := front + 1, Yielded + [x];
      r := Some(x);
    }

    /** `next_back`: the untaken elements from the back. */
    method NextBack() returns (r: Option<T>)
      requires Valid()
      modifies this
      ensures Valid() && front == old(front) && tailStart == old(tailStart) && Dropped == old(Dropped)
      ensures old(Untaken()) == [] ==> r == None && back == old(back) && Yielded == old(Yielded)
      ensures old(Untaken()) != [] ==>
        && r == Some(old(Untaken())[|old(Untaken())| - 1])
        && Untaken() == old(Untaken())[..|old(Untaken())| - 1]
        && Yielded == old(Yielded) + [r.value]
    {
      if front == back {
        return None;
      }
      var x := vec.data[back - 1];
      back, Yielded := back - 1, Yielded + [x];
      r := Some(x);
    }

    /** The release loop, which takes the untaken elements from the front one by one and
        destroys each (the guard runs it a second time, finding nothing): every untaken
        element is destroyed once, in order, and the iterator ends up empty. */
    method ExhaustRemaining()
      requires Valid()
      modifies this
      ensures Valid() && front == back && back == old(back) && tailStart == old(tailStart)
      ensures Dropped == old(Dropped) + old(Untaken()) && Yielded == old(Yielded)
    {
      while true
        invariant Valid() && old(front) <= front && back == old(back)
        invariant tailStart == old(tailStart) && Yielded == old(Yielded)
        invariant Dropped == old(Dropped) + original[old(front)..front]
        decreases back - front
      {
        var item := TakeFront();
        if item.None? {
          break;
        }
        assert original[old(front)..front] == original[old(front)..front - 1] + [item.value];
        Dropped := Dropped + [item.value];
      }
    }

    /** `DropGuard::drop`: finish the release loop, then, when there is a tail, move it from
        `tailStart` down to the current length (no move when it is already there) and add
        its length to the vector's. The elements placed between the prefix and the tail
        (by a splice) stay where they are. */
    method GuardRelease()
      requires Valid()
      modifies this, vec, vec.data
      ensures front == back && Yielded == old(Yielded)
      ensures Dropped == old(Dropped) + old(Untaken())
      ensures vec.Valid() && vec.Dropped == old(vec.Dropped)
      ensures vec.len == old(vec.len) + tailLen
      ensures vec.AsSlice() == old(vec.AsSlice()) + original[end..]
    {
      ExhaustRemaining();
      TailIntact();
      CloseTail();
    }

    /** The second half of `DropGuard::drop`: with a non-empty tail, move it from
        `tailStart` down to the current length, unless it is already there, and lengthen
        the vector by the tail's length; with no tail, leave the length as it is. */
    method CloseTail()
      requires vec.Valid() && |original| == end + tailLen
      requires vec.len <= tailStart && tailStart + tailLen <= vec.Capacity()
      requires vec.data[tailStart..tailStart + tailLen] == original[end..]
      modifies vec, vec.data
      ensures vec.Valid() && vec.Dropped == old(vec.Dropped)
      ensures vec.len == old(vec.len) + tailLen
      ensures vec.AsSlice() == old(vec.AsSlice()) + original[end..]
    {
      if tailLen > 0 {
        var at := vec.len;
        var tail := tailStart;
        ghost var live, moved := vec.data[..at], vec.data[tail..tail + tailLen];
        if tail != at {
          ghost var before := vec.data[..];
          Ptr.Copy(vec.data, tail, at, tailLen);
          Ptr.MovedParts(before, tail, at, tailLen);
        }
        assert vec.data[..at] == live && vec.data[at..at + tailLen] == moved;
        Sequences.SplitAt(vec.data[..], at, at + tailLen);
        vec.len := at + tailLen;
      } else {
        assert original[end..] == [];
      }
    }

    /** `Drain::drop`: after release every removed element was either handed out or
        destroyed exactly once, and the vector holds its prefix, whatever was placed after
        it, and the tail. For a plain drain that is the original with the range cut out. */
    method Release()
      requires Valid()
      modifies this, vec, vec.data
      ensures front == back && Yielded == old(Yielded)
      ensures Dropped == old(Dropped) + old(Untaken())
      ensures old(Accounted()) ==> multiset(Yielded) + multiset(Dropped) == multiset(original[start..end])
      ensures vec.Valid() && vec.Dropped == old(vec.Dropped)
      ensures vec.len == old(vec.len) + tailLen
      ensures vec.AsSlice() == old(vec.AsSlice()) + original[end..]
      ensures old(vec.len) == start ==> vec.AsSlice() == Drained(original, start, end)
    {
      ghost var accounted := Accounted();
      ExhaustRemaining();
      GuardRelease();
      if accounted {
        DropAccounting(original, start, end, old(front), old(back), Yielded, old(Dropped));
      }
    }

    /** `Drain::fill` (a helper of `Splice::drop`): writes replacement items into the gap
        `[vec.len, tailStart)` one slot at a time, raising the length by one per write, and
        reports whether the gap was filled completely. The replacement iterator is the
        sequence `items`; what it has left comes back as `rest`. */
    method Fill(items: seq<T>) returns (filled: bool, rest: seq<T>)
      requires Valid() && front == back
      modifies vec, vec.data
      ensures Valid() && vec.Dropped == old(vec.Dropped)
      ensures filled <==> |items| >= old(tailStart - vec.len)
      ensures vec.len == old(vec.len) + Min(|items|, old(tailStart - vec.len))
      ensures vec.AsSlice() == old(vec.AsSlice()) + items[..vec.len - old(vec.len)]
      ensures rest == items[vec.len - old(vec.len)..]
    {
      var rangeStart := vec.len;
      var rangeEnd := tailStart;
      rest := items;
      var place := rangeStart;
      while place < rangeEnd
        invariant Valid() && vec.Dropped == old(vec.Dropped)
        invariant rangeStart <= place == vec.len <= rangeEnd && place - rangeStart <= |items|
        invariant vec.data[..place] == old(vec.AsSlice()) + items[..place - rangeStart]
        invariant rest == items[place - rangeStart..]
      {
        if rest == [] {
          return false, rest;
        }
        var newItem := rest[0];
        rest := rest[1..];
        WriteGap(newItem);
        assert items[..place + 1 - rangeStart] == items[..place - rangeStart] + [newItem];
        place := place + 1;
      }
      filled := true;
    }

    /** One step of `fill`: `ptr::write` into the first gap slot and `vec.len += 1`. */
    method WriteGap(x: T)
      requires Valid() && front == back && vec.len < tailStart
      modifies vec, vec.data
      ensures Valid() && vec.Dropped == old(vec.Dropped)
      ensures vec.len == old(vec.len) + 1 && vec.data[..vec.len] == old(vec.data[..vec.len]) + [x]
    {
      vec.data[vec.len] := x;
      vec.len := vec.len + 1;
    }

    /** `Drain::move_tail` (a helper of `Splice::drop`): moves the tail up by `additional`
        slots, widening the gap before it by as much. The source does not check that the
        tail still fits; here that is the precondition. */
    method MoveTail(additional: nat)
      requires Valid() && front == back
      requires tailStart + additional + tailLen <= vec.Capacity()
      modifies this, vec.data
      ensures Valid() && front == old(front) && back == old(back)
      ensures Yielded == old(Yielded) && Dropped == old(Dropped)
      ensures tailStart == old(tailStart) + additional
      ensures vec.AsSlice() == old(vec.AsSlice())
    {
      var newTailStart := tailStart + additional;
      Ptr.Copy(vec.data, tailStart, newTailStart, tailLen);
      tailStart := newTailStart;
    }
  }

  /** The removed range `original[start..end]` is, as a multiset, what was handed out,
      what was destroyed and what is still untaken in `original[front..back]`. */
  ghost predicate AccountedFor<T>(original: seq<T>, start: nat, end: nat, front: nat, back: nat,
                                  yielded: seq<T>, dropped: seq<T>)
  {
    && start <= front <= back <= end <= |original|
    && multiset(yielded) + multiset(dropped) + multiset(original[front..back])
       == multiset(original[start..end])
  }

  /** Handing the first untaken element `original[front]` to the caller keeps every
      removed element accounted for exactly once. */
  lemma TakeAccounting<T>(original: seq<T>, start: nat, end: nat, front: nat, back: nat,
                          yielded: seq<T>, dropped: seq<T>)
    requires front < back && AccountedFor(original, start, end, front, back, yielded, dropped)
    ensures AccountedFor(original, start, end, front + 1, back, yielded + [original[front]], dropped)
  {
    assert original[front..back] == [original[front]] + original[front + 1..back];
  }

  /** Handing the last untaken element `original[back - 1]` to the caller likewise. */
  lemma TakeBackAccounting<T>(original: seq<T>, start: nat, end: nat, front: nat, back: nat,
                              yielded: seq<T>, dropped: seq<T>)
    requires front < back && AccountedFor(original, start, end, front, back, yielded, dropped)
    ensures AccountedFor(original, start, end, front, back - 1, yielded + [original[back - 1]], dropped)
  {
    assert original[front..back] == original[front..back - 1] + [original[back - 1]];
  }

  /** Destroying all untaken elements leaves each removed element handed out or destroyed. */
  lemma DropAccounting<T>(original: seq<T>, start: nat, end: nat, front: nat, back: nat,
                          yielded: seq<T>, dropped: seq<T>)
    requires AccountedFor(original, start, end, front, back, yielded, dropped)
    ensures AccountedFor(original, start, end, back, back, yielded, dropped + original[front..back])
  {
  }

  /** `ArrayVec::drain(range)`: `None`, leaving the vector alone, when the range is
      reversed or runs past the length; otherwise the vector is cut back to the range start
      and the guard covers the range, with the rest after it as the tail. */
  method DrainRange<T(0)>(v: ArrayVec<T>, startBound: Bound, endBound: Bound) returns (r: Option<Drain<T>>)
    requires v.Valid()
    modifies v
    ensures v.Valid() && v.Dropped == old(v.Dropped)
    ensures var s, e := StartIndex(startBound), EndIndex(endBound, old(v.len));
      && (r.None? <==> s > e || e > old(v.len))
      && (r.None? ==> v.AsSlice() == old(v.AsSlice()))
      && (r.Some? ==>
            && fresh(r.value) && r.value.Valid() && r.value.Accounted() && r.value.vec == v && v.len == s
            && r.value.start == s && r.value.end == e
            && r.value.tailStart == e && r.value.tailLen == old(v.len) - e
            && r.value.original == old(v.AsSlice()) && r.value.Untaken() == old(v.AsSlice())[s..e]
            && r.value.Yielded == [] && r.value.Dropped == [])
  {
    var len := v.len;
    var s := StartIndex(startBound);
    var e := EndIndex(endBound, len);
    if s > e || e > len {
      return None;
    }
    ghost var orig := v.AsSlice();
    v.len := s;
    var d := new Drain(v, s, e, len, orig);
    r := Some(d);
  }
}
