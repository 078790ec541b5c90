/** `Splice`: the guard `ArrayVec::splice(range, replace_with)` returns. It is a drain of
    the range together with the replacement iterator; when it is released the removed
    elements nobody took are destroyed, the replacement items are written where the range
    was, and the drain's own release puts the tail back behind them. */
module Splices {
  import opened Wrappers
  import opened Sequences
  import opened ArrayVecs
  import opened Drains

  class Splice<T(0)> {
    /** The drain over the replaced range. */
    const drain: Drain<T>
    /** The replacement iterator, as the items it still has to give. */
    var replaceWith: seq<T>

    /** Until release the drain has written nothing: the vector is cut back to the start
        of the range and the tail has not moved. */
    ghost predicate Valid()
      reads this, drain, drain.vec, drain.vec.data
    {
      && drain.Valid()
      && drain.vec.len == drain.start && drain.tailStart == drain.end
    }

    constructor (d: Drain<T>, items: seq<T>)
      requires d.Valid() && d.vec.len == d.start && d.tailStart == d.end
      ensures Valid() && drain == d && replaceWith == items
    {
      drain := d;
      replaceWith := items;
    }

    /** The room a replacement has: the capacity less the kept prefix and tail. */
    ghost function Room(): nat
      reads this, drain, drain.vec, drain.vec.data
      requires Valid()
    {
      drain.vec.Capacity() - drain.start - drain.tailLen
    }

    /** `next`: the inner drain's. */
    method Next() returns (r: Option<T>)
      requires Valid()
      modifies drain
      ensures Valid() && drain.back == old(drain.back) && drain.Dropped == old(drain.Dropped)
      ensures old(drain.Untaken()) == [] ==> r == None && drain.Yielded == old(drain.Yielded)
      ensures old(drain.Untaken()) != [] ==>
        && r == Some(old(drain.Untaken())[0]) && drain.Untaken() == old(drain.Untaken())[1..]
        && drain.Yielded == old(drain.Yielded) + [r.value]
    {
      r := drain.Next();
    }

    /** `next_back`: the inner drain's. */
    method NextBack() returns (r: Option<T>)
      requires Valid()
      modifies drain
      ensures Valid() && drain.front == old(drain.front) && drain.Dropped == old(drain.Dropped)
      ensures old(drain.Untaken()) == [] ==> r == None && drain.Yielded == old(drain.Yielded)
      ensures old(drain.Untaken()) != [] ==>
        && r == Some(old(drain.Untaken())[|old(drain.Untaken())| - 1])
        && drain.Untaken() == old(drain.Untaken())[..|old(drain.Untaken())| - 1]
        && drain.Yielded == old(drain.Yielded) + [r.value]
    {
      r := drain.NextBack();
    }

    /** `size_hint`: the inner drain's, exact. */
    function SizeHint(): (r: (nat, Option<nat>))
      reads this, drain, drain.vec, drain.vec.data
      requires Valid()
      ensures r.0 == |drain.Untaken()| && r.1 == Some(|drain.Untaken()|)
    {
      drain.SizeHint()
    }

    /** `Splice::drop` followed by the drop of its drain. The untaken removed elements are
        destroyed first. With no tail the replacement is appended as far as the capacity
        allows. Otherwise the gap left by the range is filled, widened by the replacement's
        reported `lowerBound` and filled again, and widened by the exact count of what is
        left and filled once more; the drain's release then moves the tail down behind the
        last item written. Each widening is cut to the free room (see Findings), so in
        every case the replacement is kept as far as it fits and the rest is `rest`. */
    method Release(lowerBound: nat) returns (rest: seq<T>)
      requires Valid()
      modifies this, drain, drain.vec, drain.vec.data
      ensures drain.front == drain.back && drain.Yielded == old(drain.Yielded)
      ensures drain.Dropped == old(drain.Dropped) + old(drain.Untaken())
      ensures drain.vec.Valid() && drain.vec.Dropped == old(drain.vec.Dropped)
      ensures drain.vec.AsSlice() ==
        Spliced(drain.original, drain.start, drain.end, old(replaceWith), drain.vec.Capacity())
      ensures rest == old(replaceWith)[Min(|old(replaceWith)|, old(Room()))..] && replaceWith == rest
    {
      ghost var rep, m := replaceWith, Min(|replaceWith|, Room());
      assert Spliced(drain.original, drain.start, drain.end, rep, drain.vec.Capacity())
        == drain.original[..drain.start] + rep[..m] + drain.original[drain.end..];
      drain.ExhaustRemaining();
      if drain.tailLen == 0 {
        // `Drain`'s own release then finds no element left and no tail to move.
        rest := Append();
        assert drain.original[drain.end..] == [];
      } else {
        rest := Refill(lowerBound);
        drain.Release();
      }
      replaceWith := rest;
    }

    /** The no-tail path of `Splice::drop`: `Extend` appends the replacement as far as the
        capacity allows, and the release ends there. */
    method Append() returns (rest: seq<T>)
      requires Valid() && drain.front == drain.back && drain.tailLen == 0
      modifies drain.vec, drain.vec.data
      ensures drain.vec.Valid() && drain.vec.Dropped == old(drain.vec.Dropped)
      ensures var m := Min(|replaceWith|, old(Room()));
        drain.vec.AsSlice() == drain.original[..drain.start] + replaceWith[..m] && rest == replaceWith[m..]
    {
      drain.PrefixIntact();
      rest := drain.vec.Extend(replaceWith);
    }

    /** The path of `Splice::drop` with a tail: fill, move the tail by the lower bound and
        fill, collect the rest, move the tail by its length and fill. Every early return
        leaves the items written so far in place. */
    method Refill(lowerBound: nat) returns (rest: seq<T>)
      requires Valid() && drain.front == drain.back && drain.tailLen > 0
      modifies drain, drain.vec, drain.vec.data
      ensures drain.Valid() && drain.front == drain.back
      ensures drain.Yielded == old(drain.Yielded) && drain.Dropped == old(drain.Dropped)
      ensures drain.vec.Dropped == old(drain.vec.Dropped)
      ensures var m := Min(|replaceWith|, old(Room()));
        drain.vec.AsSlice() == drain.original[..drain.start] + replaceWith[..m] && rest == replaceWith[m..]
    {
      drain.PrefixIntact();
      assert replaceWith[..0] == [] && replaceWith[0..] == replaceWith;
      var filled;
      ghost var k;
      filled, rest, k := FillFrom(0, replaceWith);
      if !filled {
        return;
      }
      if lowerBound > 0 {
        filled, rest, k := Widen(lowerBound, k, rest);
        if !filled {
          return;
        }
      }
      var collected := rest;
      if |collected| > 0 {
        ghost var fits := drain.tailStart + |collected| + drain.tailLen <= drain.vec.Capacity();
        filled, rest, k := Widen(|collected|, k, collected);
        // With the exact count, a widening the capacity did not cut is filled completely.
        assert fits ==> filled && rest == [];
      }
    }

    /** `move_tail(additional)` followed by `fill`, the widening cut to the free room: the
        gap, full before, is filled from the replacement's `k`th item on; when it is filled
        again it took `additional` items or the vector is now full. */
    method Widen(additional: nat, ghost k: nat, items: seq<T>) returns (filled: bool, rest: seq<T>, ghost k': nat)
      requires drain.Valid() && drain.front == drain.back && drain.vec.len == drain.tailStart
      requires k <= |replaceWith| && items == replaceWith[k..]
      requires drain.vec.AsSlice() == drain.original[..drain.start] + replaceWith[..k]
      modifies drain, drain.vec, drain.vec.data
      ensures drain.Valid() && drain.front == drain.back
      ensures drain.Yielded == old(drain.Yielded) && drain.Dropped == old(drain.Dropped)
      ensures drain.vec.Dropped == old(drain.vec.Dropped)
      ensures k <= k' <= |replaceWith| && rest == replaceWith[k'..]
      ensures drain.vec.AsSlice() == drain.original[..drain.start] + replaceWith[..k']
      ensures drain.tailStart ==
        old(drain.tailStart) + Min(additional, old(drain.vec.Capacity() - drain.tailStart) - drain.tailLen)
      ensures filled <==> drain.vec.len == drain.tailStart
      ensures !filled ==> k' == |replaceWith|
      ensures filled ==> k' == k + additional || drain.vec.len + drain.tailLen == drain.vec.Capacity()
      ensures additional == |items| && old(drain.tailStart) + additional + drain.tailLen <= drain.vec.Capacity()
        ==> filled && rest == []
    {
      drain.MoveTail(Min(additional, drain.vec.Capacity() - drain.tailStart - drain.tailLen));
      filled, rest, k' := FillFrom(k, items);
    }

    /** `Drain::fill` from the replacement's `k`th item on, as `Splice::drop` calls it:
        the items written so far are always a prefix of the replacement, and a fill that
        stops short has used the replacement up. */
    method FillFrom(ghost k: nat, items: seq<T>) returns (filled: bool, rest: seq<T>, ghost k': nat)
      requires drain.Valid() && drain.front == drain.back
      requires k <= |replaceWith| && items == replaceWith[k..]
      requires drain.vec.AsSlice() == drain.original[..drain.start] + replaceWith[..k]
      modifies drain.vec, drain.vec.data
      ensures drain.Valid() && drain.vec.Dropped == old(drain.vec.Dropped)
      ensures k <= k' <= |replaceWith| && rest == replaceWith[k'..]
      ensures drain.vec.AsSlice() == drain.original[..drain.start] + replaceWith[..k']
      ensures drain.vec.len == drain.start + k'
      ensures k' == k + Min(|items|, old(drain.tailStart - drain.vec.len))
      ensures filled <==> drain.vec.len == drain.tailStart
      ensures filled <==> |items| >= old(drain.tailStart - drain.vec.len)
      ensures !filled ==> k' == |replaceWith|
    {
      filled, rest := drain.Fill(items);
      k' := k + (drain.vec.len - old(drain.vec.len));
      assert replaceWith[..k] + items[..k' - k] == replaceWith[..k'];
    }
  }

  /** `ArrayVec::splice(range, replace_with)`: `None` exactly when `drain(range)` is;
      otherwise the splice over that drain and the replacement. */
  method SpliceRange<T(0)>(v: ArrayVec<T>, startBound: Bound, endBound: Bound, items: seq<T>)
    returns (r: Option<Splice<T>>)
    requires v.Valid()
    modifies v
    ensures v.Valid() && v.Dropped == old(v.Dropped)
    ensures var s, e := StartIndex(startBound), EndIndex(endBound, old(v.len));
      && (r.None? <==> s > e || e > old(v.len))
      && (r.None? ==> v.AsSlice() == old(v.AsSlice()))
      && (r.Some? ==>
            && fresh(r.value) && fresh(r.value.drain) && r.value.Valid()
            && r.value.drain.vec == v && r.value.replaceWith == items
            && r.value.drain.start == s && r.value.drain.end == e
            && r.value.drain.original == old(v.AsSlice())
            && r.value.drain.Untaken() == old(v.AsSlice())[s..e]
            && r.value.drain.Yielded == [] && r.value.drain.Dropped == [])
  {
    var d := DrainRange(v, startBound, endBound);
    if d.None? {
      return None;
    }
    var sp := new Splice(d.value, items);
    r := Some(sp);
  }
}
