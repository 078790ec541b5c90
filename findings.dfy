/** Three places where the code does something other than what its documentation and
    its callers evidently intend. Each is modelled here as written, with the input that
    shows the difference; the rest of the model uses the intended behaviour. */
module Findings {
  import opened Wrappers
  import opened Sequences
  import Ptr

  /* ---------------- insert: the shift count ---------------- */

  /** A storage slot as raw memory sees it: holding a value, or uninitialised. */
  datatype Slot<T> = Init(value: T) | Uninit

  /** The slots of a container whose live prefix is `xs` and whose other `free` slots
      are uninitialised. */
  function Slots<T>(xs: seq<T>, free: nat): (r: seq<Slot<T>>)
    ensures |r| == |xs| + free
    ensures forall k :: 0 <= k < |xs| ==> r[k] == Init(xs[k])
    ensures forall k :: |xs| <= k < |r| ==> r[k] == Uninit
  {
    if |xs| == 0 then
      (if free == 0 then [] else Slots([], free - 1) + [Uninit])
    else
      [Init(xs[0])] + Slots(xs[1..], free)
  }

  /** What a call to `insert` can lead to: the element handed back, behaviour the
      language leaves undefined, or new slots with a new length. */
  datatype InsertOutcome<T> = Refused | Undefined | Written(slots: seq<Slot<T>>, len: nat)

  /** `insert(idx, e)` as written: after the guard it moves `len - 1` slots from `idx`
      up by one, then writes `e` at `idx`. With `len == 0` the count underflows, and a
      move whose end passes the last slot writes outside the buffer. */
  function InsertAsWritten<T>(slots: seq<Slot<T>>, len: nat, idx: nat, e: T): (r: InsertOutcome<T>)
    requires len <= |slots|
    ensures r.Refused? <==> idx > len || len == |slots|
    ensures r.Written? ==> |r.slots| == |slots| && r.len == len + 1 && r.slots[idx] == Init(e)
  {
    if idx > len || len == |slots| then Refused
    else if len == 0 then Undefined
    else if idx + len > |slots| then Undefined
    else Written(Ptr.Moved(slots, idx, idx + 1, len - 1)[idx := Init(e)], len + 1)
  }

  /** The doc example of `insert`: capacity 2, `push(2)`, then `insert(0, 4)` succeeds.
      It moves nothing, overwrites the 2, and leaves the new last live slot
      uninitialised, where `[4, 2]` was meant. */
  lemma InsertDocExample()
    ensures InsertAsWritten([Init(2), Uninit], 1, 0, 4) == Written([Init(4), Uninit], 2)
    ensures Inserted([2], 0, 4) == [4, 2]
  {
    assert Ptr.Moved([Init(2), Uninit], 0, 1, 0) == [Init(2), Uninit];
  }

  /** The code as written against the intended `Inserted`, for every accepted call on a
      container whose free slots are uninitialised: on an empty container it is
      undefined; at index 0 it leaves the last live slot uninitialised; from index 1 on
      its live slots are the intended ones exactly when the move stays in the buffer,
      and otherwise it writes past the last slot. */
  lemma InsertAsWrittenAgainstIntended<T>(xs: seq<T>, free: nat, idx: nat, e: T)
    requires idx <= |xs| && free > 0
    ensures var r := InsertAsWritten(Slots(xs, free), |xs|, idx, e);
      && (|xs| == 0 ==> r.Undefined?)
      && (|xs| > 0 && idx == 0 ==> r.Written? && r.slots[|xs|] == Uninit)
      && (idx > 0 && idx + |xs| > |xs| + free ==> r.Undefined?)
      && (idx > 0 && idx + |xs| <= |xs| + free ==>
            r.Written? && r.slots[..|xs| + 1] == Slots(Inserted(xs, idx, e), 0))
  {
    if |xs| > 0 && idx == 0 {
      Ptr.MovedAt(Slots(xs, free), 0, 1, |xs| - 1, |xs|);
    }
    if idx > 0 && idx + |xs| <= |xs| + free {
      InsertAsWrittenFromOne(xs, free, idx, e);
    }
  }

  /** From index 1 on, with the move inside the buffer, the live slots come out right:
      the move covers `[idx, len)` and one slot more, which is not live. */
  lemma InsertAsWrittenFromOne<T>(xs: seq<T>, free: nat, idx: nat, e: T)
    requires 0 < idx <= |xs| && idx + |xs| <= |xs| + free
    ensures var r := InsertAsWritten(Slots(xs, free), |xs|, idx, e);
      r.Written? && r.slots[..|xs| + 1] == Slots(Inserted(xs, idx, e), 0)
  {
    var slots := Slots(xs, free);
    var n := |xs|;
    var r := InsertAsWritten(slots, n, idx, e);
    var want := Slots(Inserted(xs, idx, e), 0);
    forall k | 0 <= k < n + 1
      ensures r.slots[k] == want[k]
    {
      Ptr.MovedAt(slots, idx, idx + 1, n - 1, k);
    }
  }

  /* ---------------- move_tail: no capacity check ---------------- */

  /** How far the `move_tail` calls of `Splice::drop` write, as written, for a vector of
      length `len` spliced over `[start, end)` with `repLen` replacement items whose
      reported lower bound after the first fill is `lowerBound`: one entry per call, the
      slot just past the moved tail. No widening is cut to the capacity. */
  function TailReachesAsWritten(len: nat, start: nat, end: nat, repLen: nat, lowerBound: nat): (r: seq<nat>)
    requires start <= end <= len
    ensures |r| <= 2
    ensures forall i :: 0 <= i < |r| ==> len < r[i]
  {
    var tailLen := len - end;
    if tailLen == 0 || repLen < end - start then []
    else
      var rem := repLen - (end - start);
      var first := if lowerBound > 0 then [end + lowerBound + tailLen] else [];
      if lowerBound > rem then first
      else
        var left := rem - lowerBound;
        first + (if left > 0 then [end + lowerBound + left + tailLen] else [])
  }

  /** `[1, 2, 3]` at capacity 3, `splice(1..2, [7, 8, 9])`, whose iterator reports the
      exact lower bound 2 after the first fill: the tail is moved to slot 4, past the
      last slot 2. */
  lemma MoveTailOverflowExample()
    ensures TailReachesAsWritten(3, 1, 2, 3, 2) == [5]
  {
  }

  /** With a truthful lower bound, the moves stay inside a buffer of capacity `cap`
      exactly when the whole replacement fits beside the kept prefix and tail: every
      replacement that does not fit makes the code write past the buffer. */
  lemma {:induction false} MoveTailInBoundsIffFits(len: nat, start: nat, end: nat, repLen: nat, lowerBound: nat, cap: nat)
    requires start <= end <= len <= cap && len > end
    requires end - start <= repLen && lowerBound <= repLen - (end - start)
    ensures (forall i :: 0 <= i < |TailReachesAsWritten(len, start, end, repLen, lowerBound)| ==>
               TailReachesAsWritten(len, start, end, repLen, lowerBound)[i] <= cap)
        <==> start + repLen + (len - end) <= cap
  {
    var r := TailReachesAsWritten(len, start, end, repLen, lowerBound);
    var reach := start + repLen + (len - end);
    if repLen > end - start {
      assert r[|r| - 1] == reach;
    } else {
      assert r == [] && reach == len;
    }
  }

  /* ---------------- clone_from: appends ---------------- */

  /** `clone_from` as written extends this vector by the source: `[1]` cloned from `[2]`
      at capacity 2 becomes `[1, 2]`, not `[2]`. */
  lemma CloneFromExample()
    ensures Extended([1], [2], 2) == [1, 2] != [2]
  {
  }

  /** In general the old contents survive as a prefix, so the result is a copy of the
      source only when the source already begins with this vector's contents. */
  lemma CloneFromKeepsOld<T>(s: seq<T>, source: seq<T>, cap: nat)
    requires |s| <= cap
    ensures Extended(s, source, cap)[..|s|] == s
    ensures Extended(s, source, cap) == source ==> |s| <= |source| && source[..|s|] == s
  {
    ExtendedSpec(s, source, cap);
  }
}
