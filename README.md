# stack-based-vec in Dafny

A model of the Rust crate `stack-based-vec`. The crate's `ArrayVec<T, N>` is a vector
of at most `N` elements. The elements live in `N` inline slots, and only the prefix
`[0, len)` is live. The model also covers the two guards that borrow the vector over a
range:

- `Drain`, which hands out the removed elements and closes the gap when it is dropped;
- `Splice`, which writes replacement items into the gap before the drain closes it.

Modules, one file each:

- `Wrappers` (`wrappers.dfy`): `Option` and `Result`.
- `Sequences` (`sequences.dfy`): pure specification functions. Each one says what an
  operation does to the live contents (`Inserted`, `Removed`, `SwapRemoved`,
  `Extended`, `Filtered`, `Deduped`, `Drained`, `Spliced`). The file also holds the
  lemmas about those functions and the helper `Min`.
- `Ptr` (`ptr.dfy`): `ptr::copy` and `ptr::copy_nonoverlapping` as array methods.
  - `Copy`, the overlapping copy inside one buffer, is specified by the pure `Moved`.
  - `CopyNonoverlapping` (between two buffers) and `CopyFromSlice` (from a sequence)
    are specified by slice equalities: the destination range receives the source, and
    every other slot is unchanged.
- `ArrayVecs` (`array_vec.dfy`): the container as a class.
  - `data` is an array whose length is `N`; `len` is the length.
  - A ghost log `Dropped` records every element the container destroys.
  - The loops of `retain` and of the standard `partition_dedup_by` work in place on the
    array.
- `Drains` (`drain.dfy`): the `Drain` guard as a class.
  - It has a front/back cursor, `tailStart` and `tailLen`.
  - Ghost `Yielded` and `Dropped` logs let the model state that each removed element is
    handed out or destroyed exactly once.
  - `ArrayVec::drain` is the module-level `DrainRange`, because a class in `ArrayVecs`
    cannot refer to `Drain`.
  - The two `Drain` helpers that live in `src/splice.rs`, `fill` and `move_tail`, are
    here too.
- `Splices` (`splice.dfy`): the `Splice` guard as a class, and `ArrayVec::splice` as
  `SpliceRange`. The replacement iterator is a `seq`, and its size-hint lower bound is a
  parameter of the release.
- `Findings` (`findings.dfy`): three places where the code does not do what it evidently
  means to do, each modelled as written. See "Findings" below.
- `Clients` (`clients.dfy`): the documentation examples of `from_array`,
  `from_array_and_len`, `new`, `as_slice`, `push`, `pop`, `insert`, `remove`,
  `swap_remove`, `truncate`, `clear`, `is_empty`, `extend_from_cloneable_slice`,
  `extend_from_copyable_slice`, `dedup`, `dedup_by_key`, `retain`, `drain`, `splice` and
  `split_off`, together with those of `len` and `capacity` (in `ConstructorsExample`).
  Each is a method whose postconditions are the example's assertions.
  - `InsertExample` runs against the intended `ArrayVec.Insert`, not the shift as written
    (see Findings). Besides the example's assertions it also states the contents `[4, 2]`,
    which the example itself does not check.
  - The examples of the raw-pointer accessors (`as_ptr`, `as_mut_ptr`, `as_mut_slice`) are
    not among them.

Dropping a guard is an explicit `Release` method. The Rust `Drop` runs it implicitly at
the end of the guard's scope.

## Model

| member | source | states |
|---|---|---|
| Sequences.RemoveInsertedRoundTrip | src/lib.rs:370-382 | the intended insert puts `x` at `i`, and removing at `i` afterwards gives back the original contents |
| Sequences.InsertRemovedRoundTrip | src/lib.rs:464-476 | removing at `i` and then re-inserting the removed element at `i` gives back the original contents |
| Sequences.SwapRemovedSpec | src/lib.rs:566-577 | swap_remove shortens by one and loses exactly `s[i]` (multiset); the old last element lands at `i`; every other index is unchanged; at the last index it coincides with remove |
| Sequences.ExtendedSpec | src/lib.rs:293-354 | appending never exceeds the capacity and keeps the old contents as a prefix; it appends all of `other` when `other` fits; otherwise it fills the buffer, and the refused suffix `other[N-len..]` is exactly what is missing |
| Sequences.Filtered | src/lib.rs:488-507 | what retain keeps is never longer than the input |
| Sequences.FilteredStep | src/lib.rs:496-501 | one more loop step of retain appends the element exactly when the predicate keeps it |
| Sequences.FilterMembership | src/lib.rs:488-507 | an element is kept iff it occurs in the input and satisfies the predicate |
| Sequences.FilterSubMultiset | src/lib.rs:488-507 | the kept elements are a sub-multiset of the input |
| Sequences.FilterIdempotent | src/lib.rs:488-507 | retaining twice with the same predicate is retaining once |
| Sequences.FilterAppend | src/lib.rs:488-507 | retain distributes over concatenation, so the kept elements keep their original order |
| Sequences.Deduped | src/lib.rs:199-208 | the deduplicated sequence is no longer than the input, and it keeps the first element |
| Sequences.DedupedStep | src/lib.rs:199-208 | one more element is kept exactly when it is not in the same bucket as the last one kept |
| Sequences.DedupNoAdjacentSame | src/lib.rs:199-208 | after dedup_by no two neighbours are in the same bucket |
| Sequences.DedupFixpoint | src/lib.rs:199-208 | a sequence without same-bucket neighbours is left unchanged |
| Sequences.DedupIdempotent | src/lib.rs:184-208 | deduplicating twice is deduplicating once |
| Sequences.DedupSubMultiset | src/lib.rs:199-208 | the kept elements are a sub-multiset of the input |
| Sequences.DedupKeepsValues | src/lib.rs:184-189 | dedup with equality keeps every value that occurs, and no other |
| Sequences.DrainedSpec | src/drain.rs:52-90 | after a drain the length drops by exactly the range length, and the remaining contents plus the range are the original multiset |
| Sequences.SplicedSpec | src/splice.rs:22-67 | a released splice never exceeds the capacity; when the replacement fits, the result is prefix ++ replacement ++ tail; an empty replacement is a plain drain |
| Ptr.Moved | src/drain.rs:73 | after a move the buffer has the same length as before |
| Ptr.Copy | src/lib.rs:377 | `ptr::copy` inside one buffer, with either overlap direction, leaves the buffer equal to `Moved` of the old buffer |
| Ptr.CopyDown | src/lib.rs:472 | the downward move copies front to back: every destination slot holds its source's old value, and every other slot is unchanged |
| Ptr.CopyUp | src/splice.rs:117 | the upward move copies back to front: every destination slot holds its source's old value, and every other slot is unchanged |
| Ptr.CopyNonoverlapping | src/lib.rs:551 | a copy between two buffers fills the destination range with the source range and leaves the rest of the destination alone |
| Ptr.CopyFromSlice | src/lib.rs:342 | a copy from a slice fills the destination range with the slice and leaves the rest alone |
| ArrayVecs.ArrayVec.Capacity | src/lib.rs:159-161 | the capacity is N, the number of storage slots |
| ArrayVecs.ArrayVec.AsSlice | src/lib.rs:147-149 | the live slice has exactly `len <= N` elements |
| ArrayVecs.ArrayVec.IsEmpty | src/lib.rs:394-396 | true iff the live slice is empty |
| ArrayVecs.ArrayVec.RemainingCapacity | src/lib.rs:602-604 | len plus the remaining capacity is N |
| ArrayVecs.ArrayVec.New | src/lib.rs:78-83 | a new vector has capacity N and is empty |
| ArrayVecs.ArrayVec.FromArray | src/lib.rs:46-51 | every slot of the array is live, in order |
| ArrayVecs.ArrayVec.FromArrayAndLen | src/lib.rs:62-67 | the length is min(len, N) and the live slice is that prefix of the array |
| ArrayVecs.ArrayVec.Push | src/lib.rs:443-453 | Ok with contents ++ [e] iff len < N; otherwise Err(e) with the contents unchanged |
| ArrayVecs.ArrayVec.Pop | src/lib.rs:419-429 | None on empty with nothing changed; otherwise the last element, and the contents lose it |
| ArrayVecs.ArrayVec.Insert | src/lib.rs:370-382 | Err(e) with nothing changed iff idx > len or the vector is full; otherwise s[..idx] ++ [e] ++ s[idx..] (the intended shift; see Findings) |
| ArrayVecs.ArrayVec.Remove | src/lib.rs:464-476 | None with nothing changed iff idx >= len; otherwise returns s[idx] and leaves s[..idx] ++ s[idx+1..] |
| ArrayVecs.ArrayVec.SwapRemove | src/lib.rs:566-577 | None with nothing changed iff idx >= len; otherwise returns s[idx] and leaves `SwapRemoved(s, idx)` |
| ArrayVecs.ArrayVec.Truncate | src/lib.rs:588-599 | a no-op when k >= len; otherwise exactly s[..k] stays and s[k..] is destroyed, in order |
| ArrayVecs.ArrayVec.Clear | src/lib.rs:172-174 | empties the vector and destroys every element |
| ArrayVecs.ArrayVec.Retain | src/lib.rs:488-507 | leaves exactly the elements the predicate keeps, in order; every element is kept or destroyed exactly once (multiset) |
| ArrayVecs.ArrayVec.DedupBy | src/lib.rs:199-208 | leaves `Deduped(s, same)`; every element is kept or destroyed exactly once (multiset) |
| ArrayVecs.ArrayVec.DedupByKey | src/lib.rs:220-226 | dedup_by with "equal keys" as the bucket relation; the old destruction log is kept as a prefix, and every element is kept or destroyed exactly once (multiset) |
| ArrayVecs.Dedup | src/lib.rs:184-189 | dedup_by with equality: each run of equal elements collapses to its first; the old destruction log is kept as a prefix, and every element is kept or destroyed exactly once (multiset) |
| ArrayVecs.ArrayVec.ExtendFromCopyableSlice | src/lib.rs:331-354 | appends the first min(len(other), N-len) items of other; Err(other[N-len..]) exactly when other is longer than N-len, else Ok |
| ArrayVecs.ArrayVec.ExtendFromCloneableSlice | src/lib.rs:293-314 | the same result as the copyable version, pushing one clone at a time |
| ArrayVecs.ArrayVec.Extend | src/lib.rs:686-697 | appends only the first N-len items; the items not taken come back, and old contents ++ items == new contents ++ rest |
| ArrayVecs.ArrayVec.PushAll | src/lib.rs:301-303 | pushing items that fit appends all of them |
| ArrayVecs.ArrayVec.SplitOff | src/lib.rs:542-554 | None with nothing changed iff at > len; otherwise this keeps s[..at] and a fresh vector of the same capacity holds s[at..] |
| ArrayVecs.ArrayVec.Clone | src/lib.rs:645-649 | a fresh vector of the same capacity with the same live contents |
| ArrayVecs.ArrayVec.CloneFrom | src/lib.rs:652-654 | as written: this vector becomes `Extended(old self, source, N)`, not a copy of the source |
| ArrayVecs.ArrayVec.CloneFromIntended | src/lib.rs:640-655 | corrected clone_from: the contents equal the source's, and the old elements are destroyed |
| ArrayVecs.RetainPartition | src/lib.rs:492-503 | the loop leaves the kept elements, in order, in the first len-del slots; the live slots are a permutation of the input, and the slots past len are unchanged |
| ArrayVecs.RetainStep | src/lib.rs:496-501 | one iteration keeps the retain invariant (kept prefix, untouched suffix); the live slots keep their multiset, and the slots past len are unchanged |
| ArrayVecs.KeptPrefix | src/lib.rs:504-506 | truncating the rearranged slots neither loses nor duplicates an element |
| ArrayVecs.PartitionDedup | src/lib.rs:203-206 | the partition puts `Deduped(s)` in the first `kept` slots; the live slots are a permutation of the input, and the slots past len are unchanged |
| ArrayVecs.PartitionDedupStep | src/lib.rs:203-206 | one step keeps the partition invariant and grows the kept prefix by at most one; the live slots keep their multiset, and the slots past len are unchanged |
| ArrayVecs.PartitionedStep | src/lib.rs:203-206 | the partition step on the slots as a sequence, for both the keep case and the skip case |
| ArrayVecs.SwapBelow | src/lib.rs:500 | `swap` exchanges two live slots, keeps every other slot (including those past len) and permutes the live slots |
| Drains.StartIndex | src/lib.rs:247-251 | the resolved start is the least index the start bound admits: i is admitted iff start <= i |
| Drains.EndIndex | src/lib.rs:252-256 | the resolved end is one past the last index the end bound admits (an open end is len): i is admitted iff i < end |
| Drains.Drain.constructor | src/lib.rs:262-272 | the guard starts with the whole range untaken and nothing yielded or dropped |
| Drains.Drain.PrefixIntact | src/lib.rs:264 | while the guard is alive the live prefix is the original prefix |
| Drains.Drain.TailIntact | src/drain.rs:13-16 | while the guard is alive the tail sits intact at `tailStart` |
| Drains.Drain.AsSlice | src/drain.rs:32-34 | the remaining slice, read from the vector, is exactly the untaken middle of the range |
| Drains.Drain.IsEmpty | src/drain.rs:94-96 | true iff nothing is left untaken |
| Drains.Drain.SizeHint | src/drain.rs:111-113 | both bounds are exactly the untaken count |
| Drains.Drain.TakeFront | src/drain.rs:105-109 | the cursor step: None when exhausted; otherwise the first untaken original element, and the front advances |
| Drains.Drain.Next | src/drain.rs:105-109 | None when nothing is untaken (fused); otherwise the first untaken element, which is removed from the untaken slice and logged as yielded |
| Drains.Drain.NextBack | src/drain.rs:45-49 | the same from the back: the last untaken element |
| Drains.Drain.ExhaustRemaining | src/drain.rs:81-86 | every untaken element is destroyed once, in order; the front cursor reaches the unchanged back one, so a second run finds nothing left (the guard's for_each) |
| Drains.Drain.GuardRelease | src/drain.rs:59-78 | finishes the loop, then appends the tail after whatever is live and lengthens the vector by tail_len |
| Drains.Drain.CloseTail | src/drain.rs:64-77 | moves the tail down to `vec.len` (no copy when already there), preserving order; len += tail_len; with no tail, len is unchanged |
| Drains.Drain.Release | src/drain.rs:52-90 | every removed element is yielded or dropped exactly once (multiset); the contents become s[..start] ++ s[end..] however many were taken |
| Drains.Drain.Fill | src/splice.rs:92-108 | writes min(items, gap) items into the gap in order, one len increment per write; true iff the gap was filled; the rest of the items come back |
| Drains.Drain.WriteGap | src/splice.rs:100-102 | one write into the first gap slot and len += 1 |
| Drains.Drain.MoveTail | src/splice.rs:111-119 | moves the tail up by `additional`, preserving it; tail_start += additional; the live contents and both iterator cursors are unchanged |
| Drains.TakeAccounting | src/drain.rs:105-109 | yielding from the front keeps every removed element accounted for exactly once |
| Drains.TakeBackAccounting | src/drain.rs:45-49 | yielding from the back keeps every removed element accounted for exactly once |
| Drains.DropAccounting | src/drain.rs:81-86 | destroying all untaken elements leaves each removed element yielded or dropped |
| Drains.DrainRange | src/lib.rs:242-273 | None with the vector unchanged iff start > end or end > len; otherwise len = start, tail_start = end, tail_len = len - end, and the untaken slice is s[start..end] |
| Splices.Splice.constructor | src/lib.rs:527-530 | the splice pairs the drain with the replacement |
| Splices.Splice.Next | src/splice.rs:77-79 | the inner drain's next |
| Splices.Splice.NextBack | src/splice.rs:17-19 | the inner drain's next_back |
| Splices.Splice.SizeHint | src/splice.rs:81-83 | the inner drain's exact size hint |
| Splices.Splice.Release | src/splice.rs:22-67 | the untaken removed elements are all dropped first; afterwards the contents are `Spliced(s, start, end, replacement, N)`, so s[..start] ++ replacement ++ s[end..] whenever it fits (SplicedSpec); the items that did not fit come back |
| Splices.Splice.Append | src/splice.rs:30-33 | with no tail, Extend appends the replacement truncated to the remaining capacity |
| Splices.Splice.Refill | src/splice.rs:35-63 | after fill / move_tail(lower bound) / fill / collect / move_tail(exact) / fill, the gap holds the longest prefix of the replacement that fits, and the rest comes back |
| Splices.Splice.Widen | src/splice.rs:44-62 | move_tail (cut to the free room) then fill: tail_start grows by min(additional, free room); the written items stay a prefix of the replacement; filled iff the gap is full; a full gap took `additional` items or the vector is full; with the exact count of the remaining items and room for them, the gap is filled and nothing is left (the `debug_assert!(filled)` of line 61) |
| Splices.Splice.FillFrom | src/splice.rs:36 | fill as Splice::drop uses it: it writes min(items, gap) items, which stay a prefix of the replacement; it reports filled iff there were at least as many items as gap slots, and a fill that stops short used the replacement up |
| Splices.SpliceRange | src/lib.rs:522-531 | None exactly when drain(range) is None; otherwise a splice over that drain with nothing taken yet |
| Findings.Slots | src/lib.rs:29-32 | the slot layout: live values, then uninitialised slots |
| Findings.InsertAsWritten | src/lib.rs:370-382 | insert as written is refused exactly when idx > len or full; when it writes, e is at idx and len grows by one |
| Findings.InsertDocExample | src/lib.rs:360-368 | the doc example as written leaves [4, uninitialised] where [4, 2] is intended |
| Findings.InsertAsWrittenAgainstIntended | src/lib.rs:377 | on an empty vector the code is undefined; at index 0 the last live slot is uninitialised; from index 1 the result is right when the move stays in the buffer, and undefined otherwise |
| Findings.InsertAsWrittenFromOne | src/lib.rs:376-378 | from index 1 with the move in bounds, the live slots equal the intended insert |
| Findings.TailReachesAsWritten | src/splice.rs:40-63 | as written, every move_tail call of Splice::drop reaches past the old length |
| Findings.MoveTailOverflowExample | src/splice.rs:111-119 | [1,2,3] at capacity 3, splice(1..2, [7,8,9]) with lower bound 2: the tail is moved to slot 4, so the write ends at slot 5 (exclusive) of a 3-slot buffer |
| Findings.MoveTailInBoundsIffFits | src/splice.rs:44-59 | with a truthful lower bound, the moves stay in the buffer iff the replacement fits beside prefix and tail |
| Findings.CloneFromExample | src/lib.rs:652-654 | clone_from as written: [1] cloned from [2] at capacity 2 gives [1, 2] |
| Findings.CloneFromKeepsOld | src/lib.rs:652-654 | as written the old contents survive as a prefix, so the result equals the source only when the source begins with them |
| Clients.DrainExample | src/lib.rs:231-240 | drain(1..) on [1,2,3] yields 2 then 3 and leaves [1]; drain(..) then leaves [] |
| Clients.DrainFromOne | src/lib.rs:233-238 | the first half of that example |
| Clients.DrainAll | src/lib.rs:239-240 | drain(..) released at once empties any vector |
| Clients.SpliceExample | src/lib.rs:513-519 | splice(..2, [7,8]) on [1,2,3] yields 1 then 2 and leaves [7,8,3] |
| Clients.DedupExample | src/lib.rs:180-182 | dedup on [1,2,2,3,2] leaves [1,2,3,2] |
| Clients.DedupExampleValue | src/lib.rs:180-182 | the value of that example's specification |
| Clients.DedupByKeyExample | src/lib.rs:195-197 | dedup_by_key(i / 10) on [10,20,21,30,20] leaves [10,20,30,20] |
| Clients.DedupByKeyExampleValue | src/lib.rs:195-197 | the value of that example's specification |
| Clients.RetainExample | src/lib.rs:482-486 | retain keeping the 2nd, 3rd and 5th element of [1,2,3,4,5] leaves [2,3,5] |
| Clients.RetainExampleValue | src/lib.rs:482-486 | the value of that example's specification |
| Clients.InsertExample | src/lib.rs:360-368 | with capacity 2 and [2]: insert(10, 4) is refused, insert(0, 4) is accepted, and a further insert is refused; run against the intended insert, it also states the contents [4, 2], which the example does not check (the shift as written leaves [4, uninitialised]; see Findings) |
| Clients.SplitOffExample | src/lib.rs:537-540 | split_off(1) on [1,2,3] keeps [1] and returns [2,3] |
| Clients.ConstructorsExample | src/lib.rs:42-75 | from_array([1,2]) has length 2 and slice [1,2] (also the as_slice example); from_array_and_len([1,2], 1) has length 1; new() at capacity 2 has length 0 and capacity 2 |
| Clients.PushExample | src/lib.rs:435-440 | at capacity 2, push(1) and push(2) succeed and land at indices 0 and 1; push(3) is refused |
| Clients.PopExample | src/lib.rs:414-416 | pop on [1,2,3] gives 3 and leaves [1,2] |
| Clients.RemoveExample | src/lib.rs:459-462 | remove(10) on [1,2,3] gives None; remove(0) gives 1 and leaves [2,3] |
| Clients.SwapRemoveExample | src/lib.rs:560-564 | swap_remove(10) on [1,2] gives None; swap_remove(0) gives 1 and leaves length 1 with 2 at index 0 |
| Clients.TruncateExample | src/lib.rs:583-585 | truncate(1) on [1,2] leaves length 1 |
| Clients.ClearExample | src/lib.rs:167-169 | clear on [1,2] leaves length 0 |
| Clients.IsEmptyExample | src/lib.rs:387-391 | a new vector is empty, and not after push(1) |
| Clients.ExtendFromCloneableSliceExample | src/lib.rs:281-290 | at capacity 2, [1,2] is appended with Ok; [1,2,3] leaves [1,2] and refuses [3] |
| Clients.ExtendFromCopyableSliceExample | src/lib.rs:319-328 | the same two examples for the bulk copy |

## Left out

- Raw memory: `MaybeUninit`, `as_ptr`/`as_mut_ptr`, `as_mut_slice` and `set_len` are
  array reads and writes of the slots. Reading a slot that is not live is not modelled,
  except by `Findings.Slots` for the `insert` finding. `T(0)` lets a new array be
  allocated; its initial values mean nothing.
- Unwinding: a panic while an element is dropped, and the `DropGuard`/`mem::forget`
  dance that survives it (src/drain.rs:56-86). Dafny has no unwinding. The finaliser is
  one `Release` method; the guard's second `for_each(drop)` is `ExhaustRemaining`, which
  does nothing on an exhausted guard.
- `Send`, `Sync`, `TrustedLen`, `FusedIterator`: concurrency and compiler markers.
- Closures that keep state, such as the counting predicate of the retain example: the
  predicate and bucket relations are pure functions. `FnMut` calls that depend on call
  order are not modelled.
- The `Vec` that `Splice::drop` collects leftovers into (src/splice.rs:52-56) is a `seq`.
  The replacement iterator is the `seq` of items it will yield, and its `size_hint`
  lower bound is a parameter.
- The standard library's `partition_dedup_by` is modelled by `ArrayVecs.PartitionDedup`:
  a loop with the same swap-based result.
- `usize` overflow of `n + 1` for inclusive and excluded bounds (src/lib.rs:249, 253):
  integers are unbounded here.
- The slice trait delegations (`AsRef`, `Deref`, `Index`, `IntoIterator`, `Ord`,
  `PartialEq`, `Debug`, ...; src/lib.rs:612-793) forward to the live slice, which is
  `AsSlice`.
- src/macros.rs (the literal-construction macro, calling `new`/`push`),
  src/array_vec_error.rs (an error type the core does not use), benchmarks/ and fuzz/
  are not part of this model.
- `ArrayVec` has no `Drop` implementation in the source. The model follows the code: the
  live elements of a vector that goes out of scope are not logged as destroyed.
- Drains.Drain.Release: the exactly-once multiset statement is made for a guard that
  was accounted for when the release began, which every guard made by `DrainRange` is
  and which `Next` and `NextBack` keep (`TakeAccounting`, `TakeBackAccounting`). It is
  not carried inside `Valid`, so it is not part of the iterator methods' own contracts.
- Splices.Splice.Release: the removed elements are logged positionally as dropped (the
  untaken slice, in order). The multiset exactly-once statement of `Drain::Release` is
  not repeated for the splice.
- Splices.Splice.Release: on the path with no tail, the drain's own release is not
  called. The items appended by `Extend` sit past the drain's start, so the drain's
  invariant does not hold there, and that release would do nothing: there is nothing
  left untaken and no tail.
- Drains.Drain.MoveTail: requires that the moved tail still fits in the buffer. The
  source has no such check; `Splices.Splice.Widen` meets it by cutting each widening to
  the free room (see Findings).
- The doc examples of `dedup_by` and `dedup_by_key` (src/lib.rs:191-197, 210-218)
  exercise `dedup_by_key` and `retain` respectively. `Clients` checks each against the
  method it actually calls.

## Findings

| source | as written | input that shows it | evidently intended | confidence | as-written member | corrected member |
|---|---|---|---|---|---|---|
| src/lib.rs:377 | `insert` moves `len - 1` slots from `idx` up by one | capacity 2 holding [2], `insert(0, 4)`: nothing is moved, the 2 is overwritten, and slot 1 becomes live while uninitialised. On an empty vector `len - 1` underflows. With idx + len > N the move writes past the buffer | move the `len - idx` slots `[idx, len)`, giving s[..idx] ++ [e] ++ s[idx..] | high; not executed | Findings.InsertAsWrittenAgainstIntended | ArrayVecs.ArrayVec.Insert |
| src/splice.rs:111-119 | `move_tail(k)` moves the tail to `tail_start + k` without checking the capacity; `Splice::drop` calls it with the lower bound and the collected count (lines 44, 59) | [1,2,3] at capacity 3, `splice(1..2, [7,8,9])`: after the first fill the lower bound is 2, and the tail is written to slot 4 of a 3-slot buffer. With a truthful lower bound this happens exactly when the replacement does not fit | never write past N: keep what fits, as the no-tail path does through `Extend` | high; not executed | Findings.MoveTailInBoundsIffFits | Splices.Splice.Release |
| src/lib.rs:652-654 | `clone_from` extends `self` with the source's elements | [1] `clone_from` [2] at capacity 2 gives [1, 2] | `self` becomes a clone of the source, as `Clone::clone_from` promises | high; not executed | Findings.CloneFromKeepsOld | ArrayVecs.ArrayVec.CloneFromIntended |
