/** Pure specifications of what each container operation does to the live contents
    `[0, len)`, and the properties of those specifications. The imperative operations in
    ArrayVecs, Drains and Splices are proved against these functions. */
module Sequences {
  import opened Wrappers

  /** The smaller of two counts: how much of a request fits in the room there is. */
  function Min(a: nat, b: nat): nat
  {
    if a <= b then a else b
  }

  /* ---------------- insert / remove / swap_remove ---------------- */

  /** A prefix of `s` is the shorter prefix followed by the slice between the two. */
  lemma SplitAt<T>(s: seq<T>, i: nat, j: nat)
    requires i <= j <= |s|
    ensures s[..j] == s[..i] + s[i..j]
  {
  }

  /** The intended contents after `insert(i, x)`: everything from `i` moves up one slot. */
  function Inserted<T>(s: seq<T>, i: nat, x: T): (r: seq<T>)
    requires i <= |s|
  {
    s[..i] + [x] + s[i..]
  }

  /** The contents after `remove(i)`: everything after `i` moves down one slot. */
  function Removed<T>(s: seq<T>, i: nat): (r: seq<T>)
    requires i < |s|
  {
    s[..i] + s[i + 1..]
  }

  /** The contents after `swap_remove(i)`: the last element fills the hole, then the
      sequence loses its last slot. */
  function SwapRemoved<T>(s: seq<T>, i: nat): (r: seq<T>)
    requires i < |s|
  {
    s[i := s[|s| - 1]][..|s| - 1]
  }

  /** insert and remove at the same index are inverse to each other, both ways round. */
  lemma RemoveInsertedRoundTrip<T>(s: seq<T>, i: nat, x: T)
    requires i <= |s|
    ensures Inserted(s, i, x)[i] == x
    ensures Removed(Inserted(s, i, x), i) == s
  {
    var t := Inserted(s, i, x);
    assert t[..i] == s[..i];
    assert t[i + 1..] == s[i..];
    assert s[..i] + s[i..] == s;
  }

  lemma InsertRemovedRoundTrip<T>(s: seq<T>, i: nat)
    requires i < |s|
    ensures Inserted(Removed(s, i), i, s[i]) == s
  {
    var t := Removed(s, i);
    assert t[..i] == s[..i];
    assert t[i..] == s[i + 1..];
    assert s[..i] + [s[i]] + s[i + 1..] == s;
  }

  /** swap_remove loses exactly the element at `i`, moves only the last element, and
      agrees with remove when `i` is the last index. */
  lemma SwapRemovedSpec<T>(s: seq<T>, i: nat)
    requires i < |s|
    ensures |SwapRemoved(s, i)| == |s| - 1
    ensures multiset(SwapRemoved(s, i)) + multiset{s[i]} == multiset(s)
    ensures i < |s| - 1 ==> SwapRemoved(s, i)[i] == s[|s| - 1]
    ensures forall j :: 0 <= j < |s| - 1 && j != i ==> SwapRemoved(s, i)[j] == s[j]
    ensures i == |s| - 1 ==> SwapRemoved(s, i) == Removed(s, i)
  {
    var n := |s|;
    var r := SwapRemoved(s, i);
    if i == n - 1 {
      assert r == s[..n - 1];
      assert s == s[..n - 1] + [s[n - 1]];
    } else {
      assert s == s[..i] + [s[i]] + s[i + 1..n - 1] + [s[n - 1]];
      assert r == s[..i] + [s[n - 1]] + s[i + 1..n - 1];
    }
  }

  /* ---------------- extend_from_*_slice / Extend ---------------- */

  /** The contents after appending `other` to `s` in a buffer of capacity `cap`: only
      as many items as there is room for are taken. */
  function Extended<T>(s: seq<T>, other: seq<T>, cap: nat): (r: seq<T>)
    requires |s| <= cap
  {
    s + other[..Min(|other|, cap - |s|)]
  }

  /** Appending is prefix-truncating: the result never exceeds the capacity, it is all
      of `other` when that fits, and otherwise it fills the buffer and the refused
      suffix `other[cap - |s|..]` is exactly what is missing. */
  lemma ExtendedSpec<T>(s: seq<T>, other: seq<T>, cap: nat)
    requires |s| <= cap
    ensures |Extended(s, other, cap)| <= cap
    ensures Extended(s, other, cap)[..|s|] == s
    ensures |other| <= cap - |s| ==> Extended(s, other, cap) == s + other
    ensures |other| > cap - |s| ==>
      |Extended(s, other, cap)| == cap && Extended(s, other, cap) + other[cap - |s|..] == s + other
  {
    var r := Extended(s, other, cap);
    assert r[..|s|] == s;
    if |other| <= cap - |s| {
      assert other[..|other|] == other;
    } else {
      var k := cap - |s|;
      assert other[..k] + other[k..] == other;
      assert r + other[k..] == s + (other[..k] + other[k..]);
    }
  }

  /* ---------------- retain ---------------- */

  /** The elements of `s` that satisfy `f`, in their original order. */
  function Filtered<T>(s: seq<T>, f: T -> bool): (r: seq<T>)
    ensures |r| <= |s|
  {
    if s == [] then []
    else if f(s[|s| - 1]) then Filtered(s[..|s| - 1], f) + [s[|s| - 1]]
    else Filtered(s[..|s| - 1], f)
  }

  /** One more element: how the left-to-right compaction loop of `retain` extends its result. */
  lemma FilteredStep<T>(s: seq<T>, i: nat, f: T -> bool)
    requires i < |s|
    ensures Filtered(s[..i + 1], f) == Filtered(s[..i], f) + (if f(s[i]) then [s[i]] else [])
  {
    assert s[..i + 1][..i] == s[..i];
  }

  /** Nothing that satisfies `f` is lost and nothing new appears. */
  lemma {:induction false} FilterMembership<T>(s: seq<T>, f: T -> bool, x: T)
    ensures x in Filtered(s, f) <==> x in s && f(x)
  {
    if s != [] {
      var init := s[..|s| - 1];
      FilterMembership(init, f, x);
      assert s == init + [s[|s| - 1]];
    }
  }

  /** The kept elements are a sub-multiset of the original ones. */
  lemma {:induction false} FilterSubMultiset<T>(s: seq<T>, f: T -> bool)
    ensures multiset(Filtered(s, f)) <= multiset(s)
  {
    if s != [] {
      var init := s[..|s| - 1];
      FilterSubMultiset(init, f);
      assert s == init + [s[|s| - 1]];
    }
  }

  /** Filtering twice is filtering once. */
  lemma {:induction false} FilterIdempotent<T>(s: seq<T>, f: T -> bool)
    ensures Filtered(Filtered(s, f), f) == Filtered(s, f)
  {
    if s != [] {
      var init := s[..|s| - 1];
      FilterIdempotent(init, f);
      var r := Filtered(init, f);
      if f(s[|s| - 1]) {
        assert (r + [s[|s| - 1]])[..|r|] == r;
      }
    }
  }

  /** Filtering distributes over concatenation, so it keeps the original order. */
  lemma {:induction false} FilterAppend<T>(a: seq<T>, b: seq<T>, f: T -> bool)
    ensures Filtered(a + b, f) == Filtered(a, f) + Filtered(b, f)
    decreases |b|
  {
    if b == [] {
      assert a + b == a;
    } else {
      var binit, last := b[..|b| - 1], b[|b| - 1];
      FilterAppend(a, binit, f);
      var ab := a + b;
      assert ab[..|ab| - 1] == a + binit && ab[|ab| - 1] == last;
      assert Filtered(ab, f) == Filtered(a + binit, f) + (if f(last) then [last] else []);
      assert Filtered(b, f) == Filtered(binit, f) + (if f(last) then [last] else []);
    }
  }

  /* ---------------- dedup_by ---------------- */

  /** The result of `dedup_by(same)`: an element is kept when `same(it, last kept)` is
      false, so each run of elements in the same bucket collapses to its first one. */
  function Deduped<T>(s: seq<T>, same: (T, T) -> bool): (r: seq<T>)
    ensures |r| <= |s|
    ensures |s| > 0 ==> |r| > 0 && r[0] == s[0]
  {
    if |s| <= 1 then s
    else
      var d := Deduped(s[..|s| - 1], same);
      if same(s[|s| - 1], d[|d| - 1]) then d else d + [s[|s| - 1]]
  }

  /** One more element: how the left-to-right partition loop of `dedup_by` extends its result. */
  lemma DedupedStep<T>(s: seq<T>, r: nat, same: (T, T) -> bool)
    requires 0 < r < |s|
    ensures Deduped(s[..r + 1], same) ==
      var d := Deduped(s[..r], same); if same(s[r], d[|d| - 1]) then d else d + [s[r]]
  {
    assert s[..r + 1][..r] == s[..r];
  }

  /** No element of the result is in the same bucket as the one kept before it. */
  ghost predicate NoAdjacentSame<T>(s: seq<T>, same: (T, T) -> bool)
  {
    forall i :: 0 < i < |s| ==> !same(s[i], s[i - 1])
  }

  lemma {:induction false} DedupNoAdjacentSame<T>(s: seq<T>, same: (T, T) -> bool)
    ensures NoAdjacentSame(Deduped(s, same), same)
  {
    if |s| > 1 {
      DedupNoAdjacentSame(s[..|s| - 1], same);
    }
  }

  /** A sequence without adjacent duplicates is left as it is. */
  lemma {:induction false} DedupFixpoint<T>(s: seq<T>, same: (T, T) -> bool)
    requires NoAdjacentSame(s, same)
    ensures Deduped(s, same) == s
  {
    if |s| > 1 {
      var init := s[..|s| - 1];
      assert NoAdjacentSame(init, same) by {
        forall i | 0 < i < |init| ensures !same(init[i], init[i - 1]) {
          assert init[i] == s[i] && init[i - 1] == s[i - 1];
        }
      }
      DedupFixpoint(init, same);
      assert !same(s[|s| - 1], s[|s| - 2]);
      assert s == init + [s[|s| - 1]];
    }
  }

  /** Deduplicating twice is deduplicating once. */
  lemma DedupIdempotent<T>(s: seq<T>, same: (T, T) -> bool)
    ensures Deduped(Deduped(s, same), same) == Deduped(s, same)
  {
    DedupNoAdjacentSame(s, same);
    DedupFixpoint(Deduped(s, same), same);
  }

  /** The kept elements are a sub-multiset of the original ones. */
  lemma {:induction false} DedupSubMultiset<T>(s: seq<T>, same: (T, T) -> bool)
    ensures multiset(Deduped(s, same)) <= multiset(s)
  {
    if |s| > 1 {
      var init := s[..|s| - 1];
      DedupSubMultiset(init, same);
      assert s == init + [s[|s| - 1]];
    }
  }

  /** The bucket relation of `dedup()`: plain equality. */
  predicate Equal<T(==)>(a: T, b: T)
  {
    a == b
  }

  /** The bucket relation of `dedup_by_key(key)`: equal keys. */
  function SameKey<T, K(==)>(key: T -> K): (T, T) -> bool
  {
    (a, b) => key(a) == key(b)
  }

  lemma {:induction false} DedupKeepsValues<T>(s: seq<T>, x: T)
    ensures x in Deduped(s, Equal) <==> x in s
  {
    DedupSubMultiset(s, Equal);
    assert x in Deduped(s, Equal) ==> x in multiset(s);
    if |s| > 1 {
      var init := s[..|s| - 1];
      DedupKeepsValues(init, x);
      assert s == init + [s[|s| - 1]];
    }
  }

  /* ---------------- drain / splice ---------------- */

  /** The contents after a drain of `[a, b)` has been released. */
  function Drained<T>(s: seq<T>, a: nat, b: nat): (r: seq<T>)
    requires a <= b <= |s|
  {
    s[..a] + s[b..]
  }

  /** The contents after a splice of `[a, b)` with `rep` has been released, in a buffer
      of capacity `cap`: the replacement is cut to the room left beside prefix and tail. */
  function Spliced<T>(s: seq<T>, a: nat, b: nat, rep: seq<T>, cap: nat): (r: seq<T>)
    requires a <= b <= |s| <= cap
  {
    s[..a] + rep[..Min(|rep|, cap - a - (|s| - b))] + s[b..]
  }

  /** A drain removes exactly the range: what is left plus what was removed is the
      original multiset, and the prefix and the tail keep their order. */
  lemma DrainedSpec<T>(s: seq<T>, a: nat, b: nat)
    requires a <= b <= |s|
    ensures |Drained(s, a, b)| == |s| - (b - a)
    ensures multiset(Drained(s, a, b)) + multiset(s[a..b]) == multiset(s)
  {
    assert s == s[..a] + s[a..b] + s[b..];
  }

  /** A splice never overflows the capacity, inserts all of the replacement when it fits,
      and with an empty replacement is a drain. */
  lemma SplicedSpec<T>(s: seq<T>, a: nat, b: nat, rep: seq<T>, cap: nat)
    requires a <= b <= |s| <= cap
    ensures |Spliced(s, a, b, rep, cap)| <= cap
    ensures a + |rep| + (|s| - b) <= cap ==> Spliced(s, a, b, rep, cap) == s[..a] + rep + s[b..]
    ensures Spliced(s, a, b, [], cap) == Drained(s, a, b)
  {
    if a + |rep| + (|s| - b) <= cap {
      assert rep[..|rep|] == rep;
    }
    assert s[..a] + [] + s[b..] == s[..a] + s[b..];
  }
}
