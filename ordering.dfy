/** Ordering the catalog newest first (discover-apps.js, `apps.sort` with a
    comparator on `updatedAt`). JavaScript's `Array.prototype.sort` is
    stable, so entries with the same timestamp keep their enrichment order.

    The specification is a functional insertion sort, `SortNewestFirst`;
    the lemmas show it yields a sorted permutation that keeps ties in order,
    and that it is the only arrangement with those properties. The array is
    sorted in place by `SortByUpdatedAt`. */
module Ordering {
  import opened Model

  /** Every entry is at least as recent as every entry after it. */
  predicate NewestFirst(apps: seq<AppEntry>) {
    forall i, j :: 0 <= i < j < |apps| ==> apps[i].updatedAt >= apps[j].updatedAt
  }

  /** `x` placed right after the last entry at least as recent as it. */
  function Insert(x: AppEntry, sorted: seq<AppEntry>): (r: seq<AppEntry>)
    ensures |r| == |sorted| + 1
  {
    if sorted == [] || sorted[|sorted| - 1].updatedAt >= x.updatedAt then sorted + [x]
    else Insert(x, sorted[..|sorted| - 1]) + [sorted[|sorted| - 1]]
  }

  /** Stable sort by `updatedAt`, most recent first. */
  function SortNewestFirst(apps: seq<AppEntry>): (r: seq<AppEntry>)
    ensures |r| == |apps|
  {
    if apps == [] then []
    else Insert(apps[|apps| - 1], SortNewestFirst(apps[..|apps| - 1]))
  }

  /** The entries with timestamp `t`, in order. */
  function WithTimestamp(apps: seq<AppEntry>, t: int): seq<AppEntry> {
    if apps == [] then []
    else
      var last := apps[|apps| - 1];
      WithTimestamp(apps[..|apps| - 1], t) + (if last.updatedAt == t then [last] else [])
  }

  /** The entries with timestamp `t` are exactly those of `apps` with that
      timestamp. */
  lemma {:induction false} WithTimestampMembers(apps: seq<AppEntry>, t: int, x: AppEntry)
    ensures x in WithTimestamp(apps, t) <==> x in apps && x.updatedAt == t
  {
    if apps != [] {
      var init := apps[..|apps| - 1];
      WithTimestampMembers(init, t, x);
      assert apps == init + [apps[|apps| - 1]];
    }
  }

  /** The last entry shows up among the entries with its own timestamp. */
  lemma WithTimestampLast(apps: seq<AppEntry>)
    requires apps != []
    ensures var w := WithTimestamp(apps, apps[|apps| - 1].updatedAt);
      w != [] && w[|w| - 1] == apps[|apps| - 1]
  {
  }

  lemma {:induction false} InsertPermutes(x: AppEntry, sorted: seq<AppEntry>)
    ensures multiset(Insert(x, sorted)) == multiset(sorted) + multiset{x}
  {
    if sorted != [] && sorted[|sorted| - 1].updatedAt < x.updatedAt {
      var init := sorted[..|sorted| - 1];
      InsertPermutes(x, init);
      assert sorted == init + [sorted[|sorted| - 1]];
    }
  }

  /** Inserting keeps a lower bound on the timestamps. */
  lemma {:induction false} InsertBounded(x: AppEntry, sorted: seq<AppEntry>, bound: int)
    requires x.updatedAt >= bound
    requires forall k :: 0 <= k < |sorted| ==> sorted[k].updatedAt >= bound
    ensures forall k :: 0 <= k < |Insert(x, sorted)| ==> Insert(x, sorted)[k].updatedAt >= bound
  {
    if sorted != [] && sorted[|sorted| - 1].updatedAt < x.updatedAt {
      InsertBounded(x, sorted[..|sorted| - 1], bound);
    }
  }

  lemma {:induction false} InsertKeepsOrder(x: AppEntry, sorted: seq<AppEntry>)
    requires NewestFirst(sorted)
    ensures NewestFirst(Insert(x, sorted))
  {
    if sorted != [] && sorted[|sorted| - 1].updatedAt < x.updatedAt {
      var init := sorted[..|sorted| - 1];
      var last := sorted[|sorted| - 1];
      InsertKeepsOrder(x, init);
      InsertBounded(x, init, last.updatedAt);
      var r := Insert(x, init);
      forall i, j | 0 <= i < j < |r + [last]|
        ensures (r + [last])[i].updatedAt >= (r + [last])[j].updatedAt
      {
        if j == |r| {
          assert (r + [last])[i] == r[i];
        }
      }
    }
  }

  /** The sort returns a permutation of its input. */
  lemma {:induction false} SortPermutes(apps: seq<AppEntry>)
    ensures multiset(SortNewestFirst(apps)) == multiset(apps)
  {
    if apps != [] {
      var init := apps[..|apps| - 1];
      SortPermutes(init);
      InsertPermutes(apps[|apps| - 1], SortNewestFirst(init));
      assert apps == init + [apps[|apps| - 1]];
    }
  }

  /** The sort returns its input newest first. */
  lemma {:induction false} SortIsNewestFirst(apps: seq<AppEntry>)
    ensures NewestFirst(SortNewestFirst(apps))
  {
    if apps != [] {
      SortIsNewestFirst(apps[..|apps| - 1]);
      InsertKeepsOrder(apps[|apps| - 1], SortNewestFirst(apps[..|apps| - 1]));
    }
  }

  lemma {:induction false} InsertStable(x: AppEntry, sorted: seq<AppEntry>, t: int)
    ensures WithTimestamp(Insert(x, sorted), t)
         == WithTimestamp(sorted, t) + (if x.updatedAt == t then [x] else [])
  {
    if sorted == [] || sorted[|sorted| - 1].updatedAt >= x.updatedAt {
      assert (sorted + [x])[..|sorted|] == sorted;
    } else {
      var init := sorted[..|sorted| - 1];
      var last := sorted[|sorted| - 1];
      InsertStable(x, init, t);
      var r := Insert(x, init);
      assert (r + [last])[..|r|] == r;
      assert sorted[..|sorted| - 1] == init;
      if x.updatedAt == t {
        assert last.updatedAt != t;
      }
    }
  }

  /** Entries with equal timestamps keep their relative order. */
  lemma {:induction false} SortIsStable(apps: seq<AppEntry>, t: int)
    ensures WithTimestamp(SortNewestFirst(apps), t) == WithTimestamp(apps, t)
  {
    if apps != [] {
      var init := apps[..|apps| - 1];
      SortIsStable(init, t);
      InsertStable(apps[|apps| - 1], SortNewestFirst(init), t);
    }
  }

  lemma NewestFirstInit(apps: seq<AppEntry>)
    requires NewestFirst(apps) && apps != []
    ensures NewestFirst(apps[..|apps| - 1])
    ensures forall x :: x in apps ==> x.updatedAt >= apps[|apps| - 1].updatedAt
  {
  }

  /** Two newest-first arrangements that agree on the entries of their last
      entries' timestamps end with the same entry. */
  lemma SameLast(r1: seq<AppEntry>, r2: seq<AppEntry>)
    requires r1 != [] && r2 != []
    requires NewestFirst(r1) && NewestFirst(r2)
    requires WithTimestamp(r1, r1[|r1| - 1].updatedAt) == WithTimestamp(r2, r1[|r1| - 1].updatedAt)
    requires WithTimestamp(r1, r2[|r2| - 1].updatedAt) == WithTimestamp(r2, r2[|r2| - 1].updatedAt)
    ensures r1[|r1| - 1] == r2[|r2| - 1]
  {
    var x1, x2 := r1[|r1| - 1], r2[|r2| - 1];
    WithTimestampMembers(r1, x1.updatedAt, x1);
    WithTimestampMembers(r2, x1.updatedAt, x1);
    NewestFirstInit(r2);
    assert x1.updatedAt >= x2.updatedAt;
    WithTimestampMembers(r2, x2.updatedAt, x2);
    WithTimestampMembers(r1, x2.updatedAt, x2);
    NewestFirstInit(r1);
    assert x2.updatedAt >= x1.updatedAt;
    WithTimestampLast(r1);
    WithTimestampLast(r2);
  }

  /** Removing the same last entry from two arrangements that agree on every
      timestamp's entries leaves two that still agree. */
  lemma SameWithoutLast(r1: seq<AppEntry>, r2: seq<AppEntry>, t: int)
    requires r1 != [] && r2 != [] && r1[|r1| - 1] == r2[|r2| - 1]
    requires WithTimestamp(r1, t) == WithTimestamp(r2, t)
    ensures WithTimestamp(r1[..|r1| - 1], t) == WithTimestamp(r2[..|r2| - 1], t)
  {
    var x := r1[|r1| - 1];
    var w := WithTimestamp(r1, t);
    if x.updatedAt == t {
      assert WithTimestamp(r1[..|r1| - 1], t) == w[..|w| - 1];
      assert WithTimestamp(r2[..|r2| - 1], t) == w[..|w| - 1];
    }
  }

  /** An arrangement that agrees with the empty one on every timestamp's
      entries is empty. */
  lemma AgreesWithEmpty(r1: seq<AppEntry>, r2: seq<AppEntry>)
    requires r1 == []
    requires forall t :: WithTimestamp(r1, t) == WithTimestamp(r2, t)
    ensures r2 == []
  {
    if r2 != [] {
      WithTimestampLast(r2);
    }
  }

  /** Two newest-first arrangements that agree on the order of the entries
      of every timestamp are equal. */
  lemma {:induction false} StableArrangementUnique(r1: seq<AppEntry>, r2: seq<AppEntry>)
    requires NewestFirst(r1) && NewestFirst(r2)
    requires forall t :: WithTimestamp(r1, t) == WithTimestamp(r2, t)
    ensures r1 == r2
    decreases |r1| + |r2|
  {
    if r1 == [] {
      AgreesWithEmpty(r1, r2);
    } else if r2 == [] {
      AgreesWithEmpty(r2, r1);
    } else {
      SameLast(r1, r2);
      NewestFirstInit(r1);
      NewestFirstInit(r2);
      var i1, i2 := r1[..|r1| - 1], r2[..|r2| - 1];
      forall t
        ensures WithTimestamp(i1, t) == WithTimestamp(i2, t)
      {
        SameWithoutLast(r1, r2, t);
      }
      StableArrangementUnique(i1, i2);
      assert r1 == i1 + [r1[|r1| - 1]] && r2 == i2 + [r2[|r2| - 1]];
    }
  }

  /** The sort's output is the one and only newest-first arrangement of the
      input that keeps entries with equal timestamps in input order. */
  lemma SortCharacterization(apps: seq<AppEntry>, r: seq<AppEntry>)
    ensures r == SortNewestFirst(apps) ==>
      NewestFirst(r) && forall t :: WithTimestamp(r, t) == WithTimestamp(apps, t)
    ensures NewestFirst(r) && (forall t :: WithTimestamp(r, t) == WithTimestamp(apps, t)) ==>
      r == SortNewestFirst(apps)
  {
    var s := SortNewestFirst(apps);
    SortIsNewestFirst(apps);
    forall t
      ensures WithTimestamp(s, t) == WithTimestamp(apps, t)
    {
      SortIsStable(apps, t);
    }
    if NewestFirst(r) && (forall t :: WithTimestamp(r, t) == WithTimestamp(apps, t)) {
      forall t
        ensures WithTimestamp(r, t) == WithTimestamp(s, t)
      {
        assert WithTimestamp(r, t) == WithTimestamp(apps, t);
      }
      StableArrangementUnique(r, s);
    }
  }

  /** Entries updated on 2024-01-01, 2023-06-01 and 2024-06-01 (written as
      yyyymmdd) come out as 2024-06-01, 2024-01-01, 2023-06-01. */
  lemma SortExample(a: AppEntry, b: AppEntry, c: AppEntry)
    requires a.updatedAt == 20240101 && b.updatedAt == 20230601 && c.updatedAt == 20240601
    ensures SortNewestFirst([a, b, c]) == [c, a, b]
  {
    assert [a, b, c][..2] == [a, b];
    assert [a, b][..1] == [a];
    assert [a][..0] == [];
    assert SortNewestFirst([a]) == Insert(a, []) == [a];
    assert SortNewestFirst([a, b]) == Insert(b, [a]) == [a, b];
    assert Insert(c, [a]) == Insert(c, []) + [a] == [c, a];
    assert Insert(c, [a, b]) == Insert(c, [a]) + [b];
  }

  /** Insertion into a newest-first prefix, at the position where the scan
      from the right stopped. */
  lemma {:induction false} InsertAt(x: AppEntry, sorted: seq<AppEntry>, j: nat)
    requires j <= |sorted|
    requires forall k :: j <= k < |sorted| ==> sorted[k].updatedAt < x.updatedAt
    requires j == 0 || sorted[j - 1].updatedAt >= x.updatedAt
    ensures Insert(x, sorted) == sorted[..j] + [x] + sorted[j..]
    decreases |sorted|
  {
    if j < |sorted| {
      var init := sorted[..|sorted| - 1];
      InsertAt(x, init, j);
      assert sorted[j..] == init[j..] + [sorted[|sorted| - 1]];
      assert init[..j] == sorted[..j];
    }
  }

  /** The array contents after the scan stopped at `j` and `x` was written
      there: `before` with `x` inserted into the prefix before index `i`. */
  lemma ShiftedIsInsert(before: seq<AppEntry>, after: seq<AppEntry>, i: nat, j: nat)
    requires j <= i < |before| == |after|
    requires forall k :: j <= k < i ==> before[k].updatedAt < before[i].updatedAt
    requires j == 0 || before[j - 1].updatedAt >= before[i].updatedAt
    requires forall k :: 0 <= k < j ==> after[k] == before[k]
    requires after[j] == before[i]
    requires forall k :: j < k <= i ==> after[k] == before[k - 1]
    requires forall k :: i < k < |after| ==> after[k] == before[k]
    ensures after[..i + 1] == Insert(before[i], before[..i])
    ensures after[i + 1..] == before[i + 1..]
  {
    var sorted := before[..i];
    InsertAt(before[i], sorted, j);
    var inserted := sorted[..j] + [before[i]] + sorted[j..];
    forall k | 0 <= k <= i
      ensures after[k] == inserted[k]
    {
      if k < j {
        assert inserted[k] == sorted[k];
      } else if j < k {
        assert inserted[k] == sorted[k - 1];
      }
    }
    assert after[..i + 1] == inserted;
  }

  /** One step of the insertion sort: the entry at index `i` moves left past
      the older entries of the newest-first prefix before it. */
  method InsertIntoPrefix(a: array<AppEntry>, i: nat)
    requires i < a.Length
    modifies a
    ensures a[..i + 1] == Insert(old(a[i]), old(a[..i]))
    ensures a[i + 1..] == old(a[i + 1..])
  {
    ghost var before := a[..];
    var x := a[i];
    var j := i;
    while j > 0 && a[j - 1].updatedAt < x.updatedAt
      invariant 0 <= j <= i
      invariant forall k :: 0 <= k < j ==> a[k] == before[k]
      invariant forall k :: j < k <= i ==> a[k] == before[k - 1]
      invariant forall k :: i < k < a.Length ==> a[k] == before[k]
      invariant forall k :: j <= k < i ==> before[k].updatedAt < x.updatedAt
    {
      a[j] := a[j - 1];
      j := j - 1;
    }
    a[j] := x;
    ShiftedIsInsert(before, a[..], i, j);
  }

  /** The source's in-place sort of the `apps` array, as an insertion sort
      that shifts older entries one slot to the right. */
  method SortByUpdatedAt(a: array<AppEntry>)
    modifies a
    ensures a[..] == SortNewestFirst(old(a[..]))
  {
    ghost var input := a[..];
    for i := 0 to a.Length
      invariant a[..i] == SortNewestFirst(input[..i])
      invariant a[i..] == input[i..]
    {
      assert input[..i + 1][..i] == input[..i];
      assert a[i] == input[i];
      InsertIntoPrefix(a, i);
    }
    assert input[..a.Length] == input;
  }
}
