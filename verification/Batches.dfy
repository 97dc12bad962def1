/** Batches of counters and what merging any run of them promises. */
module Batches {
  import opened Products
  import opened Counts
  import opened MisraGriesSpec
  import opened Timeline

  /**
   Counters handed over at time ts with the total count then, and the occurrences they
   stand for; what was left of the running sketch, and how much may come before the next batch.
   */
  datatype Batch = Batch(ts: nat, total: nat, counts: Table, items: multiset<Key>, residue: Table, room: nat)

  /** `m_mg` of a tree node; every stored sketch has no pending subtraction. */
  datatype Sketch = Dropped | Kept(cnt: Table)

  // ----- merging runs of batches

  ghost function Purged(bs: seq<Batch>): multiset<Key> {
    if bs == [] then multiset{} else Purged(bs[..|bs| - 1]) + bs[|bs| - 1].items
  }

  /** t is what merging the counters of the batches, each once and in some nesting, yields. */
  ghost predicate MergeOf(k: nat, bs: seq<Batch>, t: Table)
    decreases |bs|
  {
    if bs == [] then t == map[]
    else if |bs| == 1 then t == bs[0].counts
    else exists i, a, b :: 0 < i < |bs| && MergeOf(k, bs[..i], a) && MergeOf(k, bs[i..], b) && Merged(k, a, b, t)
  }

  ghost predicate Storable(k: nat, bs: seq<Batch>) {
    forall b <- bs :: Positive(b.counts) && |b.counts| <= k && Credit(k, b.counts, b.items)
  }

  lemma {:induction false} PurgedAppend(a: seq<Batch>, b: seq<Batch>)
    ensures Purged(a + b) == Purged(a) + Purged(b)
  {
    if b == [] {
      assert a + b == a;
    } else {
      var n := |b| - 1;
      assert (a + b)[..|a + b| - 1] == a + b[..n];
      PurgedAppend(a, b[..n]);
    }
  }

  lemma ExactCredit(k: nat, t: Table)
    ensures Credit(k, t, Exactly(t)) && |Exactly(t)| == Sum(t)
  {
    ExactlyHasCredit(k, t);
  }

  lemma PurgedOne(bs: seq<Batch>, b: Batch)
    ensures Purged(bs + [b]) == Purged(bs) + b.items
  {
    assert (bs + [b])[..|bs|] == bs;
  }

  lemma SubmapSize(a: Table, b: Table)
    requires a.Keys <= b.Keys
    ensures |a| <= |b|
  {
    Subset(a.Keys, b.Keys);
    assert |a| == |a.Keys| && |b| == |b.Keys|;
  }

  /** However the merges were nested, nothing is overcounted and undercounts are paid for. */
  lemma {:induction false} MergeOfCredit(k: nat, bs: seq<Batch>, t: Table)
    requires 0 < k && Storable(k, bs) && MergeOf(k, bs, t)
    ensures Credit(k, t, Purged(bs)) && Positive(t) && |t| <= k
    decreases |bs|
  {
    hide Credit, Merged, Positive, Purged;
    if |bs| <= 1 {
      SmallCredit(k, bs, t);
    } else {
      var i, a, b :| 0 < i < |bs| && MergeOf(k, bs[..i], a) && MergeOf(k, bs[i..], b) && Merged(k, a, b, t);
      MergeOfCredit(k, bs[..i], a);
      MergeOfCredit(k, bs[i..], b);
      PurgedSplit(bs, i);
      MergeKeepsCredit(k, a, b, t, Purged(bs[..i]), Purged(bs[i..]));
    }
  }

  lemma SmallCredit(k: nat, bs: seq<Batch>, t: Table)
    requires |bs| <= 1 && Storable(k, bs) && MergeOf(k, bs, t)
    ensures Credit(k, t, Purged(bs)) && Positive(t) && |t| <= k
  {
    hide Credit;
    if bs == [] {
      NothingHasCredit(k);
    } else {
      assert bs[..0] == [];
      assert Purged(bs) == multiset{} + bs[0].items == bs[0].items;
    }
  }

  lemma PurgedSplit(bs: seq<Batch>, i: nat)
    requires i <= |bs|
    ensures Purged(bs) == Purged(bs[..i]) + Purged(bs[i..])
  {
    hide Purged;
    PurgedAppend(bs[..i], bs[i..]);
    assert bs[..i] + bs[i..] == bs;
  }

  lemma NothingHasCredit(k: nat)
    ensures Credit(k, map[], multiset{}) && Positive(map[])
  {
  }

  lemma MergedCommutes(k: nat, a: Table, b: Table, t: Table)
    requires Merged(k, a, b, t)
    ensures Merged(k, b, a, t)
  {
    assert Add(a, b) == Add(b, a);
  }

  /** Merging an older run into a newer one that follows it. */
  lemma MergeOlder(k: nat, bs: seq<Batch>, i: nat, a: Table, b: Table, t: Table)
    requires 0 < k && Storable(k, bs) && 0 < i <= |bs|
    requires MergeOf(k, bs[..i], a) && MergeOf(k, bs[i..], b) && Merged(k, b, a, t)
    ensures MergeOf(k, bs, t)
  {
    hide Merged, MergeOf;
    MergedCommutes(k, b, a, t);
    if i == |bs| {
      assert bs[..i] == bs && bs[i..] == [];
      MergeOfCredit(k, bs, a);
      MergeOfNone(k, b);
      MergedNothing(k, a, t);
    } else {
      MergeOfTwo(k, bs, i, a, b, t);
    }
  }

  /** Merging a newer run into the older one before it, or into an empty sketch. */
  lemma MergeNewer(k: nat, bs: seq<Batch>, lo: nat, hi: nat, a: Table, b: Table, t: Table)
    requires 0 < k && lo < hi <= |bs| && Storable(k, bs)
    requires MergeOf(k, bs[..lo], a) && MergeOf(k, bs[lo..hi], b) && Merged(k, a, b, t)
    ensures MergeOf(k, bs[..hi], t)
  {
    hide Merged, MergeOf, Storable;
    var all := bs[..hi];
    assert all[..lo] == bs[..lo] && all[lo..] == bs[lo..hi];
    assert bs == bs[..lo] + bs[lo..hi] + bs[hi..];
    if lo == 0 {
      StorablePart(k, bs[..lo] + bs[lo..hi], bs[hi..]);
      assert bs[..lo] + bs[lo..hi] == bs[lo..hi] == all;
      assert bs[..0] == [];
      MergeOfNone(k, a);
      MergedCommutes(k, a, b, t);
      MergeOfCredit(k, all, b);
      MergedNothing(k, b, t);
    } else {
      MergeOfTwo(k, all, lo, a, b, t);
    }
  }

  lemma MergeOfTwo(k: nat, bs: seq<Batch>, i: nat, a: Table, b: Table, t: Table)
    requires 0 < i < |bs| && MergeOf(k, bs[..i], a) && MergeOf(k, bs[i..], b) && Merged(k, a, b, t)
    ensures MergeOf(k, bs, t)
  {
    hide Merged;
  }

  lemma MergeOfNone(k: nat, t: Table)
    requires MergeOf(k, [], t)
    ensures t == map[]
  {
  }

  lemma MergedNothing(k: nat, a: Table, t: Table)
    requires |a| <= k && Merged(k, a, map[], t)
    ensures t == a
  {
    assert Add(a, map[]) == a;
  }

  lemma StorablePart(k: nat, a: seq<Batch>, b: seq<Batch>)
    requires Storable(k, a + b)
    ensures Storable(k, a) && Storable(k, b)
  {
    forall x <- a ensures x in a + b {}
    forall x <- b ensures x in a + b {}
  }

  lemma StorableOne(k: nat, a: seq<Batch>, b: Batch)
    requires Storable(k, a) && Storable(k, [b])
    ensures Storable(k, a + [b])
  {
    assert b in [b];
  }

  lemma StorableRange(k: nat, bs: seq<Batch>, c: nat, m: nat)
    requires c <= m <= |bs| && Storable(k, bs)
    ensures Storable(k, bs[c..m])
  {
    forall b <- bs[c..m] ensures b in bs {}
  }

  lemma NothingMerged(k: nat)
    ensures MergeOf(k, [], map[])
  {
  }

  /** Merging one run after another. */
  lemma MergeRuns(k: nat, a: seq<Batch>, b: seq<Batch>, ta: Table, tb: Table, t: Table)
    requires 0 < k && Storable(k, a + b) && b != []
    requires MergeOf(k, a, ta) && MergeOf(k, b, tb) && Merged(k, ta, tb, t)
    ensures MergeOf(k, a + b, t)
  {
    hide *;
    var all := a + b;
    assert all[..|a|] == a && all[|a|..|all|] == b && all[..|all|] == all;
    MergeNewer(k, all, |a|, |all|, ta, tb, t);
  }

  // ----- batches and time

  ghost predicate NotLater(bs: seq<Batch>, n: nat, t: nat)
    requires n <= |bs|
  {
    forall i :: 0 <= i < n ==> bs[i].ts <= t
  }

  ghost predicate Later(bs: seq<Batch>, n: nat, t: nat) {
    forall i :: n <= i < |bs| ==> t < bs[i].ts
  }

  /** The batches split at time t: the first n are not later, the others are. */
  ghost predicate Splits(bs: seq<Batch>, t: nat, n: nat) {
    n <= |bs| && NotLater(bs, n, t) && Later(bs, n, t)
  }

  ghost predicate Sorted(bs: seq<Batch>) {
    forall i, j :: 0 <= i < j < |bs| ==> bs[i].ts < bs[j].ts
  }

  lemma SplitsAt(bs: seq<Batch>, t: nat)
    ensures forall n: nat | n <= |bs| && NotLater(bs, n, t) && Later(bs, n, t) :: Splits(bs, t, n)
  {
  }

  lemma LaterMore(bs: seq<Batch>, m: nat, n: nat, t: nat)
    requires Later(bs, m, t) && m <= n
    ensures Later(bs, n, t)
  {
  }

  lemma UpTo(bs: seq<Batch>, n: nat, t: nat)
    requires Sorted(bs) && 0 < n <= |bs|
    ensures bs[n - 1].ts <= t ==> NotLater(bs, n, t)
    ensures t < bs[n - 1].ts ==> Later(bs, n - 1, t)
  {
  }

  lemma SortedRange(bs: seq<Batch>, c: nat, m: nat)
    requires c <= m <= |bs| && Sorted(bs)
    ensures Sorted(bs[c..m])
  {
  }

  // ----- splitting a sketch

  /** Moving exact counts out of the sketch leaves the rest of it as good for the rest of the history. */
  lemma SplitKeepsCredit(k: nat, e: Table, p: Table, r: Table, h: multiset<Key>)
    requires Credit(k, e, h) && Add(p, r) == e
    ensures Exactly(p) <= h && Credit(k, r, h - Exactly(p))
  {
    hide Sum, Exactly, Add, Owed;
    var q := Exactly(p);
    SumAdd(p, r);
    forall x: Key ensures Get(e, x) == q[x] + Get(r, x) && q[x] <= h[x] {
      assert Owed(k, e, h, x);
      AddAt(p, r, x);
      OwedBound(k, e, h, x);
    }
    assert q <= h;
    assert |h| == |q| + |h - q| by { assert h == q + (h - q); }
    forall x: Key ensures Owed(k, r, h - q, x) {
      assert Owed(k, e, h, x);
      assert Get(e, x) == q[x] + Get(r, x);
      ShiftOwed(k, e, r, h, q, x);
    }
  }

  lemma AddAt(a: Table, b: Table, x: Key)
    ensures Get(Add(a, b), x) == Get(a, x) + Get(b, x)
  {
  }

  lemma OwedBound(k: nat, e: Table, h: multiset<Key>, x: Key)
    requires Owed(k, e, h, x)
    ensures Get(e, x) <= h[x]
  {
  }

  lemma ShiftOwed(k: nat, e: Table, r: Table, h: multiset<Key>, q: multiset<Key>, x: Key)
    requires Owed(k, e, h, x) && Get(e, x) == q[x] + Get(r, x) && |h| - Sum(e) == |h - q| - Sum(r)
    ensures Owed(k, r, h - q, x)
  {
    hide Sum, Times, Get;
    assert (h - q)[x] - Get(r, x) == h[x] - Get(e, x);
  }
}
