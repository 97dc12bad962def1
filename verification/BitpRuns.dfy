/** A run of the back-in-time tree whose answer misses a burst. */
module BitpRuns {
  import opened Counts
  import opened Products
  import opened MisraGriesSketch
  import opened Timeline
  import opened Batches
  import opened BitpNodes
  import opened BitpRows
  import opened BitpQuery
  import opened BitpBound
  import opened BitpSketch

  // ----- the oldest leaf is no node of its own

  lemma {:induction false} FirstStart(row: seq<Node>, j: nat)
    requires Placed(row, 0) && j < |row|
    ensures row[j].start == row[0].start + j
  {
    assert row[j].size == 1;
    if j > 0 {
      FirstStart(row, j - 1);
      assert row[j - 1].End() == row[j].start;
    }
  }

  /** With more leaves than the first level may keep, a node from the first leaf on holds two at least. */
  lemma OldestIsLarger(rows: Rows, leaves: seq<Batch>, k: nat, level: nat, n: Node)
    requires Standing(rows, leaves) && Roots(rows, 0, |leaves|) && Sized(rows, k, level, 0) && 0 < level
    requires 2 * k + 1 < |leaves| && n in NodesOf(rows) && n.start == 0
    ensures 2 <= n.End()
  {
    hide Standing, Roots, Sized, Placed;
    var l, i :| 0 <= l < |rows| && 0 <= i < |rows[l]| && rows[l][i] == n;
    StandingPlaced(rows, leaves, l, i);
    if l == 0 {
      FirstRow(rows, leaves, k, level);
      FirstStart(rows[0], i);
      FirstStart(rows[0], |rows[0]| - 1);
    }
  }

  lemma StandingPlaced(rows: Rows, leaves: seq<Batch>, l: nat, i: nat)
    requires Standing(rows, leaves) && l < |rows| && i < |rows[l]|
    ensures Placed(rows[l], l) && rows[l][i].size == Pow2(l) && (l > 0 ==> 2 <= Pow2(l))
  {
  }

  lemma FirstRow(rows: Rows, leaves: seq<Batch>, k: nat, level: nat)
    requires Standing(rows, leaves) && Roots(rows, 0, |leaves|) && Sized(rows, k, level, 0) && 0 < level
    requires rows[0] != []
    ensures |rows[0]| <= 2 * k + 1 && rows[0][|rows[0]| - 1].End() == |leaves| && Placed(rows[0], 0)
  {
  }

  /** The first level is left once there are more leaves than it waits for. */
  lemma FirstLevelFills(s: TreeMisraGriesBITP)
    requires s.Valid() && s.quota == 2 * s.k
    ensures s.level == 0 ==> |s.leaves| <= 2 * s.k
  {
    hide *;
    s.ValidParts();
    s.StableParts();
    s.CurParts();
    s.StagedParts();
    StandingLength(s.rows, s.leaves);
    if s.level == 0 {
      TopLevelSmall(s.rows);
      s.NothingPruned();
      RootsCount(s.rows, s.leaves, 0, |s.leaves|);
      s.OneIsPow2();
      s.TimesOne(|s.rows[0]|);
    }
  }

  /** So where the walk stops for the time of the first leaf it misses the second one, too. */
  lemma HoleTakesTwo(s: TreeMisraGriesBITP, ts: nat, lo: nat, m: nat)
    requires s.Valid() && s.quota == 2 * s.k && 2 * s.k + 1 < |s.leaves|
    requires s.leaves[0].ts == ts < s.leaves[1].ts && forall i :: 1 < i < |s.leaves| ==> ts < s.leaves[i].ts
    requires Hole(s.rows, s.leaves, ts, lo, m) && (m < |s.leaves| ==> ts < s.leaves[m].ts)
    ensures 2 <= m <= |s.leaves|
  {
    hide *;
    FirstLevelFills(s);
    s.ValidParts();
    s.StableParts();
    s.CurParts();
    s.StagedParts();
    HoleNode(s.rows, s.leaves, s.k, s.level, ts, lo, m);
  }

  lemma HoleNode(rows: Rows, leaves: seq<Batch>, k: nat, level: nat, ts: nat, lo: nat, m: nat)
    requires Standing(rows, leaves) && Roots(rows, 0, |leaves|) && Sized(rows, k, level, 0) && 0 < level
    requires 2 * k + 1 < |leaves| && leaves[0].ts == ts && forall i :: 1 <= i < |leaves| ==> ts < leaves[i].ts
    requires Hole(rows, leaves, ts, lo, m) && (m < |leaves| ==> ts < leaves[m].ts)
    ensures 2 <= m <= |leaves|
  {
    hide Standing, Roots, Sized, NodesOf;
    if m > 0 {
      var n :| n in NodesOf(rows) && n.left == null && n.start == lo && n.End() == m;
      OldestIsLarger(rows, leaves, k, level, n);
    }
  }

  // ----- the run

  /** What has come by the times 1 and 2, the latter of key 0 only. */
  ghost predicate Burst(events: seq<Event>, b: nat) {
    && Started(events, 1) && Seen(events, 1) == multiset{1}
    && Seen(events, 2)[0] == b && Keys(events)[0] == b
  }

  lemma BurstStarts()
    ensures Burst([] + [Event(1, 1)], 0)
  {
    hide Seen, Keys;
    var e := Event(1, 1);
    OnlyOne([] + [e], e, 1);
    OnlyOne([] + [e], e, 2);
  }

  lemma OnlyOne(events: seq<Event>, e: Event, t: nat)
    requires events == [e] && 0 < e.ts <= t
    ensures Started(events, t) && Seen(events, t) == multiset{e.key} == Keys(events)
  {
    assert events[..0] == [] && e in events;
  }

  lemma BurstGrows(events: seq<Event>, b: nat)
    requires Burst(events, b)
    ensures Burst(events + [Event(2, 0)], b + 1)
  {
    var e := Event(2, 0);
    Append(events, e, 1);
    AppendKeys(events, e);
    assert (events + [e])[..|events|] == events;
  }

  lemma BurstStays(events: seq<Event>, b: nat, ts: nat)
    requires Burst(events, b) && 2 < ts
    ensures Burst(events + [Event(ts, 1)], b)
  {
    var e := Event(ts, 1);
    Append(events, e, 1);
    Append(events, e, 2);
    AppendKeys(events, e);
  }

  /** One leaf for each time up to the last. */
  ghost predicate OneEach(leaves: seq<Batch>, last: nat) {
    |leaves| + 1 == last && forall i :: 0 <= i < |leaves| ==> leaves[i].ts == i + 1
  }

  lemma OneMore(before: seq<Batch>, after: seq<Batch>, last: nat)
    requires OneEach(before, last) && LeafCut(before, after, last, last + 1)
    ensures OneEach(after, last + 1)
  {
    forall i | 0 <= i < |after| ensures after[i].ts == i + 1 {
      assert i < |before| ==> after[i] == after[..|after| - 1][i] == before[i];
    }
  }

  lemma NoneMore(before: seq<Batch>, after: seq<Batch>, last: nat, ts: nat)
    requires LeafCut(before, after, last, ts) && (last == 0 || last == ts)
    ensures after == before
  {
  }

  lemma OneEachSplits(leaves: seq<Batch>, last: nat)
    requires OneEach(leaves, last) && 3 < last
    ensures Splits(leaves, 2, 2) && leaves[0].ts == 1 && forall i :: 1 <= i < |leaves| ==> 1 < leaves[i].ts
  {
  }

  lemma StartedLater(events: seq<Event>)
    requires Started(events, 1)
    ensures Known(events, 1) && Known(events, 2)
  {
    var e :| e in events && 0 < e.ts <= 1;
  }

  /** Whatever starts behind the second leaf holds nothing of the burst. */
  lemma BurstIsPurged(events: seq<Event>, leaves: seq<Batch>, last: nat, b: nat, m: nat)
    requires Burst(events, b) && OneEach(leaves, last) && 3 < last && Told(events, leaves, last) && 2 <= m <= |leaves|
    ensures (Keys(events) - Purged(leaves[..m]))[0] == 0
  {
    hide Purged, Seen, Keys, Started, Known, Splits, OneEach;
    OneEachSplits(leaves, last);
    StartedLater(events);
    assert Seen(events, 2) == Purged(leaves[..2]);
    PurgedJoin(leaves, 0, 2, m);
    assert leaves[0..m] == leaves[..m] && leaves[0..2] == leaves[..2];
  }

  lemma BurstIsMissed(s: TreeMisraGriesBITP, b: nat, r: Table, lo: nat, m: nat)
    requires s.Valid() && s.quota == 2 * s.k && OneEach(s.leaves, s.lastTs) && 2 * s.k + 3 == s.lastTs
    requires Burst(s.events, b) && m <= |s.leaves| && Hole(s.rows, s.leaves, 1, lo, m)
    requires m < |s.leaves| ==> 1 < s.leaves[m].ts
    requires Answered(s.third, r, s.From(m), Seen(s.events, 1), Keys(s.events), Between(s.leaves, lo, m))
    ensures Get(r, 0) == 0
  {
    hide *;
    s.ValidParts();
    s.CurParts();
    LeavesCount(s.leaves, s.lastTs);
    OneEachSplits(s.leaves, s.lastTs);
    HoleTakesTwo(s, 1, lo, m);
    BurstIsPurged(s.events, s.leaves, s.lastTs, b, m);
    s.FromIs(m);
    NothingAnswered(s.third, r, s.From(m), Seen(s.events, 1), Keys(s.events), Between(s.leaves, lo, m));
  }

  lemma LeavesCount(leaves: seq<Batch>, last: nat)
    requires OneEach(leaves, last)
    ensures |leaves| + 1 == last
  {
  }

  lemma NothingAnswered(third: Third, r: Table, q: multiset<Key>, seen: multiset<Key>, all: multiset<Key>,
                        missed: multiset<Key>)
    requires Answered(third, r, q, seen, all, missed) && q[0] == 0
    ensures Get(r, 0) == 0
  {
    assert Tolerable(third, q[0], |q|, Get(r, 0));
  }

  /** A burst that makes up more than the tolerance of all there is may not be missed. */
  lemma MissesTooMuch(third: Third, r: Table, seen: multiset<Key>, all: multiset<Key>, b: nat, rest: nat)
    requires Get(r, 0) == 0 && seen == multiset{1} <= all && all[0] == b && |all| == 1 + b + rest
    requires b as real * (1.0 - 3.0 * third) > 3.0 * third * rest as real
    ensures !PromisedSince(third, 1, r, seen, all)
  {
    hide SinceAt;
    WithoutOne(seen, all);
    NotSince(third, b, rest);
    assert !SinceAt(third, 1, Get(r, 0), (all - seen)[0], |all - seen|);
  }

  lemma WithoutOne(seen: multiset<Key>, all: multiset<Key>)
    requires seen == multiset{1} <= all
    ensures |all - seen| + 1 == |all| && (all - seen)[0] == all[0]
  {
    assert all == (all - seen) + seen;
  }

  lemma NotSince(third: Third, b: nat, rest: nat)
    requires b as real * (1.0 - 3.0 * third) > 3.0 * third * rest as real
    ensures !SinceAt(third, 1, 0, b, b + rest)
  {
    var u, v, w := b as real, rest as real, 3.0 * third;
    assert u * (1.0 - w) == u - w * u;
    assert w * (u + v) == w * u + w * v;
    assert (b + rest) as real == u + v;
  }

  /** Adds one occurrence where there is room for one more leaf. */
  method Feed(s: TreeMisraGriesBITP, ts: nat, x: Key)
    requires s.Valid() && s.lastTs <= ts && s.quota == 2 * s.k && |s.leaves| + 1 < Pow2(64)
    modifies s, s.tree, s.rightMost, NodesOf(s.rows), s.cur
    ensures s.Valid() && s.quota == 2 * s.k && s.lastTs == ts && s.events == old(s.events) + [Event(ts, x)]
    ensures LeafCut(old(s.leaves), s.leaves, old(s.lastTs), ts)
    ensures s.cur == old(s.cur) || fresh(s.cur)
    ensures forall n <- NodesOf(s.rows) :: n in old(NodesOf(s.rows)) || fresh(n)
  {
    hide *;
    var ok := s.Update(ts, x);
    assert ok;
  }

  /** The sketch after b occurrences of the burst, with one occurrence at time 1 and at each from 3 to last. */
  ghost predicate At(s: TreeMisraGriesBITP, b: nat, last: nat)
    reads s, s.cur, s.tree, s.rightMost, NodesOf(s.rows)
  {
    && s.Valid() && s.quota == 2 * s.k && s.lastTs == last && Burst(s.events, b) && OneEach(s.leaves, last)
    && |s.events| == 1 + b + if last <= 2 then 0 else last - 2
  }

  lemma AtParts(s: TreeMisraGriesBITP, b: nat, last: nat)
    requires At(s, b, last)
    ensures s.Valid() && s.quota == 2 * s.k && s.lastTs == last && Burst(s.events, b) && OneEach(s.leaves, last)
    ensures |s.events| == 1 + b + (if last <= 2 then 0 else last - 2) && |s.leaves| + 1 == last
  {
    hide Burst;
  }

  lemma IsAt(s: TreeMisraGriesBITP, b: nat, last: nat)
    requires s.Valid() && s.quota == 2 * s.k && s.lastTs == last && Burst(s.events, b) && OneEach(s.leaves, last)
    requires |s.events| == 1 + b + if last <= 2 then 0 else last - 2
    ensures At(s, b, last)
  {
    hide Burst, OneEach;
  }

  /** The first occurrence. */
  method Begin(third: Third) returns (s: TreeMisraGriesBITP)
    requires third < 1.0
    ensures At(s, 0, 1) && s.third == third && s.k == Ceil(1.0 / third)
    ensures fresh(s) && fresh(s.tree) && fresh(s.rightMost) && fresh(s.cur) && forall n <- NodesOf(s.rows) :: fresh(n)
  {
    hide *;
    Outgrown(64);
    s := new TreeMisraGriesBITP(third);
    Feed(s, 1, 1);
    BurstStarts();
    NoneMore([], s.leaves, 0, 1);
    NoneEach();
    IsAt(s, 0, 1);
  }

  lemma NoneEach()
    ensures OneEach([], 1)
  {
  }

  /** One more of the burst. */
  method More(s: TreeMisraGriesBITP, b: nat, last: nat)
    requires At(s, b, last) && 1 <= last <= 2
    modifies s, s.tree, s.rightMost, NodesOf(s.rows), s.cur
    ensures At(s, b + 1, 2)
    ensures s.cur == old(s.cur) || fresh(s.cur)
    ensures forall n <- NodesOf(s.rows) :: n in old(NodesOf(s.rows)) || fresh(n)
  {
    hide *;
    AtParts(s, b, last);
    Outgrown(64);
    BurstGrows(s.events, b);
    Feed(s, 2, 0);
    if last == 1 { OneMore(old(s.leaves), s.leaves, 1); } else { NoneMore(old(s.leaves), s.leaves, 2, 2); }
    IsAt(s, b + 1, 2);
  }

  lemma {:induction false} Outgrown(n: nat)
    ensures n < Pow2(n)
  {
    if n > 0 { Outgrown(n - 1); }
  }

  /** One more time with a single occurrence. */
  method Single(s: TreeMisraGriesBITP, b: nat, last: nat)
    requires At(s, b, last) && 2 <= last && last < Pow2(64)
    modifies s, s.tree, s.rightMost, NodesOf(s.rows), s.cur
    ensures At(s, b, last + 1)
    ensures s.cur == old(s.cur) || fresh(s.cur)
    ensures forall n <- NodesOf(s.rows) :: n in old(NodesOf(s.rows)) || fresh(n)
  {
    hide *;
    AtParts(s, b, last);
    BurstStays(s.events, b, last + 1);
    Feed(s, last + 1, 1);
    OneMore(old(s.leaves), s.leaves, last);
    IsAt(s, b, last + 1);
  }

  /** What the run leaves is answered for time 1 as if the burst had not been. */
  method Ask(s: TreeMisraGriesBITP, b: nat) returns (mg: MisraGries)
    requires At(s, b, 2 * s.k + 3)
    requires b as real * (1.0 - 3.0 * s.third) > 3.0 * s.third * (2 * s.k + 1) as real
    ensures 1 < s.lastTs && Known(s.events, 1)
    ensures Keys(s.events)[0] == b && Seen(s.events, 1) == multiset{1} && Get(mg.cnt, 0) == 0
    ensures !PromisedSince(s.third, 1, mg.cnt, Seen(s.events, 1), Keys(s.events))
  {
    hide *;
    AtParts(s, b, 2 * s.k + 3);
    s.ValidParts();
    BurstParts(s.events, b);
    var est;
    ghost var m, lo, cut;
    mg, est, m, lo, cut := s.CreateTmpMgAt(1);
    BurstIsMissed(s, b, mg.cnt, lo, m);
    AnsweredSees(s.third, mg.cnt, s.From(m), Seen(s.events, 1), Keys(s.events), Between(s.leaves, lo, m));
    MissesTooMuch(s.third, mg.cnt, Seen(s.events, 1), Keys(s.events), b, 2 * s.k + 1);
  }

  lemma BurstParts(events: seq<Event>, b: nat)
    requires Burst(events, b)
    ensures Known(events, 1) && Seen(events, 1) == multiset{1} && Keys(events)[0] == b
  {
    hide Seen, Keys, Started;
  }

  lemma AnsweredSees(third: Third, r: Table, q: multiset<Key>, seen: multiset<Key>, all: multiset<Key>,
                     missed: multiset<Key>)
    requires Answered(third, r, q, seen, all, missed)
    ensures seen <= all
  {
  }

  /**
   For every tolerance below 1 a burst that is large enough is missed: its leaf and the one before it have
   been pruned into one node by the time their number exceeds what the first level keeps.
   */
  method BurstRun(third: Third, burst: nat) returns (s: TreeMisraGriesBITP, mg: MisraGries)
    requires 3.0 * third < 1.0 && 2 * Ceil(1.0 / third) + 3 < Pow2(64)
    requires burst as real * (1.0 - 3.0 * third) > 3.0 * third * (2 * Ceil(1.0 / third) + 1) as real
    ensures s.Valid() && s.third == third && 1 < s.lastTs && Known(s.events, 1)
    ensures Keys(s.events)[0] == burst && Seen(s.events, 1) == multiset{1} && Get(mg.cnt, 0) == 0
    ensures !PromisedSince(third, 1, mg.cnt, Seen(s.events, 1), Keys(s.events))
  {
    hide *;
    CeilCovers(third);
    s := Begin(third);
    var b, last := 0, 1;
    while b < burst
      invariant b <= burst && At(s, b, last) && last == (if b == 0 then 1 else 2)
      invariant s.third == third && s.k == Ceil(1.0 / third)
      invariant fresh(s) && fresh(s.tree) && fresh(s.rightMost) && fresh(s.cur)
      invariant forall n <- NodesOf(s.rows) :: fresh(n)
    {
      More(s, b, last);
      b, last := b + 1, 2;
    }
    BurstIsSome(third, burst, s.k);
    while last < 2 * s.k + 3
      invariant 2 <= last <= 2 * s.k + 3 && At(s, b, last)
      invariant s.third == third && s.k == Ceil(1.0 / third)
      invariant fresh(s) && fresh(s.tree) && fresh(s.rightMost) && fresh(s.cur)
      invariant forall n <- NodesOf(s.rows) :: fresh(n)
    {
      Single(s, b, last);
      last := last + 1;
    }
    AtParts(s, b, last);
    s.ValidParts();
    mg := Ask(s, b);
  }

  lemma BurstIsSome(third: Third, burst: nat, k: nat)
    requires burst as real * (1.0 - 3.0 * third) > 3.0 * third * (2 * k + 1) as real
    ensures 0 < burst
  {
    assert 3.0 * third * (2 * k + 1) as real >= 0.0;
  }
}
