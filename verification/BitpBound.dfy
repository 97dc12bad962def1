/**
 How much a back-in-time query may miss: pruning leaves every node that has lost its children
 small against what came after it.
 */
module BitpBound {
  import opened Products
  import opened Counts
  import opened Timeline
  import opened Batches
  import opened BitpNodes
  import opened BitpRows
  import opened BitpQuery

  // ----- few nodes are kept

  lemma {:induction false} RowIsShort(rows: Rows, k: nat, level: nat, l: nat)
    requires 2 <= k && level < |rows| == 64 && Sized(rows, k, level, 0) && |rows[level]| <= 2 * k && l < 64
    ensures |rows[l]| <= 2 * k + 1
    decreases l
  {
    if l > level {
      RowIsShort(rows, k, level, l - 1);
      assert |rows[l - 1]| / 2 == |rows[l - 1 + 1]|;
    }
  }

  lemma FirstIsLarge(rows: Rows, leaves: seq<Batch>, l: nat)
    requires Standing(rows, leaves) && l < 64 && rows[l] != []
    ensures 0 < Pow2(l) <= |leaves|
  {
    hide Pow2;
    var n := rows[l][0];
    assert AllStamped(leaves, rows[l]) && Placed(rows[l], l);
    assert Stamped(leaves, n) && n.size == Pow2(l) && 0 < n.size;
  }

  /** A node of level l has 2^l leaves behind it. */
  lemma RowIsLow(rows: Rows, leaves: seq<Batch>, l: nat)
    requires Standing(rows, leaves) && l < 64 && l > FloorLog2(|leaves|)
    ensures rows[l] == []
  {
    hide *;
    StandingLength(rows, leaves);
    if rows[l] != [] {
      FirstIsLarge(rows, leaves, l);
      FloorLog2Bounds(|leaves|);
      Pow2Rises(FloorLog2(|leaves|) + 1, l);
    }
  }

  lemma {:induction false} NodesAreFew(rows: Rows, b: nat, n: nat)
    requires n <= |rows| && forall l :: 0 <= l < n ==> |rows[l]| <= b
    ensures |NodesOf(rows[..n])| <= Times(b, n)
    decreases n
  {
    if n > 0 {
      NodesAreFew(rows, b, n - 1);
      var row := rows[n - 1];
      RowCount(row);
      assert NodesOf(rows[..n]) == NodesOf(rows[..n - 1]) + set x | x in row;
    } else {
      assert NodesOf(rows[..0]) == {};
    }
  }

  lemma {:induction false} RowCount(row: seq<Node>)
    ensures |set x | x in row| <= |row|
    decreases |row|
  {
    if row != [] {
      RowCount(row[1..]);
      assert (set x | x in row) == (set x | x in row[1..]) + {row[0]};
    }
  }

  /** All rows are short and those above the logarithm of the number of leaves are empty. */
  lemma FewInAll(rows: Rows, leaves: seq<Batch>, k: nat, level: nat)
    requires 2 <= k && level < |rows| == 64 && Sized(rows, k, level, 0) && |rows[level]| <= 2 * k
    requires Standing(rows, leaves) && |leaves| < Pow2(64)
    ensures |NodesOf(rows)| <= Times(2 * k + 1, FloorLog2(|leaves|) + 1)
  {
    hide Sized, Standing, Times, NodesOf;
    var n := FloorLog2(|leaves|) + 1;
    LogFits(|leaves|);
    forall l | 0 <= l < 64 ensures |rows[l]| <= 2 * k + 1 && (l >= n ==> rows[l] == []) {
      RowIsShort(rows, k, level, l);
      if l >= n { RowIsLow(rows, leaves, l); }
    }
    NodesAreFew(rows, 2 * k + 1, n);
    NodesBelow(rows, n);
  }

  lemma LogFits(n: nat)
    requires n < Pow2(64)
    ensures FloorLog2(n) < 64
  {
    hide Pow2;
    if 0 < n && FloorLog2(n) >= 64 {
      FloorLog2Bounds(n);
      Pow2Rises(64, FloorLog2(n));
    }
  }

  lemma NodesBelow(rows: Rows, n: nat)
    requires n <= |rows| && forall l :: n <= l < |rows| ==> rows[l] == []
    ensures NodesOf(rows) == NodesOf(rows[..n])
  {
    forall l, i | 0 <= l < |rows| && 0 <= i < |rows[l]| ensures rows[l][i] in NodesOf(rows[..n]) {
      assert rows[..n][l] == rows[l];
    }
  }

  // ----- childless nodes are small

  /** Placed nodes stand side by side. */
  lemma {:induction false} RowSpan(row: seq<Node>, l: nat, j: nat)
    requires Placed(row, l) && j < |row|
    ensures row[j].End() == row[0].start + Times(Pow2(l), j + 1)
  {
    hide Pow2;
    if j > 0 {
      RowSpan(row, l, j - 1);
      assert row[j - 1].End() == row[j].start;
    }
  }

  /** A node above level 0 that has no children: k times its leaves are at most those behind it. */
  lemma ChildlessIsSmall(rows: Rows, leaves: seq<Batch>, k: nat, level: nat, l: nat, i: nat)
    requires 2 <= k && Standing(rows, leaves) && Sized(rows, k, level, 0) && Families(rows, 65)
    requires 0 < l < |rows| && i < |rows[l]| && rows[l][i].left == null
    ensures k * rows[l][i].size <= |leaves| - rows[l][i].End()
  {
    hide *;
    var lo, up := rows[l - 1], rows[l];
    StandingLength(rows, leaves);
    RowsPlaced(rows, leaves, l);
    FamilyOf(rows, l);
    ChildlessAtFront(lo, up, i);
    LowerIsLong(rows, k, level, l);
    SmallBefore(lo, up, leaves, k, l, i);
  }

  lemma RowsPlaced(rows: Rows, leaves: seq<Batch>, l: nat)
    requires Standing(rows, leaves) && 0 < l < |rows|
    ensures Placed(rows[l - 1], l - 1) && Placed(rows[l], l) && AllStamped(leaves, rows[l - 1])
  {
    hide Placed, AllStamped;
  }

  lemma FamilyOf(rows: Rows, l: nat)
    requires Families(rows, 65) && |rows| == 64 && 0 < l < 64
    ensures Family(rows[l - 1], rows[l])
  {
    hide Family;
    assert Family(Row(rows, l - 1), Row(rows, l));
  }

  lemma ChildlessAtFront(lo: seq<Node>, up: seq<Node>, i: nat)
    requires Family(lo, up) && i < |up| && up[i].left == null
    ensures i < |up| - |lo| / 2
    ensures 2 <= |lo| ==> up[|up| - |lo| / 2].start == lo[0].start
  {
    var s := |up| - |lo| / 2;
    forall j | s <= j < |up| ensures up[j].left != null {
      assert up[s + (j - s)].left == lo[2 * (j - s)];
    }
    if 2 <= |lo| { assert up[s + 0].start == lo[2 * 0].start; }
  }

  lemma LowerIsLong(rows: Rows, k: nat, level: nat, l: nat)
    requires Sized(rows, k, level, 0) && 0 < l < |rows| && 0 < |rows[l]| - |rows[l - 1]| / 2
    ensures 2 * k <= |rows[l - 1]|
  {
    assert rows[l] == rows[l - 1 + 1];
  }

  lemma SmallBefore(lo: seq<Node>, up: seq<Node>, leaves: seq<Batch>, k: nat, l: nat, i: nat)
    requires 0 < l && Placed(lo, l - 1) && Placed(up, l) && AllStamped(leaves, lo)
    requires 1 <= k && 2 * k <= |lo| && i < |up| - |lo| / 2 && up[|up| - |lo| / 2].start == lo[0].start
    ensures k * up[i].size <= |leaves| - up[i].End()
  {
    var p, last := Pow2(l - 1), |lo| - 1;
    RowSpan(lo, l - 1, last);
    assert Stamped(leaves, lo[last]);
    assert up[i].End() <= up[|up| - |lo| / 2].start;
    TimesMonotone(p, 2 * k, |lo|);
    TimesIsProduct(p, 2 * k);
    assert k * (2 * p) == p * (2 * k);
  }

  lemma HoleIsSmall(rows: Rows, leaves: seq<Batch>, k: nat, level: nat, ts: nat, lo: nat, m: nat)
    requires 2 <= k && Standing(rows, leaves) && Sized(rows, k, level, 0) && Families(rows, 65)
    requires Hole(rows, leaves, ts, lo, m) && lo + 1 < m
    ensures m <= |leaves| && k * (m - lo) <= |leaves| - m
  {
    hide Standing, Sized, Families, Pow2;
    var n :| n in NodesOf(rows) && n.left == null && n.start == lo && n.End() == m;
    var l, i :| 0 <= l < |rows| && 0 <= i < |rows[l]| && rows[l][i] == n;
    if l == 0 {
      LeafIsOneLong(rows, leaves, i);
    } else {
      ChildlessIsSmall(rows, leaves, k, level, l, i);
    }
  }

  lemma LeafIsOneLong(rows: Rows, leaves: seq<Batch>, i: nat)
    requires Standing(rows, leaves) && i < |rows[0]|
    ensures rows[0][i].size == 1
  {
    assert Placed(rows[0], 0);
  }

  // ----- what a leaf stands for

  ghost predicate Timed(events: seq<Event>, t: nat) {
    0 < t && exists e :: e in events && e.ts == t
  }

  /** Something came at the time of every leaf, and at the last time there was. */
  ghost predicate Dated(events: seq<Event>, leaves: seq<Batch>, last: nat) {
    && (forall b <- leaves :: Timed(events, b.ts))
    && (last > 0 ==> Timed(events, last))
  }

  lemma NothingDated()
    ensures Dated([], [], 0)
  {
  }

  lemma AppendKeepsDated(events: seq<Event>, e: Event, leaves: seq<Batch>, last: nat)
    requires Dated(events, leaves, last)
    ensures Dated(events + [e], leaves, e.ts)
  {
    assert e in events + [e];
    forall b <- leaves ensures Timed(events + [e], b.ts) {
      var f :| f in events && f.ts == b.ts;
      assert f in events + [e];
    }
  }

  lemma LeafKeepsDated(events: seq<Event>, leaves: seq<Batch>, b: Batch, last: nat)
    requires Dated(events, leaves, last) && 0 < last && b.ts == last
    ensures Dated(events, leaves + [b], last)
  {
    hide Timed;
  }

  /** No more than burst occurrences share a positive timestamp. */
  ghost predicate Spread(events: seq<Event>, burst: nat) {
    forall t: nat | 0 < t :: |Seen(events, t)| <= |Seen(events, t - 1)| + burst
  }

  lemma {:induction false} TimedIsSeen(events: seq<Event>, t: nat)
    requires Timed(events, t)
    ensures |Seen(events, t - 1)| < |Seen(events, t)|
  {
    var n := |events| - 1;
    var front, last := events[..n], events[n];
    SeenGrows(front, t - 1, t);
    GrowthOf(Seen(front, t - 1), Seen(front, t), 0);
    if last.ts != t {
      var e :| e in events && e.ts == t;
      assert e in front;
      TimedIsSeen(front, t);
    }
  }

  lemma TimedIsStarted(events: seq<Event>, s: nat, t: nat)
    requires Timed(events, s) && s <= t
    ensures Known(events, t)
  {
    hide Seen;
    var e :| e in events && e.ts == s;
    assert 0 < e.ts <= t;
  }

  /** Leaf i holds the occurrences of one time, but for the first, which also holds those dated 0. */
  lemma LeafHolds(events: seq<Event>, leaves: seq<Batch>, last: nat, burst: nat, i: nat)
    requires Counting(leaves) && AllCounted(leaves) && CutBefore(leaves, last) && Told(events, leaves, last)
    requires Dated(events, leaves, last) && Spread(events, burst) && i < |leaves|
    ensures Before(leaves, i) < Before(leaves, i + 1)
    ensures 0 < i ==> Before(leaves, i + 1) <= Before(leaves, i) + burst
  {
    hide Seen, Known, Timed, Purged;
    var t := leaves[i].ts;
    assert Timed(events, t) by { assert leaves[i] in leaves; }
    TimedIsStarted(events, t, t);
    TimedIsSeen(events, t);
    TimeIsPositive(events, t);
    assert Splits(leaves, t, i + 1);
    assert Seen(events, t) == Purged(leaves[..i + 1]);
    assert |Purged(leaves[..i + 1])| == Before(leaves, i + 1);
    if 0 < i {
      assert Timed(events, leaves[i - 1].ts) by { assert leaves[i - 1] in leaves; }
      TimedIsStarted(events, leaves[i - 1].ts, t - 1);
      assert Splits(leaves, t - 1, i);
      assert Seen(events, t - 1) == Purged(leaves[..i]);
      assert |Purged(leaves[..i])| == Before(leaves, i);
    }
  }

  lemma TimeIsPositive(events: seq<Event>, t: nat)
    requires Timed(events, t)
    ensures 0 < t
  {
  }

  /** A run of leaves holds one occurrence each at least, and burst each at most. */
  lemma {:induction false} RunHolds(events: seq<Event>, leaves: seq<Batch>, last: nat, burst: nat, a: nat, b: nat)
    requires Counting(leaves) && AllCounted(leaves) && CutBefore(leaves, last) && Told(events, leaves, last)
    requires Dated(events, leaves, last) && Spread(events, burst) && a <= b <= |leaves|
    ensures b - a <= Before(leaves, b) - Before(leaves, a)
    ensures 0 < a ==> Before(leaves, b) - Before(leaves, a) <= Times(burst, b - a)
    decreases b
  {
    hide *;
    TimesNone(burst);
    if a < b {
      RunHolds(events, leaves, last, burst, a, b - 1);
      LeafHolds(events, leaves, last, burst, b - 1);
      TimesOneMore(burst, b - 1 - a);
    }
  }

  lemma TimesNone(k: nat)
    ensures Times(k, 0) == 0
  {
  }

  lemma TimesOneMore(k: nat, n: nat)
    ensures Times(k, n + 1) == Times(k, n) + k
  {
  }

  // ----- the whole error of an answer

  lemma BetweenCounts(leaves: seq<Batch>, lo: nat, m: nat)
    requires lo <= m <= |leaves| && AllCounted(leaves)
    ensures |Between(leaves, lo, m)| == if lo < m then Before(leaves, m) - Before(leaves, lo + 1) else 0
  {
    hide Purged;
    if lo < m {
      PurgedJoin(leaves, 0, lo + 1, m);
      assert leaves[0..m] == leaves[..m] && leaves[0..lo + 1] == leaves[..lo + 1];
      assert |Purged(leaves[..m])| == Before(leaves, m) && |Purged(leaves[..lo + 1])| == Before(leaves, lo + 1);
    }
  }

  /** k times what a query misses is at most burst times what it speaks of. */
  lemma MissIsSmall(events: seq<Event>, leaves: seq<Batch>, last: nat, burst: nat, k: nat, lo: nat, m: nat, all: nat)
    requires Counting(leaves) && AllCounted(leaves) && CutBefore(leaves, last) && Told(events, leaves, last)
    requires Dated(events, leaves, last) && Spread(events, burst) && m <= |leaves|
    requires lo <= m && (lo + 1 < m ==> k * (m - lo) <= |leaves| - m)
    requires Before(leaves, |leaves|) <= all
    ensures k * (if lo < m then Before(leaves, m) - Before(leaves, lo + 1) else 0) <= burst * (all - Before(leaves, m))
  {
    hide *;
    RunHolds(events, leaves, last, burst, m, |leaves|);
    var q := all - Before(leaves, m);
    if lo < m { RunHolds(events, leaves, last, burst, lo + 1, m); }
    if lo + 1 < m {
      TimesIsProduct(burst, m - lo - 1);
      Chain(k, burst, m - lo - 1, Before(leaves, m) - Before(leaves, lo + 1), |leaves| - m, q);
    } else {
      NothingMissed(k, burst, q);
    }
  }

  lemma Chain(k: nat, burst: nat, n: nat, missed: nat, newer: nat, q: nat)
    requires missed <= burst * n && k * (n + 1) <= newer <= q
    ensures k * missed <= burst * q
  {
    assert k * missed <= k * (burst * n);
    assert k * (burst * n) == burst * (k * n);
    assert k * n <= q;
    assert burst * (k * n) <= burst * q;
  }

  lemma NothingMissed(k: nat, burst: nat, q: nat)
    ensures k * 0 <= burst * q
  {
  }

  /**
   The promise of a back-in-time answer: of the occurrences since a time no count is too high, and
   none is too low by more than the tolerance, stretched by how many occurrences share a timestamp.
   */
  ghost predicate PromisedSince(third: Third, burst: nat, r: Table, seen: multiset<Key>, all: multiset<Key>) {
    seen <= all && forall x: Key :: SinceAt(third, burst, Get(r, x), (all - seen)[x], |all - seen|)
  }

  ghost predicate SinceAt(third: Third, burst: nat, r: nat, f: nat, n: nat) {
    r <= f && (f - r) as real <= (2 + burst) as real * third * n as real
  }

  /** A tolerance of everything there is cannot be missed. */
  lemma WideIsKept(third: Third, r: Table, q: multiset<Key>, seen: multiset<Key>, all: multiset<Key>,
                   missed: multiset<Key>)
    requires third >= 1.0 / 3.0 && Answered(third, r, q, seen, all, missed)
    ensures PromisedSince(third, 1, r, seen, all)
  {
    hide Tolerable, SinceAt;
    forall x: Key ensures SinceAt(third, 1, Get(r, x), (all - seen)[x], |all - seen|) {
      assert Tolerable(third, q[x], |q|, Get(r, x)) && q[x] <= (all - seen)[x];
      PartOf(all - seen, x);
      WideAt(third, Get(r, x), q[x], |q|, (all - seen)[x], |all - seen|);
    }
  }

  lemma WideAt(third: Third, r: nat, u: nat, v: nat, f: nat, n: nat)
    requires third >= 1.0 / 3.0 && Tolerable(third, u, v, r) && u <= f <= n
    ensures SinceAt(third, 1, r, f, n)
  {
    assert (third - 1.0 / 3.0) * n as real >= 0.0;
  }

  lemma PartOf(h: multiset<Key>, x: Key)
    ensures h[x] <= |h|
  {
    assert h == multiset{}[x := h[x]] + h[x := 0];
  }

  lemma AnswerSince(third: Third, k: nat, burst: nat, r: Table, q: multiset<Key>, seen: multiset<Key>,
                    all: multiset<Key>, missed: multiset<Key>)
    requires k as real * third >= 1.0 && Answered(third, r, q, seen, all, missed)
    requires k * |missed| <= burst * |q|
    ensures PromisedSince(third, burst, r, seen, all)
  {
    hide SinceAt, Tolerable, Get;
    var newer := all - seen;
    assert q <= newer by { forall x: Key ensures q[x] <= newer[x] { assert Tolerable(third, q[x], |q|, Get(r, x)); } }
    GrowthOf(q, newer, 0);
    forall x: Key ensures SinceAt(third, burst, Get(r, x), newer[x], |newer|) {
      assert q[x] <= all[x] - seen[x] <= q[x] + missed[x] && Tolerable(third, q[x], |q|, Get(r, x));
      CountInAll(missed, x);
      Together(third, k, burst, newer[x], q[x], Get(r, x), missed[x], |missed|, |q|, |newer|);
    }
  }

  lemma CountInAll(h: multiset<Key>, x: Key)
    ensures h[x] <= |h|
  {
    assert |h[x := 0]| >= 0;
  }

  lemma Together(third: Third, k: nat, burst: nat, f: nat, q: nat, r: nat, miss: nat, missed: nat, nq: nat, n: nat)
    requires k as real * third >= 1.0 && Tolerable(third, q, nq, r)
    requires q <= f <= q + miss && miss <= missed && k * missed <= burst * nq && nq <= n
    ensures SinceAt(third, burst, r, f, n)
  {
    var w := burst as real * third;
    MissShare(third, k, burst, missed, nq, w);
    Scaled(nq as real, n as real, third);
    Grouped(third, burst as real, w, nq as real, n as real, missed as real, (f - r) as real);
  }

  lemma MissShare(third: Third, k: nat, burst: nat, missed: nat, nq: nat, w: real)
    requires k as real * third >= 1.0 && k * missed <= burst * nq && w == burst as real * third
    ensures missed as real <= nq as real * w
  {
    ProductAsReal(k, missed);
    ProductAsReal(burst, nq);
    RealShare(k as real, third, burst as real, missed as real, nq as real, w);
  }

  lemma RealShare(k: real, third: Third, burst: real, u: real, n: real, w: real)
    requires k * third >= 1.0 && 0.0 <= u && k * u <= burst * n && w == burst * third
    ensures u <= n * w
  {
    ScaledUp(k, third, u, k * u);
    Scaled(k * u, burst * n, third);
    assert burst * n * third == n * (burst * third);
  }

  lemma Grouped(third: Third, burst: real, w: real, nq: real, n: real, missed: real, e: real)
    requires 0.0 <= burst && w == burst * third && nq <= n && missed <= nq * w && e <= 2.0 * third * nq + missed
    ensures e <= (2.0 + burst) * third * n
  {
    Scaled(0.0, burst, third);
    Scaled(nq, n, w);
    Scaled(nq, n, 2.0 * third);
    assert (2.0 + burst) * third * n == n * (2.0 * third) + n * w;
    assert 2.0 * third * nq == nq * (2.0 * third);
  }

  /** No reported count is too high for what came since, and none misses more than the stretched tolerance. */
  ghost predicate CountsSince(third: Third, burst: nat, hits: map<Key, nat>, seen: multiset<Key>, all: multiset<Key>) {
    forall x <- hits :: SinceAt(third, burst, hits[x], (all - seen)[x], |all - seen|)
  }

  lemma CountsSinceOf(third: Third, burst: nat, r: Table, hits: map<Key, nat>, seen: multiset<Key>, all: multiset<Key>)
    requires PromisedSince(third, burst, r, seen, all) && forall x <- hits :: x in r && hits[x] == r[x]
    ensures CountsSince(third, burst, hits, seen, all)
  {
    hide SinceAt;
    forall x <- hits ensures SinceAt(third, burst, hits[x], (all - seen)[x], |all - seen|) {
      assert SinceAt(third, burst, Get(r, x), (all - seen)[x], |all - seen|);
    }
  }

  /** Of the merged occurrences q no reported count is too high or more than two thirds of the tolerance too low. */
  ghost predicate CountsMerged(third: Third, hits: map<Key, nat>, q: multiset<Key>) {
    forall x <- hits :: Tolerable(third, q[x], |q|, hits[x])
  }

  lemma CountsMergedOf(third: Third, k: nat, r: Table, hits: map<Key, nat>, q: multiset<Key>, cut: nat)
    requires Answer(third, k, r, q, cut) && k as real * third >= 1.0
    requires forall x <- hits :: x in r && hits[x] == r[x]
    ensures CountsMerged(third, hits, q)
  {
    hide Tolerable, Answer;
    forall x <- hits ensures Tolerable(third, q[x], |q|, hits[x]) { AnswerBound(third, k, r, q, cut, x); }
  }

  /** Every key that came since, out of est, a frac share and burst times a third of the tolerance, is hit. */
  ghost predicate AllHitSince(third: Third, burst: nat, hits: map<Key, nat>, est: nat, frac: real, seen: multiset<Key>,
                              all: multiset<Key>)
  {
    forall x: Key | all[x] as real - seen[x] as real >= (frac + burst as real * third) * est as real :: x in hits
  }

  lemma HitsSince(third: Third, k: nat, burst: nat, r: Table, hits: map<Key, nat>, est: nat, frac: real,
                  q: multiset<Key>, seen: multiset<Key>, all: multiset<Key>, missed: multiset<Key>)
    requires k as real * third >= 1.0 && Answered(third, r, q, seen, all, missed) && AllHit(q, est, frac, hits)
    requires k * |missed| <= burst * |q| && |q| <= est
    ensures AllHitSince(third, burst, hits, est, frac, seen, all)
  {
    hide Tolerable;
    forall x: Key | all[x] as real - seen[x] as real >= (frac + burst as real * third) * est as real ensures x in hits {
      assert q[x] <= all[x] - seen[x] <= q[x] + missed[x] by { assert Tolerable(third, q[x], |q|, Get(r, x)); }
      CountInAll(missed, x);
      StillFrequent(third, k, burst, all[x] - seen[x], q[x], |missed|, |q|, est, frac);
      assert Frequent(q, x, est, frac);
    }
  }

  lemma StillFrequent(third: Third, k: nat, burst: nat, f: nat, q: nat, missed: nat, nq: nat, est: nat, frac: real)
    requires k as real * third >= 1.0 && k * missed <= burst * nq && nq <= est && f <= q + missed
    requires f as real >= (frac + burst as real * third) * est as real
    ensures q as real >= frac * est as real
  {
    var w := burst as real * third;
    MissShare(third, k, burst, missed, nq, w);
    EnoughLeft(burst as real, third, w, nq as real, est as real, frac, f as real, q as real, missed as real);
  }

  lemma EnoughLeft(burst: real, third: Third, w: real, nq: real, est: real, frac: real, f: real, q: real, missed: real)
    requires 0.0 <= burst && w == burst * third && missed <= nq * w && nq <= est
    requires f <= q + missed && f >= (frac + w) * est
    ensures q >= frac * est
  {
    Scaled(0.0, burst, third);
    Scaled(nq, est, w);
    assert (frac + w) * est == frac * est + est * w;
  }
}
