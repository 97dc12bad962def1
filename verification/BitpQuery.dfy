/** What a node's sketch is worth to a back-in-time query, and how queries walk the trees. */
module BitpQuery {
  import opened Products
  import opened Counts
  import opened MisraGriesSpec
  import opened Timeline
  import opened Batches
  import opened BitpNodes
  import opened BitpRows

  function DropAbove(t: Table, d: nat): Table {
    map x | x in t && t[x] <= d :: Get(t, x)
  }

  lemma CutSplits(t: Table, d: nat)
    ensures Add(DropAbove(t, d), KeepAbove(t, d)) == t
  {
  }

  /** No key is dropped more than d times. */
  ghost predicate AtMost(h: multiset<Key>, d: nat) {
    forall x: Key :: h[x] <= d
  }

  /** A node's sketch is as good as ever for its occurrences less those it has dropped. */
  lemma StandsCredit(third: Third, k: nat, leaves: seq<Batch>, n: Node) returns (d: multiset<Key>)
    requires 0 < k && Storable(k, leaves) && Stands(third, k, leaves, n)
    ensures d <= Purged(leaves[n.start..n.End()]) && AtMost(d, n.cut) && (n.cut == 0 ==> d == multiset{})
    ensures Positive(n.mg.cnt) && Credit(k, n.mg.cnt, Purged(leaves[n.start..n.End()]) - d)
  {
    hide MergeOf, Storable, Credit, Purged;
    var run := leaves[n.start..n.End()];
    var c :| MergeOf(k, run, c) && n.mg.cnt == KeepAbove(c, n.cut);
    StorableRange(k, leaves, n.start, n.End());
    MergeOfCredit(k, run, c);
    CutSplits(c, n.cut);
    d := Exactly(DropAbove(c, n.cut));
    SplitKeepsCredit(k, c, DropAbove(c, n.cut), KeepAbove(c, n.cut), Purged(run));
    if n.cut == 0 { assert DropAbove(c, 0) == map[]; }
  }

  /** Two neighbouring runs of leaves. */
  lemma PurgedJoin(leaves: seq<Batch>, a: nat, b: nat, c: nat)
    requires a <= b <= c <= |leaves|
    ensures Purged(leaves[a..c]) == Purged(leaves[a..b]) + Purged(leaves[b..c])
  {
    PurgedSplit(leaves[a..c], b - a);
    assert leaves[a..c][..b - a] == leaves[a..b] && leaves[a..c][b - a..] == leaves[b..c];
  }

  /** The running total of a query: everything in h0 and in the leaves a..c but the dropped d. */
  ghost predicate Gathered(k: nat, e: Table, h0: multiset<Key>, leaves: seq<Batch>, a: nat, c: nat, d: multiset<Key>)
    requires a <= c <= |leaves|
  {
    d <= Purged(leaves[a..c]) && Credit(k, e, h0 + (Purged(leaves[a..c]) - d))
  }

  /** Merging the sketch of the run just before, which has dropped d, when nothing was dropped so far. */
  lemma GatherOlder(k: nat, e: Table, t: Table, r: Table, h0: multiset<Key>, leaves: seq<Batch>, a: nat, b: nat,
                    c: nat, d: multiset<Key>)
    requires a <= b <= c <= |leaves| && Positive(e) && Positive(t)
    requires Gathered(k, e, h0, leaves, b, c, multiset{})
    requires d <= Purged(leaves[a..b]) && Credit(k, t, Purged(leaves[a..b]) - d)
    requires Merged(k, e, t, r)
    ensures Gathered(k, r, h0, leaves, a, c, d)
  {
    hide Credit, Merged, Positive, Purged;
    PurgedJoin(leaves, a, b, c);
    var p, q := Purged(leaves[a..b]), Purged(leaves[b..c]);
    assert h0 + (q - multiset{}) == h0 + q;
    MergeKeepsCredit(k, e, t, r, h0 + q, p - d);
    assert h0 + ((p + q) - d) == (h0 + q) + (p - d);
  }

  /** Merging the sketch of the run just after. */
  lemma GatherNewer(k: nat, e: Table, t: Table, r: Table, h0: multiset<Key>, leaves: seq<Batch>, a: nat, b: nat,
                    c: nat, d: multiset<Key>)
    requires a <= b <= c <= |leaves| && Positive(e) && Positive(t)
    requires Gathered(k, e, h0, leaves, a, b, d)
    requires Credit(k, t, Purged(leaves[b..c])) && Merged(k, e, t, r)
    ensures Gathered(k, r, h0, leaves, a, c, d)
  {
    hide Credit, Merged, Positive, Purged;
    PurgedJoin(leaves, a, b, c);
    var p, q := Purged(leaves[a..b]), Purged(leaves[b..c]);
    MergeKeepsCredit(k, e, t, r, h0 + (p - d), q);
    assert h0 + ((p + q) - d) == (h0 + (p - d)) + q;
  }

  // ----- walking down

  /** Node i of level l: its children, if it has any, and what the right one keeps. */
  lemma Kids(third: Third, k: nat, leaves: seq<Batch>, rows: Rows, l: nat, i: nat)
    requires |rows| == 64 && l < 64 && i < |rows[l]| && Families(rows, 65) && Sketched(third, k, leaves, rows, 65)
    ensures (rows[l][i].left == null) == (rows[l][i].right == null)
    ensures rows[l][i].right != null ==>
      var j := i - Childless(rows, l);
      && 0 <= j && 0 < l && 2 * j + 1 < |rows[l - 1]|
      && rows[l][i].left == rows[l - 1][2 * j] && rows[l][i].right == rows[l - 1][2 * j + 1]
      && rows[l][i].start == rows[l - 1][2 * j].start && rows[l][i].End() == rows[l - 1][2 * j + 1].End()
      && Stands(third, k, leaves, rows[l - 1][2 * j + 1])
      && (rows[l - 1][2 * j + 1].cut > 0 ==> rows[l - 1][2 * j].left == null)
  {
    hide Stands, Whole;
    FamiliesEach(rows, 65);
    SketchedEach(third, k, leaves, rows, 65);
    assert Family(Row(rows, l - 1), Row(rows, l));
    var j := i - Childless(rows, l);
    if j >= 0 {
      KidAt(Row(rows, l - 1), Row(rows, l), j);
      assert l > 0;
      var lo := rows[l - 1];
      assert Keeps(third, k, leaves, lo, Front(rows, l - 1, 65));
      RightKeeps(third, k, leaves, lo, Front(rows, l - 1, 65), j);
      if lo[2 * j + 1].cut > 0 {
        assert Family(Row(rows, (l - 1) - 1), Row(rows, l - 1));
        ChildlessAt(Row(rows, l - 2), Row(rows, l - 1), 2 * j);
      }
    } else {
      ChildlessAt(Row(rows, l - 1), Row(rows, l), i);
    }
  }

  lemma KidAt(lo: seq<Node>, up: seq<Node>, j: nat)
    requires Family(lo, up) && |up| - |lo| / 2 + j < |up|
    ensures 2 * j + 1 < |lo|
    ensures var n := up[|up| - |lo| / 2 + j];
            && n.left == lo[2 * j] && n.right == lo[2 * j + 1]
            && n.start == lo[2 * j].start && n.End() == lo[2 * j + 1].End()
  {
  }

  lemma ChildlessAt(lo: seq<Node>, up: seq<Node>, i: nat)
    requires Family(lo, up) && i < |up| - |lo| / 2
    ensures up[i].left == null && up[i].right == null
  {
  }

  lemma RightKeeps(third: Third, k: nat, leaves: seq<Batch>, row: seq<Node>, s: int, j: nat)
    requires Keeps(third, k, leaves, row, s) && 2 * j + 1 < |row|
    ensures Stands(third, k, leaves, row[2 * j + 1]) && (row[2 * j + 1].cut > 0 ==> 2 * j + 1 < s)
  {
    hide Stands, Whole;
    var i := 2 * j + 1;
    assert i % 2 == 1;
  }

  lemma StampOf(rows: Rows, leaves: seq<Batch>, l: nat, i: nat)
    requires Standing(rows, leaves) && l < |rows| && i < |rows[l]|
    ensures Stamped(leaves, rows[l][i]) && rows[l][i] in NodesOf(rows)
    ensures rows[l][i].start < rows[l][i].End() <= |leaves|
    ensures rows[l][i].ts == leaves[rows[l][i].start].ts && rows[l][i].total == Before(leaves, rows[l][i].End())
  {
    hide Placed;
    RowStamped(rows, leaves, l);
    InRow(rows, l, i);
    assert Stamped(leaves, rows[l][i]);
  }

  lemma NothingGathered(k: nat, e: Table, h0: multiset<Key>, leaves: seq<Batch>, a: nat)
    requires a <= |leaves| && Credit(k, e, h0)
    ensures Gathered(k, e, h0, leaves, a, a, multiset{})
  {
    assert leaves[a..a] == [];
    assert h0 + (Purged(leaves[a..a]) - multiset{}) == h0;
  }

  /** What a cut may cost is covered by what came from leaf a on. */
  ghost predicate Covered(third: Third, leaves: seq<Batch>, a: nat, cut: nat)
    requires a <= |leaves|
  {
    cut as real <= third * Since(leaves, a) as real
  }

  lemma NothingCut(third: Third, leaves: seq<Batch>, a: nat)
    requires Counting(leaves) && a <= |leaves|
    ensures Covered(third, leaves, a, 0)
  {
    SinceIsNat(leaves, a);
    Scaled(0.0, Since(leaves, a) as real, third);
  }

  lemma StandsCovered(third: Third, k: nat, leaves: seq<Batch>, n: Node)
    requires Stands(third, k, leaves, n)
    ensures n.End() <= |leaves| && n.mg.Kept? && Covered(third, leaves, n.start, n.cut)
  {
    hide MergeOf;
  }

  lemma NothingDropped()
    ensures AtMost(multiset{}, 0)
  {
  }

  lemma EffectiveIsPositive(s: Summary)
    ensures Positive(s.Effective())
  {
  }

  lemma PairAdjoins(rows: Rows, leaves: seq<Batch>, l: nat, j: nat)
    requires Standing(rows, leaves) && l < |rows| && j + 1 < |rows[l]|
    ensures rows[l][j].End() == rows[l][j + 1].start
  {
    hide AllStamped;
    RowStamped(rows, leaves, l);
  }

  /** How far the roots of the levels from l up reach. */
  ghost function Reach(rows: Rows, l: nat): nat
    decreases |rows| - l
  {
    if l >= |rows| then 0
    else if |rows[l]| % 2 == 1 then rows[l][|rows[l]| - 1].End()
    else Reach(rows, l + 1)
  }

  lemma {:induction false} RootsReach(rows: Rows, l: nat, e: nat)
    requires Roots(rows, l, e)
    ensures e == Reach(rows, l)
    decreases |rows| - l
  {
    if l < |rows| && |rows[l]| % 2 == 0 { RootsReach(rows, l + 1, e); }
  }

  lemma {:induction false} RootsFrom(rows: Rows, e: nat, l: nat)
    requires Roots(rows, 0, e) && l <= |rows|
    ensures Roots(rows, l, Reach(rows, l)) && (l == 0 ==> Reach(rows, 0) == e)
    ensures Reach(rows, l) <= e
  {
    if l == 0 {
      RootsReach(rows, 0, e);
    } else {
      RootsFrom(rows, e, l - 1);
      var row := rows[l - 1];
      RootsReach(rows, l, if |row| % 2 == 1 then row[|row| - 1].start else Reach(rows, l - 1));
    }
  }

  /** The root of level l, if there is one, continues where the higher levels end. */
  lemma RootAt(rows: Rows, tree: seq<Node?>, e: nat, l: nat)
    requires |rows| == |tree| && l < |rows| && Roots(rows, 0, e) && Tops(rows, tree)
    ensures Reach(rows, l + 1) <= Reach(rows, l) <= e
    ensures tree[l] == null ==> Reach(rows, l) == Reach(rows, l + 1)
    ensures tree[l] != null ==>
      && |rows[l]| % 2 == 1 && tree[l] == rows[l][|rows[l]| - 1]
      && tree[l].start == Reach(rows, l + 1) && tree[l].End() == Reach(rows, l)
  {
    RootsFrom(rows, e, l);
    RootsFrom(rows, e, l + 1);
    if |rows[l]| % 2 == 1 {
      RootsReach(rows, l + 1, rows[l][|rows[l]| - 1].start);
    }
  }

  /** The root's sketch is whole. */
  lemma RootKeeps(third: Third, k: nat, leaves: seq<Batch>, rows: Rows, l: nat)
    requires 0 < k && Storable(k, leaves) && l < |rows| && |rows[l]| % 2 == 1 && Sketched(third, k, leaves, rows, 65)
    ensures var n := rows[l][|rows[l]| - 1];
            && n.End() <= |leaves| && n.mg.Kept? && Positive(n.mg.cnt)
            && Credit(k, n.mg.cnt, Purged(leaves[n.start..n.End()]))
  {
    hide MergeOf, Storable, Credit, Purged, Stands, Positive;
    SketchedEach(third, k, leaves, rows, 65);
    LastKeeps(third, k, leaves, rows[l], Front(rows, l, 65));
    var n := rows[l][|rows[l]| - 1];
    StorableRange(k, leaves, n.start, n.End());
    MergeOfCredit(k, leaves[n.start..n.End()], n.mg.cnt);
  }

  lemma LastKeeps(third: Third, k: nat, leaves: seq<Batch>, row: seq<Node>, s: int)
    requires |row| % 2 == 1 && Keeps(third, k, leaves, row, s)
    ensures Whole(k, leaves, row[|row| - 1])
  {
    hide Stands, Whole;
  }

  /**
   Leaf m is where the merged leaves begin. The leaves just before it that a query may have
   missed are those of one node without children, whose first leaf is not newer than ts.
   */
  ghost predicate Hole(rows: Rows, leaves: seq<Batch>, ts: nat, lo: nat, m: nat)
    reads NodesOf(rows)`left
  {
    if m == 0 then lo == 0
    else
      && lo < m <= |leaves| && leaves[lo].ts <= ts
      && exists n :: n in NodesOf(rows) && n.left == null && n.start == lo && n.End() == m
  }

  lemma HoleAt(rows: Rows, leaves: seq<Batch>, ts: nat, n: Node)
    requires n in NodesOf(rows) && n.left == null && n.start < n.End() <= |leaves| && leaves[n.start].ts <= ts
    ensures Hole(rows, leaves, ts, n.start, n.End())
  {
  }

  lemma NoHole(rows: Rows, leaves: seq<Batch>, ts: nat)
    ensures Hole(rows, leaves, ts, 0, 0)
  {
  }

  lemma ReachNone(rows: Rows, leaves: seq<Batch>)
    requires |rows| == 64
    ensures Reach(rows, 64) == 0 && Before(leaves, 0) == 0
  {
  }

  // ----- what a query promises

  /** Of f occurrences r are counted and v were dropped; k times the others are at most n. */
  ghost predicate Close(k: nat, f: nat, n: nat, r: nat, v: nat) {
    r + v <= f && Times(k, f - r - v) <= n
  }

  /** Merged sketches: all occurrences from leaf m on, less the dropped ones. */
  lemma GatheredIsClose(k: nat, e: Table, h: multiset<Key>, leaves: seq<Batch>, m: nat, d: multiset<Key>, cut: nat,
                        x: Key)
    returns (v: nat)
    requires m <= |leaves| && Purged(leaves) <= h
    requires Gathered(k, e, h - Purged(leaves), leaves, m, |leaves|, d) && AtMost(d, cut)
    ensures var q := h - Purged(leaves[..m]); v <= cut && Close(k, q[x], |q|, Get(e, x), v)
  {
    hide Purged, Sum, Times, AtMost;
    assert leaves[m..|leaves|] == leaves[m..];
    PurgedSplit(leaves, m);
    var a, p := Purged(leaves[..m]), Purged(leaves[m..]);
    Remainder(h, a, p, d);
    var q := h - a;
    assert Owed(k, e, q - d, x);
    v := d[x];
    DroppedAtMost(d, cut, x);
    OwedIsClose(k, e, q, d, x);
  }

  lemma Remainder(h: multiset<Key>, a: multiset<Key>, p: multiset<Key>, d: multiset<Key>)
    requires a + p <= h && d <= p
    ensures (h - (a + p)) + (p - d) == (h - a) - d && d <= h - a && |(h - a) - d| <= |h - a|
  {
    var q := h - a;
    assert q == d + (q - d);
  }

  lemma DroppedAtMost(d: multiset<Key>, cut: nat, x: Key)
    requires AtMost(d, cut)
    ensures d[x] <= cut
  {
  }

  lemma OwedIsClose(k: nat, e: Table, q: multiset<Key>, d: multiset<Key>, x: Key)
    requires d <= q && Owed(k, e, q - d, x) && |q - d| <= |q|
    ensures Close(k, q[x], |q|, Get(e, x), d[x])
  {
    hide Sum, Times;
    assert (q - d)[x] - Get(e, x) == q[x] - Get(e, x) - d[x];
  }

  /** The running sketch alone, pending subtraction or not. */
  lemma RawIsClose(k: nat, s: Summary, h: multiset<Key>, x: Key)
    requires s.k == k && StandsFor(s, h)
    ensures Close(k, h[x], |h|, Get(s.cnt, x), 0)
  {
    hide Sum, Times;
    assert Owed(k, s.Effective(), h, x);
    EffectiveIsLess(s, x);
    TimesMonotone(k, h[x] - Get(s.cnt, x), h[x] - Get(s.Effective(), x));
  }

  /** The undercount is at most two thirds of the tolerance. */
  lemma CloseBound(third: Third, k: nat, f: nat, n: nat, r: nat, v: nat)
    requires Close(k, f, n, r, v) && k as real * third >= 1.0 && v as real <= n as real * third
    ensures Tolerable(third, f, n, r)
  {
    var u := f - r - v;
    TimesIsProduct(k, u);
    ProductAsReal(k, u);
    LossSum(k as real, third, u as real, v as real, n as real);
  }

  /** A key that makes up a frac share of n occurrences is seen to. */
  lemma CloseReports(third: Third, k: nat, f: nat, n: nat, r: nat, v: nat, total: nat, frac: real)
    requires 0 < k && Close(k, f, n, r, v) && v as real <= n as real * third && n <= total && 0 < total
    requires frac > third + 1.0 / k as real && f as real >= frac * total as real
    ensures r as real >= total as real * (frac - third - 1.0 / k as real) > 0.0
  {
    var u := f - r - v;
    TimesIsProduct(k, u);
    ProductAsReal(k, u);
    Share(k as real, u as real, total as real);
    Scaled(n as real, total as real, third);
    Expand(total as real, frac, third, 1.0 / k as real);
    PositiveProduct(total as real, frac - third - 1.0 / k as real);
  }

  lemma PositiveProduct(a: real, b: real)
    requires a > 0.0 && b > 0.0
    ensures a * b > 0.0
  {
  }

  ghost predicate CloseAt(k: nat, r: Table, q: multiset<Key>, cut: nat, x: Key) {
    exists v: nat :: v <= cut && Close(k, q[x], |q|, Get(r, x), v)
  }

  ghost predicate Fair(third: Third, cut: nat, n: int) {
    cut as real <= n as real * third
  }

  /** The counters of r answer for the occurrences q, of each key of which at most cut were dropped. */
  ghost predicate Answer(third: Third, k: nat, r: Table, q: multiset<Key>, cut: nat) {
    && Fair(third, cut, |q|)
    && forall x: Key :: CloseAt(k, r, q, cut, x)
  }

  lemma GatheredAnswers(third: Third, k: nat, e: Table, h: multiset<Key>, leaves: seq<Batch>, m: nat, d: multiset<Key>,
                        cut: nat)
    requires m <= |leaves| && Purged(leaves) <= h && AllCounted(leaves)
    requires Gathered(k, e, h - Purged(leaves), leaves, m, |leaves|, d) && AtMost(d, cut)
        && Covered(third, leaves, m, cut)
    ensures Answer(third, k, e, h - Purged(leaves[..m]), cut)
  {
    hide Gathered, AtMost, Covered, Close, Purged, AllCounted;
    CutIsFair(third, h, leaves, m, cut);
    forall x: Key ensures CloseAt(k, e, h - Purged(leaves[..m]), cut, x) {
      var v := GatheredIsClose(k, e, h, leaves, m, d, cut, x);
    }
  }

  lemma CutIsFair(third: Third, h: multiset<Key>, leaves: seq<Batch>, m: nat, cut: nat)
    requires m <= |leaves| && Purged(leaves) <= h && AllCounted(leaves) && Covered(third, leaves, m, cut)
    ensures Fair(third, cut, |h - Purged(leaves[..m])|)
  {
    hide *;
    PurgedSplit(leaves, m);
    CutOfPart(third, h, leaves, m, cut, Purged(leaves[..m]), Purged(leaves[m..]));
  }

  lemma CutOfPart(third: Third, h: multiset<Key>, leaves: seq<Batch>, m: nat, cut: nat, a: multiset<Key>,
                  p: multiset<Key>)
    requires m <= |leaves| && Purged(leaves) <= h && AllCounted(leaves) && Covered(third, leaves, m, cut)
    requires Purged(leaves) == a + p && Purged(leaves[..m]) == a
    ensures Fair(third, cut, |h - a|)
  {
    hide *;
    CountedAt(leaves, m);
    CoveredIs(third, leaves, m, cut);
    FairParts(third, h, a, p, Before(leaves, |leaves|), Before(leaves, m), cut);
  }

  lemma FairParts(third: Third, h: multiset<Key>, a: multiset<Key>, p: multiset<Key>, all: nat, before: nat, cut: nat)
    requires a + p <= h && |a + p| == all && |a| == before && Fair(third, cut, all - before)
    ensures Fair(third, cut, |h - a|)
  {
    hide Fair;
    Parts(h, a, p);
    FairNumbers(third, cut, all, before, |h - a|);
  }

  lemma FairNumbers(third: Third, cut: nat, all: nat, before: nat, n: nat)
    requires Fair(third, cut, all - before) && all - before <= n
    ensures Fair(third, cut, n)
  {
    Scaled((all - before) as real, n as real, third);
  }

  lemma CoveredIs(third: Third, leaves: seq<Batch>, m: nat, cut: nat)
    requires m <= |leaves| && Covered(third, leaves, m, cut)
    ensures Fair(third, cut, Before(leaves, |leaves|) - Before(leaves, m))
  {
  }

  lemma CountedAt(leaves: seq<Batch>, m: nat)
    requires m <= |leaves| && AllCounted(leaves)
    ensures |Purged(leaves[..m])| == Before(leaves, m) && |Purged(leaves)| == Before(leaves, |leaves|)
  {
    hide Purged, Before;
    assert leaves[..|leaves|] == leaves;
    assert |Purged(leaves[..m])| == Before(leaves, m) && |Purged(leaves[..|leaves|])| == Before(leaves, |leaves|);
  }

  lemma Parts(h: multiset<Key>, a: multiset<Key>, p: multiset<Key>)
    requires a + p <= h
    ensures |h - a| == |h| - |a| && |a + p| <= |h|
  {
    assert h == a + (h - a) && h == (a + p) + (h - (a + p));
  }

  lemma RawAnswers(third: Third, k: nat, s: Summary, q: multiset<Key>)
    requires s.k == k && StandsFor(s, q)
    ensures Answer(third, k, s.cnt, q, 0)
  {
    hide Close, StandsFor;
    Scaled(0.0, |q| as real, third);
    forall x: Key ensures CloseAt(k, s.cnt, q, 0, x) {
      RawIsClose(k, s, q, x);
    }
  }

  /** A query time splits the leaves somewhere in the node it stopped at. */
  lemma SplitBetween(leaves: seq<Batch>, ts: nat, lo: nat, m: nat) returns (n: nat)
    requires Counting(leaves) && m <= |leaves| && (m < |leaves| ==> ts < leaves[m].ts)
    requires 0 < m ==> lo < m && leaves[lo].ts <= ts
    ensures Splits(leaves, ts, n) && (m == 0 ==> n == 0) && (0 < m ==> lo < n <= m)
  {
    n := if m == 0 then 0 else lo + 1;
    while n < m && leaves[n].ts <= ts
      invariant n <= m && (m == 0 ==> n == 0) && (0 < m ==> lo < n && leaves[n - 1].ts <= ts)
    {
      n := n + 1;
    }
  }

  /** What is seen after ts is what the answer is about and, at most, the rest of one node's leaves. */
  lemma Missed(events: seq<Event>, leaves: seq<Batch>, rows: Rows, ts: nat, last: nat, lo: nat, m: nat)
    requires Counting(leaves) && m <= |leaves| && (m < |leaves| ==> ts < leaves[m].ts) && Hole(rows, leaves, ts, lo, m)
    requires Told(events, leaves, last) && ts < last && Known(events, ts) && Purged(leaves) <= Keys(events)
    ensures Seen(events, ts) <= Purged(leaves[..m])
    ensures Purged(leaves[..m]) <= Seen(events, ts) + if m == 0 then multiset{} else Purged(leaves[lo + 1..m])
  {
    hide Purged, Counting, Keys, Seen, Known, Splits;
    var n := SplitBetween(leaves, ts, lo, m);
    assert Seen(events, ts) == Purged(leaves[..n]);
    PurgedJoin(leaves, 0, n, m);
    assert leaves[0..n] == leaves[..n] && leaves[0..m] == leaves[..m];
    if m == 0 {
      assert leaves[n..m] == [];
      NothingPurged();
    } else {
      PurgedJoin(leaves, lo + 1, n, m);
    }
  }

  lemma NothingPurged()
    ensures Purged([]) == multiset{}
  {
  }

  lemma AnswerAt(third: Third, k: nat, r: Table, q: multiset<Key>, cut: nat, x: Key) returns (v: nat)
    requires Answer(third, k, r, q, cut)
    ensures Close(k, q[x], |q|, Get(r, x), v) && v as real <= |q| as real * third
  {
    hide Close;
    assert CloseAt(k, r, q, cut, x);
    v :| v <= cut && Close(k, q[x], |q|, Get(r, x), v);
  }

  /** Of f occurrences r are counted: none too many, and at most two thirds of the tolerance too few. */
  ghost predicate Tolerable(third: Third, f: nat, n: nat, r: nat) {
    r <= f && (f - r) as real <= 2.0 * third * n as real
  }

  /** An answer is at most two thirds of the tolerance below the truth, and never above it. */
  lemma AnswerBound(third: Third, k: nat, r: Table, q: multiset<Key>, cut: nat, x: Key)
    requires Answer(third, k, r, q, cut) && k as real * third >= 1.0
    ensures Tolerable(third, q[x], |q|, Get(r, x))
  {
    hide *;
    var v := AnswerAt(third, k, r, q, cut, x);
    CloseBound(third, k, q[x], |q|, Get(r, x), v);
  }

  function Cutoff(third: Third, k: nat, total: nat, frac: real): int
    requires 0 < k
  {
    Ceil(total as real * (frac - third - 1.0 / k as real))
  }

  ghost predicate Frequent(q: multiset<Key>, x: Key, total: nat, frac: real) {
    q[x] as real >= frac * total as real
  }

  lemma AnswerReports(third: Third, k: nat, r: Table, q: multiset<Key>, cut: nat, total: nat, frac: real, x: Key)
    requires Answer(third, k, r, q, cut) && 0 < k && |q| <= total && 0 < total
    requires frac > third + 1.0 / k as real && Frequent(q, x, total, frac)
    ensures x in r && r[x] >= Cutoff(third, k, total, frac)
  {
    hide Close, Answer;
    var v := AnswerAt(third, k, r, q, cut, x);
    CloseReports(third, k, q[x], |q|, Get(r, x), v, total, frac);
  }

  lemma BeforeIsLess(leaves: seq<Batch>, h: multiset<Key>, a: nat)
    requires a <= |leaves| && AllCounted(leaves) && Purged(leaves) <= h
    ensures Before(leaves, a) <= |h|
  {
    hide Purged;
    PurgedSplit(leaves, a);
    assert |Purged(leaves[..a])| == Before(leaves, a);
    var p := Purged(leaves[..a]);
    assert h == p + (h - p);
  }

  lemma HoleBounds(rows: Rows, leaves: seq<Batch>, ts: nat, lo: nat, m: nat)
    requires Hole(rows, leaves, ts, lo, m)
    ensures lo <= m && (0 < m ==> lo < m <= |leaves|)
  {
  }

  lemma BeforeRises(leaves: seq<Batch>, a: nat, b: nat)
    requires Counting(leaves) && a <= b <= |leaves| && AllCounted(leaves)
    ensures Before(leaves, a) <= Before(leaves, b)
  {
    hide Purged;
  }

  lemma PartLess(h: multiset<Key>, a: multiset<Key>)
    requires a <= h
    ensures |h - a| == |h| - |a|
  {
    assert h == a + (h - a);
  }

  ghost predicate AllHit(q: multiset<Key>, total: nat, frac: real, hits: map<Key, nat>) {
    forall x: Key | Frequent(q, x, total, frac) :: x in hits
  }

  lemma AnswerHits(third: Third, k: nat, r: Table, q: multiset<Key>, cut: nat, total: nat, frac: real,
                   hits: map<Key, nat>)
    requires Answer(third, k, r, q, cut) && 0 < k && |q| <= total && 0 < total && frac > third + 1.0 / k as real
    requires forall x :: x in hits <==> x in r && r[x] >= Cutoff(third, k, total, frac)
    ensures AllHit(q, total, frac, hits)
  {
    hide Answer, Frequent, Cutoff;
    forall x: Key | Frequent(q, x, total, frac) ensures x in hits {
      AnswerReports(third, k, r, q, cut, total, frac, x);
    }
  }

  /**
   Back in time: of what came after ts, any key is estimated at most two thirds of the
   tolerance too low and never too high, but for occurrences in the one node without
   children at which the walk stopped; a stop at a single leaf misses nothing.
   */
  lemma BackInTime(third: Third, k: nat, events: seq<Event>, leaves: seq<Batch>, rows: Rows, last: nat, ts: nat,
                   r: Table, m: nat, lo: nat, cut: nat, x: Key)
    requires Counting(leaves) && Told(events, leaves, last) && EndsAt(events, last) && Purged(leaves) <= Keys(events)
    requires ts < last && Known(events, ts) && k as real * third >= 1.0
    requires m <= |leaves| && Hole(rows, leaves, ts, lo, m) && (m < |leaves| ==> ts < leaves[m].ts)
    requires Answer(third, k, r, Keys(events) - Purged(leaves[..m]), cut)
    ensures lo <= m && (0 < m ==> lo < m && leaves[lo].ts <= ts)
    ensures var q, seen := Keys(events) - Purged(leaves[..m]), Seen(events, ts);
            && seen <= Keys(events)
            && q[x] <= Keys(events)[x] - seen[x]
            && Keys(events)[x] - seen[x] <= q[x] + (if 0 < m then Purged(leaves[lo + 1..m])[x] else 0)
            && Tolerable(third, q[x], |q|, Get(r, x))
  {
    hide *;
    HoleBounds(rows, leaves, ts, lo, m);
    HoleStarts(rows, leaves, ts, lo, m);
    Missed(events, leaves, rows, ts, last, lo, m);
    PurgedSplit(leaves, m);
    NewerPart(Keys(events), Seen(events, ts), Purged(leaves[..m]), Purged(leaves[m..]),
            if m == 0 then multiset{} else Purged(leaves[lo + 1..m]), x);
    AnswerBound(third, k, r, Keys(events) - Purged(leaves[..m]), cut, x);
  }

  /**
   How good a back-in-time answer is: the occurrences q it speaks of are newer ones, all of them
   but for those missed, and of these no count is too high or more than 2/3 of the tolerance too low.
   */
  ghost predicate Answered(third: Third, r: Table, q: multiset<Key>, seen: multiset<Key>, all: multiset<Key>,
                           missed: multiset<Key>)
  {
    && seen <= all
    && forall x: Key :: q[x] <= all[x] - seen[x] <= q[x] + missed[x] && Tolerable(third, q[x], |q|, Get(r, x))
  }

  ghost function Between(leaves: seq<Batch>, lo: nat, m: nat): multiset<Key> {
    if lo < m <= |leaves| then Purged(leaves[lo + 1..m]) else multiset{}
  }

  lemma AllBackInTime(third: Third, k: nat, events: seq<Event>, leaves: seq<Batch>, rows: Rows, last: nat, ts: nat,
                      r: Table, m: nat, lo: nat, cut: nat)
    requires Counting(leaves) && Told(events, leaves, last) && EndsAt(events, last) && Purged(leaves) <= Keys(events)
    requires ts < last && Known(events, ts) && k as real * third >= 1.0
    requires m <= |leaves| && Hole(rows, leaves, ts, lo, m) && (m < |leaves| ==> ts < leaves[m].ts)
    requires Answer(third, k, r, Keys(events) - Purged(leaves[..m]), cut)
    ensures Answered(third, r, Keys(events) - Purged(leaves[..m]), Seen(events, ts), Keys(events),
        Between(leaves, lo, m))
  {
    hide *;
    var q, seen, missed := Keys(events) - Purged(leaves[..m]), Seen(events, ts), Between(leaves, lo, m);
    forall x: Key
      ensures seen <= Keys(events) && q[x] <= Keys(events)[x] - seen[x] <= q[x] + missed[x]
          && Tolerable(third, q[x], |q|, Get(r, x))
    {
      BackInTime(third, k, events, leaves, rows, last, ts, r, m, lo, cut, x);
      BetweenIs(leaves, lo, m);
    }
    BackInTime(third, k, events, leaves, rows, last, ts, r, m, lo, cut, 0);
    IsAnswered(third, r, q, seen, Keys(events), missed);
  }

  lemma BetweenIs(leaves: seq<Batch>, lo: nat, m: nat)
    requires lo <= m <= |leaves| && (0 < m ==> lo < m)
    ensures Between(leaves, lo, m) == if 0 < m then Purged(leaves[lo + 1..m]) else multiset{}
  {
  }

  lemma IsAnswered(third: Third, r: Table, q: multiset<Key>, seen: multiset<Key>, all: multiset<Key>,
                   missed: multiset<Key>)
    requires seen <= all
    requires forall x: Key :: q[x] <= all[x] - seen[x] <= q[x] + missed[x] && Tolerable(third, q[x], |q|, Get(r, x))
    ensures Answered(third, r, q, seen, all, missed)
  {
    hide Tolerable;
  }

  /** What is reported came after ts as often as asked, but for the tolerance. */
  ghost predicate AllCame(third: Third, k: nat, hits: map<Key, nat>, total: nat, frac: real, seen: multiset<Key>,
                          all: multiset<Key>)
    requires 0 < k
  {
    forall x <- hits :: all[x] as real - seen[x] as real >= total as real * (frac - third - 1.0 / k as real)
  }

  lemma HitsCame(third: Third, k: nat, r: Table, hits: map<Key, nat>, total: nat, frac: real,
                 q: multiset<Key>, seen: multiset<Key>, all: multiset<Key>, missed: multiset<Key>)
    requires 0 < k && Answered(third, r, q, seen, all, missed)
    requires forall x :: x in hits <==> x in r && r[x] >= Cutoff(third, k, total, frac)
    ensures AllCame(third, k, hits, total, frac, seen, all)
  {
    forall x <- hits ensures all[x] as real - seen[x] as real >= total as real * (frac - third - 1.0 / k as real) {
      AnsweredAt(third, r, q, seen, all, missed, x);
      CutoffReached(third, k, r[x], total, frac, all[x], seen[x]);
    }
  }

  lemma AnsweredAt(third: Third, r: Table, q: multiset<Key>, seen: multiset<Key>, all: multiset<Key>,
                   missed: multiset<Key>, x: Key)
    requires Answered(third, r, q, seen, all, missed)
    ensures Get(r, x) + seen[x] <= all[x]
  {
    assert Tolerable(third, q[x], |q|, Get(r, x));
  }

  lemma CutoffReached(third: Third, k: nat, v: nat, total: nat, frac: real, a: nat, b: nat)
    requires 0 < k && v >= Cutoff(third, k, total, frac) && v + b <= a
    ensures a as real - b as real >= total as real * (frac - third - 1.0 / k as real)
  {
  }

  lemma HoleStarts(rows: Rows, leaves: seq<Batch>, ts: nat, lo: nat, m: nat)
    requires 0 < m ==> Hole(rows, leaves, ts, lo, m)
    ensures 0 < m ==> lo < |leaves| && leaves[lo].ts <= ts
  {
  }

  lemma NewerPart(h: multiset<Key>, seen: multiset<Key>, a: multiset<Key>, p: multiset<Key>, rest: multiset<Key>,
                  x: Key)
    requires seen <= a <= seen + rest && a + p <= h
    ensures seen <= h && (h - a)[x] <= h[x] - seen[x] <= (h - a)[x] + rest[x]
  {
    assert seen[x] <= a[x] <= seen[x] + rest[x];
    assert a <= h;
  }
}
