/**
 The nodes of the back-in-time tree sketch (pmmg.cpp, `TreeMisraGriesBITP`): each belongs
 to a tree through parent and children and to the list of its level through its siblings.
 */
module BitpNodes {
  import opened Products
  import opened Counts
  import opened MisraGriesSpec
  import opened Timeline
  import opened Batches
  import opened MergeStored

  /**
   A node of level l stands for the 2^l leaves from number start on. `cut` is the count up
   to which its counters have been dropped, 0 if they have not.
   */
  class Node {
    const ts: nat
    const total: nat
    ghost const level: nat
    ghost const start: nat
    ghost const size: nat
    var mg: Sketch
    ghost var cut: nat
    var parent: Node?
    var left: Node?
    var right: Node?
    var next: Node?
    var prev: Node?

    constructor (ts: nat, total: nat, mg: Sketch, left: Node?, right: Node?, ghost level: nat, ghost start: nat,
      ghost size: nat)
      ensures this.ts == ts && this.total == total && this.mg == mg && cut == 0
      ensures this.level == level && this.start == start && this.size == size
      ensures parent == null && this.left == left && this.right == right
    {
      this.ts, this.total, this.mg, cut := ts, total, mg, 0;
      this.level, this.start, this.size := level, start, size;
      this.left, this.right := left, right;
      parent, next, prev := null, null, null;
    }

    ghost function End(): nat {
      start + size
    }
  }

  // ----- where nodes stand

  ghost predicate Placed(row: seq<Node>, l: nat) {
    && (forall i :: 0 <= i < |row| ==> row[i].level == l && row[i].size == Pow2(l) && 0 < row[i].size)
    && (forall i :: 0 < i < |row| ==> row[i - 1].End() == row[i].start)
    && (forall i, j :: 0 <= i < j < |row| ==> row[i].End() <= row[j].start)
  }

  /** A node placed after a row is none of it, and the row has no node twice. */
  lemma PlacedApart(row: seq<Node>, n: Node, l: nat)
    requires Placed(row + [n], l)
    ensures Placed(row, l) && n.level == l && n !in row
    ensures forall i, j :: 0 <= i < j < |row| ==> row[i] != row[j]
    ensures row != [] ==> row[|row| - 1].End() == n.start
  {
    var all := row + [n];
    assert all[|row|] == n;
    forall i, j | 0 <= i < j <= |row| ensures all[i] != all[j] { assert all[i].End() <= all[j].start; }
    forall i | 0 <= i < |row| ensures row[i] != n { assert all[i] != all[|row|]; }
    forall i, j | 0 <= i < j < |row|
      ensures row[i] != row[j] && row[i].End() <= row[j].start { assert all[i] != all[j]; }
    forall i | 0 <= i < |row| ensures row[i] == all[i] {}
    assert row != [] ==> all[|row| - 1].End() == all[|row|].start;
  }

  /** The node's stamps are those of its first and its last leaf. */
  ghost predicate Stamped(leaves: seq<Batch>, n: Node) {
    && 0 < n.size && n.End() <= |leaves|
    && n.ts == leaves[n.start].ts && n.total == leaves[n.End() - 1].total
  }

  ghost predicate AllStamped(leaves: seq<Batch>, row: seq<Node>) {
    forall i :: 0 <= i < |row| ==> Stamped(leaves, row[i])
  }

  // ----- the list of a level

  /** `m_next` runs round the level, `m_prev` back to its front. */
  ghost predicate Ring(row: seq<Node>, last: Node?)
    reads row`next, row`prev
  {
    if row == [] then last == null
    else
      && last == row[|row| - 1] && row[|row| - 1].next == row[0]
      && (forall i :: 0 <= i < |row| - 1 ==> row[i].next == row[i + 1])
      && (forall i :: 0 < i < |row| ==> row[i].prev == row[i - 1])
  }

  /** Append a node to its level. */
  method AppendSibling(n: Node, last: Node?, ghost row: seq<Node>, ghost l: nat)
    requires Ring(row, last) && Placed(row + [n], l)
    modifies n`next, n`prev, (if last == null then {} else {last})`next
    ensures Ring(row + [n], n)
  {
    PlacedApart(row, n, l);
    hide Placed;
    if last == null {
      n.next := n;
      n.prev := null;
    } else {
      n.next := last.next;
      n.prev := last;
      last.next := n;
      RingGrows(row, n);
    }
  }

  lemma RingGrows(row: seq<Node>, n: Node)
    requires row != [] && n.next == row[0] && n.prev == row[|row| - 1] && row[|row| - 1].next == n
    requires forall i :: 0 <= i < |row| - 1 ==> row[i].next == row[i + 1]
    requires forall i :: 0 < i < |row| ==> row[i].prev == row[i - 1]
    ensures Ring(row + [n], n)
  {
    var all := row + [n];
    forall i | 0 <= i < |row| ensures all[i].next == all[i + 1] {}
    forall i | 0 < i <= |row| ensures all[i].prev == all[i - 1] {}
  }

  /** Take the two leftmost nodes out of the list of their level. */
  method DropSiblings(last: Node, ghost row: seq<Node>, ghost l: nat) returns (n: Node, n2: Node)
    requires Ring(row, last) && Placed(row, l) && 2 < |row|
    modifies last`next
    ensures n == row[0] && n2 == row[1] && Ring(row[2..], last)
  {
    assert forall i :: 0 <= i < |row| - 1 ==> row[i].start < row[|row| - 1].start;
    assert row[0].next == row[0 + 1] && row[1].next == row[1 + 1];
    n := last.next;
    n2 := n.next;
    last.next := n2.next;
  }

  // ----- parents and children

  /**
   Two neighbouring levels: all but the frontmost nodes of the upper one have two children,
   which are the nodes of the lower one in order; a last single one has no parent yet.
   */
  ghost predicate Family(lo: seq<Node>, up: seq<Node>)
    reads lo`parent, up`left, up`right
  {
    var s := |up| - |lo| / 2;
    && 0 <= s
    && (forall i :: 0 <= i < s ==> up[i].left == null && up[i].right == null)
    && (forall i :: 0 <= i < |lo| / 2 ==>
          && up[s + i].left == lo[2 * i] && up[s + i].right == lo[2 * i + 1]
          && lo[2 * i].parent == lo[2 * i + 1].parent == up[s + i]
          && up[s + i].start == lo[2 * i].start && up[s + i].End() == lo[2 * i + 1].End())
    && (|lo| % 2 == 1 ==> lo[|lo| - 1].parent == null)
  }

  /** Make the parent of the last single node and its new sibling. */
  method Join(older: Node, newer: Node, total: nat, ghost lo: seq<Node>, ghost up: seq<Node>, ghost l: nat)
    returns (top: Node)
    requires Family(lo, up) && |lo| % 2 == 1 && older == lo[|lo| - 1] && Placed(lo + [newer], l)
    requires Placed(up, l + 1)
    modifies older`parent, newer`parent
    ensures fresh(top) && top.ts == older.ts && top.total == total && top.level == l + 1
    ensures top.start == older.start && top.size == older.size + newer.size
    ensures top.mg.Dropped? && top.cut == 0 && top.parent == null
    ensures Family(lo + [newer], up + [top])
  {
    PlacedApart(lo, newer, l);
    hide Placed;
    top := new Node(older.ts, total, Dropped, older, newer, l + 1, older.start, older.size + newer.size);
    older.parent := top;
    newer.parent := top;
    GrowFamily(lo, up, newer, top);
  }

  lemma GrowFamily(lo: seq<Node>, up: seq<Node>, newer: Node, top: Node)
    requires |lo| % 2 == 1 && |lo| / 2 <= |up|
    requires var s, older := |up| - |lo| / 2, lo[|lo| - 1];
      && (forall i :: 0 <= i < s ==> up[i].left == null && up[i].right == null)
      && (forall i :: 0 <= i < |lo| / 2 ==>
            && up[s + i].left == lo[2 * i] && up[s + i].right == lo[2 * i + 1]
            && lo[2 * i].parent == lo[2 * i + 1].parent == up[s + i]
            && up[s + i].start == lo[2 * i].start && up[s + i].End() == lo[2 * i + 1].End())
      && top.left == older && top.right == newer && older.parent == newer.parent == top
      && top.start == older.start && top.End() == newer.End()
    ensures Family(lo + [newer], up + [top])
  {
    var lo', up', s := lo + [newer], up + [top], |up| - |lo| / 2;
    assert |up'| - |lo'| / 2 == s;
    forall i | 0 <= i < |lo'| / 2
      ensures up'[s + i].left == lo'[2 * i] && up'[s + i].right == lo'[2 * i + 1]
      ensures lo'[2 * i].parent == lo'[2 * i + 1].parent == up'[s + i]
      ensures up'[s + i].start == lo'[2 * i].start && up'[s + i].End() == lo'[2 * i + 1].End()
    {
      if i < |lo| / 2 {
        assert up'[s + i] == up[s + i] && lo'[2 * i] == lo[2 * i] && lo'[2 * i + 1] == lo[2 * i + 1];
      } else {
        assert up'[s + i] == top && lo'[2 * i] == lo[|lo| - 1] && lo'[2 * i + 1] == newer;
      }
    }
  }

  /** Cut the oldest pair off its parent. */
  method Orphan(n: Node, ghost lo: seq<Node>, ghost up: seq<Node>, ghost l: nat) returns (p: Node)
    requires Family(lo, up) && 2 <= |lo| && n == lo[0] && Placed(up, l + 1)
    modifies up`left, up`right
    ensures p == old(n.parent) && p == lo[1].parent && p == up[|up| - |lo| / 2]
    ensures Family(lo[2..], up)
    ensures forall x <- up :: x != p ==> x.left == old(x.left) && x.right == old(x.right)
  {
    ghost var s := |up| - |lo| / 2;
    FirstPair(lo, up);
    p := n.parent;
    assert forall i :: 0 <= i < |up| && i != s ==> up[i] != up[s];
    p.left, p.right := null, null;
    ShiftLower(lo, up, s);
  }

  lemma FirstPair(lo: seq<Node>, up: seq<Node>)
    requires Family(lo, up) && 2 <= |lo|
    ensures var s := |up| - |lo| / 2;
            0 <= s < |up| && up[s].left == lo[0] && up[s].right == lo[1] && lo[0].parent == lo[1].parent == up[s]
  {
    var i := 0;
    assert 0 <= i < |lo| / 2;
    var s := |up| - |lo| / 2;
    assert up[s + i].left == lo[2 * i] && lo[2 * i].parent == lo[2 * i + 1].parent == up[s + i];
  }

  /** Once the first pair's parent is childless the rest of the lower level fits the upper one. */
  lemma ShiftLower(lo: seq<Node>, up: seq<Node>, s: nat)
    requires 2 <= |lo| && |up| == s + |lo| / 2
    requires forall i :: 0 <= i <= s ==> up[i].left == null && up[i].right == null
    requires forall i :: 1 <= i < |lo| / 2 ==>
          && up[s + i].left == lo[2 * i] && up[s + i].right == lo[2 * i + 1]
          && lo[2 * i].parent == lo[2 * i + 1].parent == up[s + i]
          && up[s + i].start == lo[2 * i].start && up[s + i].End() == lo[2 * i + 1].End()
    requires |lo| % 2 == 1 ==> lo[|lo| - 1].parent == null
    ensures Family(lo[2..], up)
  {
    var lo' := lo[2..];
    var s' := |up| - |lo'| / 2;
    assert s' == s + 1;
    forall i | 0 <= i < |lo'| / 2
      ensures up[s' + i].left == lo'[2 * i] && up[s' + i].right == lo'[2 * i + 1]
      ensures lo'[2 * i].parent == lo'[2 * i + 1].parent == up[s' + i]
      ensures up[s' + i].start == lo'[2 * i].start && up[s' + i].End() == lo'[2 * i + 1].End()
    {
      var j := i + 1;
      assert up[s + j].left == lo[2 * j] && lo'[2 * i] == lo[2 * j] && lo'[2 * i + 1] == lo[2 * j + 1];
    }
  }

  /** Without its two frontmost nodes, which have no children, the upper level is as before. */
  lemma ShortenUpper(lo: seq<Node>, up: seq<Node>)
    requires Family(lo, up) && 2 <= |up| - |lo| / 2
    ensures Family(lo, up[2..])
  {
  }

  // ----- the sketches of a level

  function KeepAbove(t: Table, d: nat): Table {
    map x | x in t && t[x] > d :: Get(t, x)
  }

  ghost function Before(leaves: seq<Batch>, a: nat): nat
    requires a <= |leaves|
  {
    if a == 0 then 0 else leaves[a - 1].total
  }

  /** The number of occurrences from leaf a on. */
  ghost function Since(leaves: seq<Batch>, a: nat): int
    requires a <= |leaves|
  {
    Before(leaves, |leaves|) - Before(leaves, a)
  }

  /** The node's sketch is the merge of its leaves. */
  ghost predicate Whole(k: nat, leaves: seq<Batch>, n: Node)
    reads n`mg, n`cut
  {
    && n.cut == 0 && n.mg.Kept? && n.End() <= |leaves|
    && MergeOf(k, leaves[n.start..n.End()], n.mg.cnt)
  }

  /** Or what is left of it once counters up to a third of the tolerance have been dropped. */
  ghost predicate Stands(third: Third, k: nat, leaves: seq<Batch>, n: Node)
    reads n`mg, n`cut
  {
    && n.mg.Kept? && n.End() <= |leaves|
    && n.cut as real <= third * Since(leaves, n.start) as real
    && exists c :: MergeOf(k, leaves[n.start..n.End()], c) && n.mg.cnt == KeepAbove(c, n.cut)
  }

  /**
   Right children and a node still without sibling keep their sketch, left children do not;
   only right children among the s childless nodes have dropped counters.
   */
  ghost predicate Keeps(third: Third, k: nat, leaves: seq<Batch>, row: seq<Node>, s: int)
    reads row`mg, row`cut
  {
    forall i :: 0 <= i < |row| ==>
      if i % 2 == 1 then Stands(third, k, leaves, row[i]) && (row[i].cut > 0 ==> i < s)
      else if i + 1 == |row| then Whole(k, leaves, row[i])
      else row[i].mg.Dropped? && row[i].cut == 0
  }

  ghost predicate Counting(leaves: seq<Batch>) {
    && (forall i, j :: 0 <= i < j < |leaves| ==> leaves[i].ts < leaves[j].ts && leaves[i].total <= leaves[j].total)
  }

  lemma {:induction false} SinceIsNat(leaves: seq<Batch>, a: nat)
    requires Counting(leaves) && a <= |leaves|
    ensures 0 <= Since(leaves, a)
  {
  }

  lemma WholeStands(third: Third, k: nat, leaves: seq<Batch>, n: Node)
    requires 0 < k && Storable(k, leaves) && Counting(leaves) && Whole(k, leaves, n)
    ensures Stands(third, k, leaves, n) && Positive(n.mg.cnt)
  {
    hide MergeOf, Storable;
    SinceIsNat(leaves, n.start);
    Scaled(0.0, Since(leaves, n.start) as real, third);
    StorableRange(k, leaves, n.start, n.End());
    MergeOfCredit(k, leaves[n.start..n.End()], n.mg.cnt);
    assert n.mg.cnt == KeepAbove(n.mg.cnt, 0);
  }

  /** The parent takes over the left child's sketch and merges the right child's into it. */
  method MergeSketches(k: nat, older: Node, newer: Node, top: Node, ghost leaves: seq<Batch>)
    requires 0 < k && Storable(k, leaves) && top != older && top != newer && older != newer
    requires Whole(k, leaves, older) && Whole(k, leaves, newer)
    requires older.End() == newer.start && top.start == older.start && top.End() == newer.End()
    requires newer.size > 0 && top.cut == 0
    modifies top`mg, older`mg
    ensures Whole(k, leaves, top) && older.mg.Dropped?
  {
    hide MergeOf, Storable, Merged, Positive;
    ghost var a, b := leaves[older.start..older.End()], leaves[newer.start..newer.End()];
    ghost var ta, tb := older.mg.cnt, newer.mg.cnt;
    RunsJoin(k, leaves, older.start, older.End(), newer.End());
    MergeOfCredit(k, a, ta);
    MergeOfCredit(k, b, tb);
    var merged := MergeTables(k, older.mg.cnt, newer.mg.cnt);
    MergeRuns(k, a, b, ta, tb, merged);
    top.mg := Kept(merged);
    older.mg := Dropped;
  }

  lemma RunsJoin(k: nat, leaves: seq<Batch>, a: nat, b: nat, c: nat)
    requires a <= b <= c <= |leaves| && Storable(k, leaves)
    ensures leaves[a..b] + leaves[b..c] == leaves[a..c]
    ensures Storable(k, leaves[a..b]) && Storable(k, leaves[b..c]) && Storable(k, leaves[a..c])
  {
    hide Storable;
    StorableRange(k, leaves, a, b);
    StorableRange(k, leaves, b, c);
    StorableRange(k, leaves, a, c);
  }

  /** The erasing loop of the compression. */
  method DropSmall(t: Table, threshold: nat) returns (r: Table)
    ensures r == KeepAbove(t, threshold)
  {
    r := t;
    var todo := t.Keys;
    while todo != {}
      invariant todo <= t.Keys
      invariant forall x :: x in r <==> x in t && (x in todo || t[x] > threshold)
      invariant forall x <- r :: r[x] == t[x]
    {
      var x :| x in todo;
      todo := todo - {x};
      if t[x] <= threshold { r := r - {x}; }
    }
    assert r == KeepAbove(t, threshold);
  }

  /** A kept sketch has lost just the counters up to a third of the tolerance of what came since its node began. */
  ghost predicate Thinned(third: Third, leaves: seq<Batch>, start: nat, was: Sketch, now: Sketch) {
    && start <= |leaves|
    && if was.Dropped? then now == was else
      && now.Kept?
      && (forall x :: x in now.cnt <==> x in was.cnt && was.cnt[x] as real > third * Since(leaves, start) as real)
      && forall x <- now.cnt :: now.cnt[x] == was.cnt[x]
  }

  /** Of all sketches only the one of p is thinned, if it has one. */
  ghost predicate OneThinned(third: Third, leaves: seq<Batch>, p: Node?, was: map<Node, Sketch>,
                             now: map<Node, Sketch>)
  {
    && p != null && p in was && p in now && Thinned(third, leaves, p.start, was[p], now[p])
    && forall n <- now :: n in was && (n != p ==> now[n] == was[n])
  }

  lemma ThinnedIs(third: Third, leaves: seq<Batch>, start: nat, t: Table, r: Table, tot: nat)
    requires start <= |leaves| && tot == Since(leaves, start) && (tot as real * third).Floor >= 0
    requires r == KeepAbove(t, (tot as real * third).Floor)
    ensures Thinned(third, leaves, start, Kept(t), Kept(r))
  {
    hide Since;
    assert tot as real * third == third * tot as real;
  }

  lemma ThinnedStays(third: Third, leaves: seq<Batch>, start: nat)
    requires start <= |leaves|
    ensures Thinned(third, leaves, start, Dropped, Dropped)
  {
  }

  /** Compress a node that has lost its children: drop what no later query needs. */
  method Compress(third: Third, k: nat, p: Node, prev: Node, total: nat, ghost leaves: seq<Batch>)
    requires 0 < k && Storable(k, leaves) && Counting(leaves) && Stands(third, k, leaves, p) && p.cut == 0
    requires Stamped(leaves, prev) && prev.End() == p.start && total == Before(leaves, |leaves|)
    modifies p`mg, p`cut
    ensures Stands(third, k, leaves, p)
    ensures old(p.mg).Kept? && Thinned(third, leaves, p.start, old(p.mg), p.mg)
  {
    hide *;
    TotalSince(leaves, p, prev);
    SinceIsNat(leaves, p.start);
    var tot := total - prev.total;
    FloorShare(third, tot);
    var threshold := (tot as real * third).Floor;
    ghost var c := UncutIsWhole(third, k, leaves, p);
    var t := DropSmall(p.mg.cnt, threshold);
    p.mg := Kept(t);
    p.cut := threshold;
    CutStands(third, k, leaves, p, c);
    ThinnedIs(third, leaves, p.start, c, t, tot);
  }

  lemma TotalSince(leaves: seq<Batch>, p: Node, prev: Node)
    requires Stamped(leaves, prev) && prev.End() == p.start
    ensures p.start <= |leaves| && prev.total == Before(leaves, p.start)
    ensures Before(leaves, |leaves|) - prev.total == Since(leaves, p.start)
  {
  }

  lemma UncutIsWhole(third: Third, k: nat, leaves: seq<Batch>, p: Node) returns (c: Table)
    requires 0 < k && Storable(k, leaves) && Stands(third, k, leaves, p) && p.cut == 0
    ensures p.mg.Kept? && p.mg.cnt == c && p.End() <= |leaves| && MergeOf(k, leaves[p.start..p.End()], c)
  {
    hide MergeOf, Storable;
    c :| MergeOf(k, leaves[p.start..p.End()], c) && p.mg.cnt == KeepAbove(c, 0);
    StorableRange(k, leaves, p.start, p.End());
    MergeOfCredit(k, leaves[p.start..p.End()], c);
  }

  lemma CutStands(third: Third, k: nat, leaves: seq<Batch>, p: Node, c: Table)
    requires p.End() <= |leaves| && MergeOf(k, leaves[p.start..p.End()], c)
    requires p.mg == Kept(KeepAbove(c, p.cut)) && p.cut as real <= third * Since(leaves, p.start) as real
    ensures Stands(third, k, leaves, p)
  {
    hide MergeOf, KeepAbove;
  }

  lemma FloorShare(third: Third, n: nat)
    ensures 0 <= (n as real * third).Floor
    ensures (n as real * third).Floor as real <= third * n as real
  {
    Scaled(0.0, n as real, third);
  }

  lemma KeepsMore(third: Third, k: nat, leaves: seq<Batch>, row: seq<Node>, n: Node, s: int)
    requires |row| % 2 == 1 && row[|row| - 1].mg.Dropped? && row[|row| - 1].cut == 0
    requires forall i :: 0 <= i < |row| - 1 ==>
      if i % 2 == 1 then Stands(third, k, leaves, row[i]) && (row[i].cut > 0 ==> i < s)
      else row[i].mg.Dropped? && row[i].cut == 0
    requires Stands(third, k, leaves, n) && n.cut == 0
    ensures Keeps(third, k, leaves, row + [n], s)
  {
    hide Stands;
  }

  /** The new parent takes over its left child's sketch, merged with that of its right child. */
  method HandOver(third: Third, k: nat, older: Node, newer: Node, top: Node, ghost row: seq<Node>,
                  ghost leaves: seq<Batch>,
                  ghost s: int, ghost l: nat)
    requires 0 < k && Storable(k, leaves) && Counting(leaves)
    requires |row| % 2 == 1 && older == row[|row| - 1] && Placed(row + [newer], l) && 0 < newer.size
    requires top !in row && top != newer && top.start == older.start && top.End() == newer.End() && top.cut == 0
    requires Keeps(third, k, leaves, row, s) && Whole(k, leaves, newer)
    modifies top`mg, older`mg
    ensures Whole(k, leaves, top) && Keeps(third, k, leaves, row + [newer], s)
  {
    hide Whole, Stands, Storable, Counting, Placed;
    PlacedApart(row, newer, l);
    WholeIsUncut(k, leaves, older);
    WholeIsUncut(k, leaves, newer);
    WholeStands(third, k, leaves, newer);
    MergeSketches(k, older, newer, top, leaves);
    KeepsMore(third, k, leaves, row, newer, s);
  }

  lemma WholeIsUncut(k: nat, leaves: seq<Batch>, n: Node)
    requires Whole(k, leaves, n)
    ensures n.cut == 0
  {
  }

  /** Node s of the row has just lost its children: compress its sketch, if it has one. */
  method CompressIn(third: Third, k: nat, p: Node, total: nat, ghost row: seq<Node>, ghost s: nat, ghost last: Node?,
                    ghost leaves: seq<Batch>, ghost l: nat)
    requires 0 < k && Storable(k, leaves) && Counting(leaves) && total == Before(leaves, |leaves|)
    requires s + 1 < |row| && p == row[s] && Placed(row, l) && AllStamped(leaves, row) && Ring(row, last)
    requires Keeps(third, k, leaves, row, s)
    modifies p`mg, p`cut
    ensures Keeps(third, k, leaves, row, s + 1)
    ensures Thinned(third, leaves, p.start, old(p.mg), p.mg)
  {
    hide Stands, Whole, Storable, Counting, Thinned;
    assert forall i :: 0 <= i < |row| && i != s ==> row[i] != p by { RowDistinct(row, l); }
    if p.mg.Kept? {
      assert s % 2 == 1 && Stands(third, k, leaves, p) && p.cut == 0;
      PrevIs(row, last, s, leaves, l);
      Compress(third, k, p, p.prev, total, leaves);
    } else {
      StampedStarts(leaves, row, s);
      ThinnedStays(third, leaves, p.start);
    }
  }

  lemma StampedStarts(leaves: seq<Batch>, row: seq<Node>, s: nat)
    requires AllStamped(leaves, row) && s < |row|
    ensures row[s].start <= |leaves|
  {
  }

  lemma RowDistinct(row: seq<Node>, l: nat)
    requires Placed(row, l)
    ensures forall i, j :: 0 <= i < j < |row| ==> row[i] != row[j]
  {
    forall i, j | 0 <= i < j < |row| ensures row[i] != row[j] { assert row[i].End() <= row[j].start; }
  }

  lemma PrevIs(row: seq<Node>, last: Node?, s: nat, leaves: seq<Batch>, l: nat)
    requires 0 < s < |row| && Ring(row, last) && Placed(row, l) && AllStamped(leaves, row)
    ensures row[s].prev == row[s - 1] && Stamped(leaves, row[s - 1]) && row[s - 1].End() == row[s].start
  {
  }

  /** Dropping the oldest pair leaves left and right children what they are. */
  lemma KeepsCut(third: Third, k: nat, leaves: seq<Batch>, row: seq<Node>, s: int)
    requires Keeps(third, k, leaves, row, s) && 2 <= |row|
    ensures Keeps(third, k, leaves, row[2..], s - 2)
  {
    hide Stands, Whole;
    var row' := row[2..];
    forall i | 0 <= i < |row'|
      ensures if i % 2 == 1 then Stands(third, k, leaves, row'[i]) && (row'[i].cut > 0 ==> i < s - 2)
              else if i + 1 == |row'| then Whole(k, leaves, row'[i])
              else row'[i].mg.Dropped? && row'[i].cut == 0
    {
      assert row'[i] == row[i + 2];
    }
  }

  // ----- one leaf more

  lemma BeforeGrows(leaves: seq<Batch>, b: Batch, a: nat)
    requires Counting(leaves + [b]) && a <= |leaves|
    ensures Before(leaves + [b], a) == Before(leaves, a) && Since(leaves, a) <= Since(leaves + [b], a)
  {
    assert forall i :: 0 <= i < |leaves| ==> (leaves + [b])[i] == leaves[i];
    if |leaves| > 0 { assert (leaves + [b])[|leaves| - 1].total <= (leaves + [b])[|leaves|].total; }
  }

  lemma StandsGrows(third: Third, k: nat, leaves: seq<Batch>, b: Batch, n: Node)
    requires Counting(leaves + [b]) && Stands(third, k, leaves, n)
    ensures Stands(third, k, leaves + [b], n)
  {
    hide MergeOf, KeepAbove, Counting;
    assert (leaves + [b])[n.start..n.End()] == leaves[n.start..n.End()];
    BeforeGrows(leaves, b, n.start);
    Scaled(Since(leaves, n.start) as real, Since(leaves + [b], n.start) as real, third);
  }

  lemma WholeGrows(k: nat, leaves: seq<Batch>, b: Batch, n: Node)
    requires Whole(k, leaves, n)
    ensures Whole(k, leaves + [b], n)
  {
    assert (leaves + [b])[n.start..n.End()] == leaves[n.start..n.End()];
  }

  lemma KeepsGrows(third: Third, k: nat, leaves: seq<Batch>, b: Batch, row: seq<Node>, s: int, s': int)
    requires Counting(leaves + [b]) && Keeps(third, k, leaves, row, s) && s <= s'
    ensures Keeps(third, k, leaves + [b], row, s')
  {
    hide Stands, Whole, Counting;
    forall i | 0 <= i < |row|
      ensures if i % 2 == 1 then Stands(third, k, leaves + [b], row[i]) && (row[i].cut > 0 ==> i < s')
              else if i + 1 == |row| then Whole(k, leaves + [b], row[i])
              else row[i].mg.Dropped? && row[i].cut == 0
    {
      if i % 2 == 1 { StandsGrows(third, k, leaves, b, row[i]); }
      else if i + 1 == |row| { WholeGrows(k, leaves, b, row[i]); }
    }
  }

  lemma StampsGrow(leaves: seq<Batch>, b: Batch, row: seq<Node>)
    requires AllStamped(leaves, row)
    ensures AllStamped(leaves + [b], row)
  {
    forall i | 0 <= i < |row| ensures Stamped(leaves + [b], row[i]) { assert Stamped(leaves, row[i]); }
  }

  lemma CountingGrows(leaves: seq<Batch>, b: Batch)
    requires Counting(leaves) && (leaves != [] ==>
        leaves[|leaves| - 1].ts < b.ts && leaves[|leaves| - 1].total <= b.total)
    ensures Counting(leaves + [b])
  {
    var all := leaves + [b];
    forall i, j | 0 <= i < j < |all| ensures all[i].ts < all[j].ts && all[i].total <= all[j].total {
      if j == |leaves| && i < j - 1 { assert leaves[i].ts < leaves[j - 1].ts; }
    }
  }

  /** A leaf's sketch is the merge of its own counters. */
  lemma LeafIsWhole(k: nat, leaves: seq<Batch>, b: Batch, n: Node)
    requires n.cut == 0 && n.start == |leaves| && n.size == 1 && n.mg == Kept(b.counts)
    ensures Whole(k, leaves + [b], n)
  {
    assert (leaves + [b])[n.start..n.End()] == [b];
  }
}
