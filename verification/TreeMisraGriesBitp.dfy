/** `TreeMisraGriesBITP` (pmmg.cpp): a pruned forest of sketches for back-in-time queries. */
module BitpSketch {
  import opened Products
  import opened Counts
  import opened MisraGriesSpec
  import opened MisraGriesSketch
  import opened Timeline
  import opened Batches
  import opened BitpNodes
  import opened MergeStored
  import opened BitpRows
  import opened BitpQuery
  import opened BitpBound

  /** A positive timestamp that changes leaves one more leaf. */
  ghost predicate LeafCut(before: seq<Batch>, after: seq<Batch>, last: nat, ts: nat) {
    if last == 0 || last == ts then after == before
    else after != [] && after[..|after| - 1] == before && after[|after| - 1].ts == last
  }

  class TreeMisraGriesBITP {
    const third: Third
    const k: nat
    var cur: MisraGries
    const tree: array<Node?>
    const rightMost: array<Node?>
    var lastTs: nat
    var total: nat
    var level: nat
    var remaining: nat
    ghost var rows: Rows
    ghost var leaves: seq<Batch>
    ghost var events: seq<Event>
    ghost var quota: nat

    constructor (third: Third)
      requires third < 1.0
      ensures Valid() && events == [] && leaves == [] && lastTs == 0 && quota == 2 * k
      ensures this.third == third && k == Ceil(1.0 / third) && NodesOf(rows) == {}
      ensures fresh(cur) && fresh(tree) && fresh(rightMost)
    {
      CeilCovers(third);
      this.third := third;
      k := Ceil(1.0 / third);
      cur := new MisraGries(Ceil(1.0 / third));
      tree := new Node?[64](_ => null);
      rightMost := new Node?[64](_ => null);
      lastTs, total, level := 0, 0, 0;
      remaining, quota := 2 * Ceil(1.0 / third), 2 * Ceil(1.0 / third);
      rows, leaves, events := NoRows(), [], [];
      new;
      MoreThanOne(third);
      NothingYet();
    }

    lemma NothingYet()
      requires tree.Length == 64 == rightMost.Length && tree != rightMost
      requires forall m :: 0 <= m < 64 ==> tree[m] == null && rightMost[m] == null
      requires 2 <= k && cur.k == k && cur.State() == Empty(k) && cur.eps == 1.0 / k as real && k as real * third >= 1.0
      requires rows == NoRows() && leaves == [] && events == [] && total == 0 && level == 0 && lastTs == 0
      requires Left(remaining) == quota && (quota == 2 * k || quota == WRAP)
      ensures Valid()
    {
      hide *;
      NoRoots(0);
      NoNodes();
      NothingLinked(third, k, tree[..]);
      NothingLinked(third, k, rightMost[..]);
      NothingIsFine(k);
      EmptyStands(k);
      StableIs();
      NothingTold([], lastTs);
      CutNone(lastTs);
      NothingDated();
      NothingSized(k);
      StagedIs();
      ValidIs();
    }

    /** `clear`; unlike the constructor it leaves 0 in the countdown. */
    method Clear()
      requires Valid()
      modifies this, tree, rightMost, cur
      ensures Valid() && events == [] && leaves == [] && remaining == 0 && quota == WRAP
    {
      hide *;
      ValidParts();
      CurParts();
      StableParts();
      lastTs, total, level, remaining, quota := 0, 0, 0, 0, WRAP;
      cur.Clear();
      var i := 0;
      while i < 64
        invariant i <= 64 && forall m :: 0 <= m < i ==> tree[m] == null && rightMost[m] == null
        modifies tree, rightMost
      {
        tree[i], rightMost[i] := null, null;
        i := i + 1;
      }
      rows, leaves, events := NoRows(), [], [];
      WrapIs();
      NothingYet();
    }

    lemma WrapIs()
      ensures Left(0) == WRAP
    {
    }

    ghost predicate Shaped()
      reads `rows, `leaves
    {
      && tree.Length == 64 && rightMost.Length == 64 && tree != rightMost
      && 0 < k && Standing(rows, leaves) && Storable(k, leaves) && Counting(leaves)
    }

    /** tn is the next node of level l, its sketch complete. */
    ghost predicate Floating(l: nat, tn: Node)
      reads `rows, `leaves, tn`mg, tn`cut
    {
      && Roots(rows, l, tn.start) && tn.End() == |leaves| && Stamped(leaves, tn)
      && Placed(Row(rows, l) + [tn], l) && tn !in NodesOf(rows)
      && Whole(k, leaves, tn)
    }

    /** Between the steps of a carry: tn is about to join level l, below which all is done. */
    ghost predicate Carrying(l: nat, tn: Node)
      reads `rows, `leaves, `total, tree, rightMost, NodesOf(rows), Row(rows, l - 1), Row(rows, l), tn
    {
      && Shaped() && l <= 64 && Floating(l, tn) && total == Before(leaves, |leaves|) && tn.parent == null
      && Families(rows, l) && Joining(rows, l, tn)
      && Rings(rows, rightMost[..]) && Tops(rows, tree[..]) && Sketched(third, k, leaves, rows, l)
    }

    /** New parent for the single node of level l and tn. */
    method JoinAt(l: nat, tn: Node) returns (top: Node)
      requires Shaped() && l < 64 && |rows[l]| % 2 == 1 && tree[l] == Top(rows[l])
      requires Placed(rows[l] + [tn], l) && tn !in NodesOf(rows)
      requires Families(rows, l) && Family(Row(rows, l - 1), rows[l] + [tn])
      modifies NodesOf(rows)`parent, tn`parent
      ensures fresh(top) && top !in NodesOf(rows) && top.ts == tree[l].ts && top.total == total && top.level == l + 1
      ensures top.start == tree[l].start && top.End() == tn.End() && top.mg.Dropped? && top.cut == 0
          && top.parent == null
      ensures Families(rows[l := rows[l] + [tn]], l + 1)
      ensures allocated(Row(rows, l + 1) + [top]) && Family(rows[l] + [tn], Row(rows, l + 1) + [top])
    {
      hide Placed, Family, AllStamped;
      ghost var rows' := rows[l := rows[l] + [tn]];
      RowPlaced(rows, leaves, l + 1);
      PlacedApart(rows[l], tn, l);
      assert Family(Row(rows, l), Row(rows, l + 1));
      var older := tree[l];
      top := Join(older, tn, total, rows[l], Row(rows, l + 1), l);
      forall m | 0 <= m <= 64 && m != l + 1 ensures Family(Row(rows', m - 1), Row(rows', m)) {
        LevelsApart(rows, leaves, m - 1, l);
        RowNodes(rows, m - 1);
        ghost var up := if m == l then rows[l] + [tn] else Row(rows, m);
        assert old(allocated(Row(rows, m - 1)) && allocated(up));
        assert old(Family(Row(rows, m - 1), up));
        assert Row(rows', m - 1) == Row(rows, m - 1) && Row(rows', m) == up;
        assert older in Row(rows, l);
        assert forall n <- Row(rows, m - 1) :: n.parent == old(n.parent);
        assert forall n <- up :: n.left == old(n.left) && n.right == old(n.right);
      }
    }

    /** The new parent takes over the single node's sketch and merges tn's into it. */
    method SketchAt(l: nat, older: Node, tn: Node, top: Node)
      requires 0 < k && Standing(rows, leaves) && Storable(k, leaves) && Counting(leaves)
      requires |rows| == 64 && l < 64 && |rows[l]| % 2 == 1 && older == rows[l][|rows[l]| - 1] && 0 < tn.size
      requires Placed(rows[l] + [tn], l) && top !in NodesOf(rows) && tn != top
      requires top.start == older.start && top.End() == tn.End() && top.cut == 0
      requires Whole(k, leaves, tn) && Sketched(third, k, leaves, rows, l)
      modifies top`mg, older`mg
      ensures Whole(k, leaves, top)
      ensures Sketched(third, k, leaves, rows[l := rows[l] + [tn]], l + 1)
    {
      hide *;
      ghost var rows' := rows[l := rows[l] + [tn]];
      SketchedEach(third, k, leaves, rows, l);
      StandsInRow(rows, leaves, l, top);
      HandOver(third, k, older, tn, top, rows[l], leaves, Front(rows, l, l), l);
      forall m | 0 <= m < 64 && m != l ensures Keeps(third, k, leaves, rows[m], Front(rows, m, l)) {
        OthersApart(rows, leaves, m, l, top);
        assert forall n <- rows[m] :: n.mg == old(n.mg) && n.cut == old(n.cut);
      }
      SketchedGrown(third, k, leaves, rows, l, tn);
    }

    /** Put tn at the end of the list of level l. */
    method ListAt(l: nat, tn: Node)
      requires Standing(rows, leaves) && |rows| == 64 && l < 64 && rightMost.Length == 64
      requires Placed(rows[l] + [tn], l) && tn !in NodesOf(rows) && Rings(rows, rightMost[..])
      modifies rightMost, tn`next, tn`prev, NodesOf(rows)`next
      ensures Rings(rows[l := rows[l] + [tn]], rightMost[..])
    {
      hide *;
      var last := rightMost[l];
      RingsEach(rows, rightMost[..]);
      ghost var before := rightMost[..];
      assert before[l] == last;
      LastInRow(rows, l, last);
      AppendSibling(tn, last, rows[l], l);
      forall m | 0 <= m < 64 && m != l ensures Ring(rows[m], before[m]) {
        if last != null { OthersApart(rows, leaves, m, l, tn); } else { NotInRow(rows, m, tn); }
        assert forall n <- rows[m] :: n.next == old(n.next) && n.prev == old(n.prev);
      }
      rightMost[l] := tn;
      assert forall m | 0 <= m < 64 && m != l :: rightMost[m] == before[m];
      RingsAll(rows[l := rows[l] + [tn]], rightMost[..]);
    }

    /** One carry: tn and the single node of its level get a parent, which is to join the next level. */
    method Pair(l: nat, tn: Node) returns (top: Node)
      requires l < 64 == |rows| && |rows[l]| % 2 == 1 && Carrying(l, tn)
      modifies `rows, tree, rightMost, NodesOf(rows), tn
      ensures rows == old(rows)[l := old(rows[l]) + [tn]]
      ensures fresh(top) && NodesOf(rows) == old(NodesOf(rows)) + {tn}
      ensures Carrying(l + 1, top)
    {
      hide *;
      CarryingParts(l, tn);
      ShapedParts();
      FloatingParts(l, tn);
      TopOfRow(rows, tree[..], l, tn);
      assert allocated(NodesOf(rows));
      var older := tree[l];
      top := JoinAt(l, tn);
      ghost var lo, up := rows[l] + [tn], Row(rows, l + 1) + [top];
      assert allocated(lo) && allocated(up);
      SketchAt(l, older, tn, top);
      ListAt(l, tn);
      assert Family(lo, up);
      PairPlaces(rows, leaves, l, tn, top);
      tree[l] := null;
      PairTops(rows, old(tree[..]), tree[..], l, tn);
      rows := rows[l := rows[l] + [tn]];
      JoiningIs(rows, l, top);
      CarryingIs(l + 1, top);
    }

    lemma CarryingParts(l: nat, tn: Node)
      requires Carrying(l, tn)
      ensures Shaped() && Floating(l, tn) && Families(rows, l) && Joining(rows, l, tn)
      ensures Rings(rows, rightMost[..]) && Tops(rows, tree[..]) && Sketched(third, k, leaves, rows, l)
      ensures total == Before(leaves, |leaves|) && l <= 64 && tn.parent == null
    {
      hide Shaped, Floating, Families, Joining, Rings, Tops, Sketched;
    }

    lemma ShapedParts()
      requires Shaped()
      ensures 0 < k && Standing(rows, leaves) && Storable(k, leaves) && Counting(leaves)
      ensures tree.Length == 64 && rightMost.Length == 64 && tree != rightMost
    {
      hide Standing, Storable, Counting;
    }

    lemma FloatingParts(l: nat, tn: Node)
      requires Floating(l, tn)
      ensures Roots(rows, l, tn.start) && tn.End() == |leaves| && Stamped(leaves, tn) && 0 < tn.size
      ensures Placed(Row(rows, l) + [tn], l) && tn !in NodesOf(rows) && Whole(k, leaves, tn)
    {
      hide Roots, Placed, NodesOf, Whole, Row;
    }

    lemma CarryingIs(l: nat, tn: Node)
      requires tree.Length == 64 && rightMost.Length == 64 && tree != rightMost && |rows| == 64
      requires 0 < k && Standing(rows, leaves) && Storable(k, leaves) && Counting(leaves) && l <= 64
      requires Roots(rows, l, tn.start) && tn.End() == |leaves| && Stamped(leaves, tn)
      requires Placed(Row(rows, l) + [tn], l) && tn !in NodesOf(rows) && Whole(k, leaves, tn)
      requires total == Before(leaves, |leaves|) && tn.parent == null
      requires Families(rows, l) && Joining(rows, l, tn)
      requires Rings(rows, rightMost[..]) && Tops(rows, tree[..]) && Sketched(third, k, leaves, rows, l)
      ensures Carrying(l, tn)
    {
      hide Joining, Placed, Whole, Roots, Families, Family, Rings, Sketched, Standing, Storable, Counting, NodesOf,
          Before, Row, Stamped, Tops;
    }

    /** Take the two oldest nodes of level l out of its list. */
    method DropAt(l: nat) returns (n: Node, n2: Node)
      requires Standing(rows, leaves) && |rows| == 64 && l < 64 && rightMost.Length == 64
      requires 2 < |rows[l]| && Rings(rows, rightMost[..])
      modifies NodesOf(rows)`next
      ensures n == rows[l][0] && n2 == rows[l][1]
      ensures Rings(rows[l := rows[l][2..]], rightMost[..])
    {
      hide *;
      RingsEach(rows, rightMost[..]);
      ghost var before := rightMost[..];
      var last := rightMost[l];
      assert before[l] == last;
      LastInRow(rows, l, last);
      RowStamped(rows, leaves, l);
      n, n2 := DropSiblings(last, rows[l], l);
      forall m | 0 <= m < 64 && m != l ensures Ring(rows[m], before[m]) {
        LastApart(rows, leaves, m, l);
        assert forall n <- rows[m] :: n.next == old(n.next) && n.prev == old(n.prev);
      }
      RingsAll(rows[l := rows[l][2..]], rightMost[..]);
    }

    /** Cut the two oldest nodes of level l off their parent. */
    method OrphanAt(l: nat, n: Node, top: Node) returns (p: Node)
      requires Standing(rows, leaves) && |rows| == 64 && l < 64 && 2 <= |rows[l]| && n == rows[l][0]
      requires Placed(Row(rows, l + 1) + [top], l + 1) && top !in NodesOf(rows)
      requires Families(rows, l + 1) && Joining(rows, l + 1, top) && 2 <= Childless(rows, l)
      modifies NodesOf(rows)`left, NodesOf(rows)`right, top`left, top`right
      ensures Front(rows, l + 1, l + 1) >= 0 && p == (Row(rows, l + 1) + [top])[Front(rows, l + 1, l + 1)]
      ensures Families(rows[l := rows[l][2..]], l + 1) && Joining(rows[l := rows[l][2..]], l + 1, top)
      ensures n.left == null && n.right == null && rows[l][1].left == null && rows[l][1].right == null
    {
      hide Family, Placed, AllStamped, Families, Joining, NodesOf, Standing, Front, Childless;
      ghost var up, rows' := Row(rows, l + 1) + [top], rows[l := rows[l][2..]];
      FamiliesEach(rows, l + 1);
      FrontIs(rows, l, top);
      RowsCut(rows, l);
      FamilyFront(Row(rows, l - 1), rows[l]);
      UpNodes(rows, l + 1, top);
      p := Orphan(n, rows[l], up, l);
      forall m | 0 <= m <= 64 && m != l + 1 ensures Family(Row(rows, m - 1), Row(rows, m)) {
        UpApart(rows, leaves, l + 1, m, top);
        assert old(allocated(Row(rows, m - 1)) && allocated(Row(rows, m)));
        assert forall x <- Row(rows, m) :: x.left == old(x.left) && x.right == old(x.right);
      }
      ShortenUpper(Row(rows, l - 1), rows[l]);
      FamiliesCut(rows, l, top);
    }

    /** The parent of the two oldest nodes of level l. */
    ghost function Eldest(l: nat): Node?
      reads `rows, NodesOf(rows)`parent
    {
      if l < |rows| && 2 <= |rows[l]| && rows[l][0].parent == rows[l][1].parent then rows[l][0].parent else null
    }

    ghost function Sketches(): map<Node, Sketch>
      reads `rows, NodesOf(rows)`mg
    {
      map n | n in NodesOf(rows) :: n.mg
    }

    /** Take the two oldest nodes of level l out of its list and off their parent, which has become childless. */
    method DetachAt(l: nat, top: Node) returns (p: Node)
      requires l < 64 == |rows| && 2 <= k && |rows[l]| == 2 * k + 2 && 2 <= Childless(rows, l)
      requires Carrying(l + 1, top)
      modifies NodesOf(rows)`next, NodesOf(rows)`left, NodesOf(rows)`right, top`left, top`right
      ensures l + 1 < 64 && 0 <= Front(rows, l + 1, l + 1) < |rows[l + 1]| - 1
      ensures p == rows[l + 1][Front(rows, l + 1, l + 1)] == old(Eldest(l))
      ensures Families(rows[l := rows[l][2..]], l + 1) && Joining(rows[l := rows[l][2..]], l + 1, top)
      ensures Rings(rows[l := rows[l][2..]], rightMost[..])
    {
      hide *;
      CarryingParts(l + 1, top);
      ShapedParts();
      FloatingParts(l + 1, top);
      RowsAllocated(l, top);
      SiblingsAre(l, top, rows[l][0], rows[l][1]);
      ParentIs(l, top);
      var n, n2 := DropAt(l);
      assert n.parent == n2.parent && n.mg.Dropped? && n2.mg.Kept?;
      p := OrphanAt(l, n, top);
      assert n.left == null && n.right == null && n2.left == null && n2.right == null;
      ParentStands(rows, l, top, k);
    }

    /** Compress the parent of the pair about to go. */
    method CompressAt(l: nat, p: Node)
      requires 0 < k && Standing(rows, leaves) && Storable(k, leaves) && Counting(leaves) && |rows| == 64
      requires l + 1 < 64 && 2 <= |rows[l]| && total == Before(leaves, |leaves|) && rightMost.Length == 64
      requires Sketched(third, k, leaves, rows, l + 1) && Rings(rows[l := rows[l][2..]], rightMost[..])
      requires 0 <= Front(rows, l + 1, l + 1) < |rows[l + 1]| - 1 && p == rows[l + 1][Front(rows, l + 1, l + 1)]
      modifies NodesOf(rows)`mg, NodesOf(rows)`cut
      ensures Sketched(third, k, leaves, rows[l := rows[l][2..]], l + 1)
      ensures Thinned(third, leaves, p.start, old(p.mg), p.mg)
      ensures forall n <- NodesOf(rows) :: n != p ==> n.mg == old(n.mg)
    {
      hide *;
      ghost var row := rows[l + 1];
      assert allocated(NodesOf(rows));
      SketchedEach(third, k, leaves, rows, l + 1);
      RingsEach(rows[l := rows[l][2..]], rightMost[..]);
      assert rows[l := rows[l][2..]][l + 1] == row;
      RowStamped(rows, leaves, l + 1);
      InRow(rows, l + 1, Front(rows, l + 1, l + 1));
      CompressIn(third, k, p, total, row, Front(rows, l + 1, l + 1), rightMost[..][l + 1], leaves, l + 1);
      forall m | 0 <= m < 64 && m != l + 1 ensures Keeps(third, k, leaves, rows[m], Front(rows, m, l + 1)) {
        NodeApart(rows, leaves, m, l + 1, p);
        assert forall n <- rows[m] :: n.mg == old(n.mg) && n.cut == old(n.cut);
      }
      KeepsCut(third, k, leaves, rows[l], Front(rows, l, l + 1));
      SketchedCut(third, k, leaves, rows, l);
    }

    /**
     Remove the oldest pair of a completed level, two siblings without children of their own. Their parent
     loses the counters that are too small to matter; no other sketch changes.
     */
    method Prune(l: nat, top: Node)
      requires l < 64 == |rows| && 2 <= k && |rows[l]| == 2 * k + 2 && 2 <= Childless(rows, l)
      requires Carrying(l + 1, top)
      modifies `rows, NodesOf(rows), top
      ensures rows == old(rows)[l := old(rows[l])[2..]] && NodesOf(rows) <= old(NodesOf(rows))
      ensures Carrying(l + 1, top)
      ensures OneThinned(third, leaves, old(Eldest(l)), old(Sketches()), Sketches())
    {
      hide *;
      ghost var nodes, sketches := NodesOf(rows), Sketches();
      SketchesAre();
      CarryingParts(l + 1, top);
      ShapedParts();
      FloatingParts(l + 1, top);
      RowsAllocated(l, top);
      var p := DetachAt(l, top);
      StillThere(l, p);
      CompressAt(l, p);
      PrunePlaces(rows, leaves, tree[..], l, top);
      rows := rows[l := rows[l][2..]];
      CarryingIs(l + 1, top);
      IsThinned(p, nodes, sketches);
    }

    lemma IsThinned(p: Node, nodes: set<Node>, sketches: map<Node, Sketch>)
      requires p in NodesOf(rows) && NodesOf(rows) <= nodes && sketches.Keys == nodes
      requires Thinned(third, leaves, p.start, sketches[p], p.mg)
      requires forall n <- nodes :: n != p ==> n.mg == sketches[n]
      ensures OneThinned(third, leaves, p, sketches, Sketches())
    {
      hide Thinned, NodesOf;
    }

    lemma RowsAllocated(l: nat, top: Node)
      requires l < |rows| && 2 <= |rows[l]|
      ensures allocated(NodesOf(rows)) && allocated(top) && allocated(NodesOf(rows[l := rows[l][2..]]))
      ensures allocated(Row(rows, l)) && allocated(Row(rows, l + 1)) && allocated(Row(rows[l := rows[l][2..]], l))
      ensures allocated(Row(rows[l := rows[l][2..]], l + 1))
    {
    }

    lemma SketchesAre()
      ensures Sketches().Keys == NodesOf(rows) && forall n <- NodesOf(rows) :: Sketches()[n] == n.mg
    {
      hide NodesOf;
    }

    lemma StillThere(l: nat, p: Node)
      requires l + 1 < 64 == |rows| && 2 <= |rows[l]| && 0 <= Front(rows, l + 1, l + 1) < |rows[l + 1]| - 1
      requires p == rows[l + 1][Front(rows, l + 1, l + 1)]
      ensures p in NodesOf(rows[l := rows[l][2..]]) && NodesOf(rows[l := rows[l][2..]]) <= NodesOf(rows)
    {
      hide Front;
      var rows' := rows[l := rows[l][2..]];
      assert rows'[l + 1] == rows[l + 1];
      InRow(rows', l + 1, Front(rows, l + 1, l + 1));
      assert forall n <- rows[l][2..] :: n in rows[l];
    }

    lemma ParentIs(l: nat, top: Node)
      requires l < 64 == |rows| && 2 <= |rows[l]| && Joining(rows, l + 1, top)
      ensures var s := Front(rows, l + 1, l + 1);
              0 <= s < |Row(rows, l + 1) + [top]| && Eldest(l) == (Row(rows, l + 1) + [top])[s]
    {
      hide Joining, Family;
      FrontIs(rows, l, top);
      FirstPair(rows[l], Row(rows, l + 1) + [top]);
    }

    /** What the code asserts of the pair it removes. */
    lemma SiblingsAre(l: nat, top: Node, n: Node, n2: Node)
      requires l < 64 == |rows| && 4 <= |rows[l]| && n == rows[l][0] && n2 == rows[l][1]
      requires Joining(rows, l + 1, top) && Sketched(third, k, leaves, rows, l + 1)
      ensures n.parent == n2.parent && n.mg.Dropped? && n2.mg.Kept?
    {
      hide Joining, Keeps;
      SketchedEach(third, k, leaves, rows, l + 1);
      FrontIs(rows, l, top);
      FirstPair(rows[l], Row(rows, l + 1) + [top]);
      PairSketches(third, k, leaves, rows[l], Front(rows, l, l + 1));
    }

    /** Between updates: no node is on its way. */
    ghost predicate Stable()
      reads `rows, `leaves, tree, rightMost, NodesOf(rows)
    {
      && Shaped() && Roots(rows, 0, |leaves|)
      && Families(rows, 65) && Rings(rows, rightMost[..]) && Tops(rows, tree[..])
      && Sketched(third, k, leaves, rows, 65)
    }

    /** A node without a sibling comes to rest as a root. */
    method Place(l: nat, tn: Node)
      requires l < 64 == |rows| && |rows[l]| % 2 == 0 && Lower(rows, l, |leaves|) && Carrying(l, tn)
      modifies `rows, tree, rightMost, NodesOf(rows), tn
      ensures rows == old(rows)[l := old(rows[l]) + [tn]] && NodesOf(rows) == old(NodesOf(rows)) + {tn}
      ensures Stable()
    {
      hide *;
      CarryingParts(l, tn);
      ShapedParts();
      FloatingParts(l, tn);
      RowsGiven(l, tn);
      PlaceFamilies(rows, l, tn);
      PlaceSketches(third, k, leaves, rows, l, tn);
      PlaceRoots(rows, leaves, l, tn);
      RowsAfter(rows, l, tn);
      ListAt(l, tn);
      tree[l] := tn;
      PlaceTops(rows, old(tree[..]), tree[..], l, tn);
      rows := rows[l := rows[l] + [tn]];
      StableIs();
    }

    lemma RowsGiven(l: nat, tn: Node)
      requires l < |rows|
      ensures allocated(NodesOf(rows)) && allocated(tn) && allocated(NodesOf(rows[l := rows[l] + [tn]]))
    {
    }

    lemma StableIs()
      requires tree.Length == 64 && rightMost.Length == 64 && tree != rightMost && |rows| == 64
      requires 0 < k && Standing(rows, leaves) && Storable(k, leaves) && Counting(leaves)
      requires Roots(rows, 0, |leaves|) && Families(rows, 65) && Rings(rows, rightMost[..])
      requires Tops(rows, tree[..]) && Sketched(third, k, leaves, rows, 65)
      ensures Stable()
    {
      hide Standing, Storable, Counting, Roots, Families, Rings, Tops, Sketched, NodesOf;
    }

    /** The running sketch becomes the newest leaf. */
    method NewLeaf(ghost b: Batch) returns (tn: Node)
      requires Stable() && total == b.total && lastTs == b.ts && b.counts == cur.State().Effective()
      requires cur.State().Valid() && Storable(k, [b])
      requires leaves != [] ==> leaves[|leaves| - 1].ts < b.ts && leaves[|leaves| - 1].total <= b.total
      modifies `leaves, cur
      ensures fresh(tn) && leaves == old(leaves) + [b] && Carrying(0, tn) && |rows| == 64
    {
      hide *;
      StableParts();
      StandingLength(rows, leaves);
      cur.Settled();
      tn := new Node(lastTs, total, Kept(cur.cnt), null, null, 0, |leaves|, 1);
      CountingGrows(leaves, b);
      LeafPlaces(rows, leaves, b, tn);
      LeafSketches(third, k, leaves, b, rows);
      LeafFamilies(rows, tn);
      StorableOne(k, leaves, b);
      LeafIsWhole(k, leaves, b, tn);
      leaves := leaves + [b];
      CarryingIs(0, tn);
    }

    lemma StableParts()
      requires Stable()
      ensures Shaped() && Roots(rows, 0, |leaves|) && Families(rows, 65) && Rings(rows, rightMost[..])
      ensures Tops(rows, tree[..]) && Sketched(third, k, leaves, rows, 65)
      ensures 0 < k && Standing(rows, leaves) && Storable(k, leaves) && Counting(leaves)
      ensures tree.Length == 64 && rightMost.Length == 64 && tree != rightMost && allocated(NodesOf(rows))
    {
      hide Standing, Storable, Counting, Roots, Families, Rings, Tops, Sketched, NodesOf;
    }

    /** The carry: join equal trees upwards and prune the completed levels on the way. */
    method Carry(leaf: Node) returns (l: nat, tn: Node)
      requires |rows| == 64 == tree.Length && 2 <= k && Carrying(0, leaf) && Sized(rows, k, level, 0)
      modifies `rows, tree, rightMost, NodesOf(rows), leaf
      ensures l <= 64 == |rows| && Carrying(l, tn) && Lower(rows, l, |leaves|) && Sized(rows, k, level, l)
      ensures l < 64 ==> |rows[l]| % 2 == 0
      ensures forall n <- NodesOf(rows) :: n in old(NodesOf(rows)) || n == leaf || fresh(n)
      ensures tn == leaf || fresh(tn)
      ensures forall m :: l < m < 64 ==> rows[m] == old(rows[m])
      ensures forall m :: level <= m < l ==> |rows[m]| == |old(rows[m])| + 1
      ensures l < 64 ==> rows[l] == old(rows[l])
    {
      hide *;
      l, tn := 0, leaf;
      CarryingParts(l, tn);
      NothingLower(rows, |leaves|);
      while l < 64 && tree[l] != null
        invariant l <= 64 == |rows| && Carrying(l, tn) && Lower(rows, l, |leaves|) && Sized(rows, k, level, l)
        invariant forall n <- NodesOf(rows) :: n in old(NodesOf(rows)) || n == leaf || fresh(n)
        invariant tn == leaf || fresh(tn)
        invariant forall m :: l <= m < 64 ==> rows[m] == old(rows[m])
        invariant forall m :: level <= m < l ==> |rows[m]| == |old(rows[m])| + 1
      {
        CarryingParts(l, tn);
        ShapedParts();
        TopGiven(rows, tree[..], l);
        FloatingParts(l, tn);
        ghost var before := rows;
        var top := Pair(l, tn);
        SizedPair(before, rows, k, level, l, tn);
        LowerPair(before, rows, l, |leaves|, tn);
        if l < level {
          Prune(l, top);
          SizedPrune(before, rows, k, level, l, tn);
          LowerPrune(before, rows, l, |leaves|, tn);
        }
        tn := top;
        l := l + 1;
      }
      CarryingParts(l, tn);
      if l < 64 { TopNone(rows, tree[..], l); }
    }

    /** The sketch stands for what came since the newest leaf. */
    ghost predicate CurValid()
      reads `cur, cur, `total, `events, `lastTs, `leaves
    {
      && 2 <= k && cur.k == k && cur.eps == 1.0 / k as real && k as real * third >= 1.0
      && total == |events| && EndsAt(events, lastTs)
      && Purged(leaves) <= Keys(events)
      && StandsFor(cur.State(), Keys(events) - Purged(leaves))
    }

    /** Where the pruning of levels has got to. */
    ghost predicate Staged()
      reads `rows, `level, `remaining, `quota
    {
      && level < 64 == |rows| && Sized(rows, k, level, 0)
      && |rows[level]| + Left(remaining) == quota && (quota == 2 * k || (quota == WRAP && level == 0))
    }

    /** One node less to wait for at this level, or on to the next; the counter has 32 bits. */
    method CountDown()
      requires 2 <= k && |rows| == 64 && level < 64 && Sized(rows, k, level, 0) && Families(rows, 65)
      requires |rows[level]| + Left(remaining) == quota + 1 && (quota == 2 * k || (quota == WRAP && level == 0))
      requires quota == 2 * k || remaining != 1
      modifies `remaining, `level
      ensures Staged()
    {
      remaining := if remaining == 0 then WRAP - 1 else remaining - 1;
      if remaining == 0 {
        TopLevelSmall(rows);
        remaining := k;
        level := level + 1;
      }
    }

    /** The newest leaf: what it stands for and why it may be stored. */
    lemma LeafFacts(b: Batch)
      requires CurValid() && AllCounted(leaves) && |Keys(events)| == total
      requires b.total == total && b.counts == cur.State().Effective() && b.items == Keys(events) - Purged(leaves)
      ensures Storable(k, [b]) && cur.State().Valid()
      ensures leaves != [] ==> leaves[|leaves| - 1].total <= b.total
      ensures Purged(leaves + [b]) == Keys(events) && AllCounted(leaves + [b])
    {
      hide Keys, Purged, Credit, NoOvercount;
      LeafStorable(k, cur.State(), b);
      PurgedOne(leaves, b);
      assert Purged(leaves) + b.items == Keys(events);
      assert leaves[..|leaves|] == leaves;
      assert |Purged(leaves)| <= |Keys(events)| by { GrowthOf(Purged(leaves), Keys(events), 0); }
      assert |Purged(leaves[..|leaves|])| == Before(leaves, |leaves|);
      CountedMore(leaves, b);
    }

    /** A new running sketch, for an empty history. */
    lemma FreshIsValid(mg: MisraGries)
      requires 2 <= k && mg.State() == Empty(k) && mg.eps == 1.0 / k as real
      requires k as real * third >= 1.0 && total == |events| && EndsAt(events, lastTs)
      requires Purged(leaves) == Keys(events) && cur == mg
      ensures CurValid()
    {
      hide Keys, Purged;
      assert Keys(events) - Purged(leaves) == multiset{};
      EmptyStands(k);
    }

    lemma CurParts()
      requires CurValid()
      ensures 2 <= k && k as real * third >= 1.0 && total == |events| && EndsAt(events, lastTs)
      ensures Purged(leaves) <= Keys(events) && cur.k == k && cur.eps == 1.0 / k as real
      ensures StandsFor(cur.State(), Keys(events) - Purged(leaves))
    {
      hide Keys, Purged, StandsFor;
    }

    lemma StagedParts()
      requires Staged()
      ensures level < 64 == |rows| && Sized(rows, k, level, 0)
      ensures |rows[level]| + Left(remaining) == quota && (quota == 2 * k || (quota == WRAP && level == 0))
    {
      hide Sized;
    }

    lemma OneIsPow2()
      ensures Pow2(0) == 1
    {
    }

    /** Carry the new leaf up, let the last tree rest, and count down. */
    method Graft(leaf: Node) returns (ok: bool)
      requires |rows| == 64 && 2 <= k && Carrying(0, leaf) && Staged() && (quota == 2 * k || remaining != 1)
      modifies `rows, `level, `remaining, tree, rightMost, NodesOf(rows), leaf
      ensures ok <==> |leaves| < Pow2(64)
      ensures ok ==> Stable() && Staged()
      ensures ok ==> forall n <- NodesOf(rows) :: n in old(NodesOf(rows)) || n == leaf || fresh(n)
    {
      hide *;
      StagedParts();
      CarryingParts(0, leaf);
      ShapedParts();
      ghost var start := rows;
      var l, tn := Carry(leaf);
      CarryingParts(l, tn);
      FloatingParts(l, tn);
      if l == 64 {
        FullForest(rows, |leaves|, tn);
        return false;
      }
      ghost var before := rows;
      Place(l, tn);
      PlaceSized(start, before, rows, k, level, l, tn);
      StableParts();
      RootsFit(rows, leaves, 0, |leaves|);
      OneIsPow2();
      if l >= level {
        CountDown();
      } else {
        StagedIs();
      }
      ok := true;
    }

    /** `merge_cur_sketch`; it throws, returning false, when a tree at every one of the 64 levels is taken. */
    method MergeCurSketch() returns (ok: bool)
      requires Stable() && Staged() && CurValid() && AllCounted(leaves) && |Keys(events)| == total
      requires leaves != [] ==> leaves[|leaves| - 1].ts < lastTs
      requires quota == 2 * k || remaining != 1
      modifies `rows, `leaves, `cur, `level, `remaining, tree, rightMost, NodesOf(rows), cur
      ensures ok <==> |old(leaves)| + 1 < Pow2(64)
      ensures ok ==> Stable() && Staged() && CurValid() && AllCounted(leaves)
      ensures ok ==> leaves != [] && leaves[..|leaves| - 1] == old(leaves) && leaves[|leaves| - 1].ts == lastTs
      ensures ok ==> Purged(leaves) == Keys(events)
      ensures ok ==> fresh(cur) && forall n <- NodesOf(rows) :: n in old(NodesOf(rows)) || fresh(n)
    {
      hide *;
      ghost var b := Batch(lastTs, total, cur.State().Effective(), Keys(events) - Purged(leaves), map[], 1);
      LeafFacts(b);
      CurParts();
      var leaf := NewLeaf(b);
      ok := Graft(leaf);
      if !ok { return; }
      StableParts();
      cur := new MisraGries(k);
      FreshIsValid(cur);
    }

    lemma StagedIs()
      requires level < 64 == |rows| && Sized(rows, k, level, 0)
      requires |rows[level]| + Left(remaining) == quota && (quota == 2 * k || (quota == WRAP && level == 0))
      ensures Staged()
    {
      hide Sized;
    }

    ghost predicate Valid()
      reads this, cur, tree, rightMost, NodesOf(rows)
    {
      && CurValid() && Stable() && Staged() && AllCounted(leaves)
      && CutBefore(leaves, lastTs) && Told(events, leaves, lastTs) && Dated(events, leaves, lastTs)
    }

    lemma ValidParts()
      requires Valid()
      ensures CurValid() && Stable() && Staged() && AllCounted(leaves)
      ensures CutBefore(leaves, lastTs) && Told(events, leaves, lastTs) && Dated(events, leaves, lastTs)
      ensures |Keys(events)| == total && total == |events| && EndsAt(events, lastTs) && allocated(NodesOf(rows))
    {
      hide Stable, Staged, AllCounted, CutBefore, Told, Dated, Keys, StandsFor, Purged, NodesOf;
      SeenAll(events, lastTs);
    }

    lemma IsLeafCut(before: seq<Batch>, after: seq<Batch>, last: nat, ts: nat)
      requires if last == 0 || last == ts then after == before
          else after != [] && after[..|after| - 1] == before && after[|after| - 1].ts == last
      ensures LeafCut(before, after, last, ts)
    {
    }

    /** A change of timestamp turns the running sketch into a leaf. */
    method AdvanceTo(ts: nat) returns (ok: bool)
      requires Valid() && lastTs <= ts && (quota == 2 * k || remaining != 1)
      modifies `rows, `leaves, `cur, `level, `remaining, tree, rightMost, NodesOf(rows), cur
      ensures ok <==> old(lastTs) == 0 || old(lastTs) == ts || |old(leaves)| + 1 < Pow2(64)
      ensures ok ==> CurValid() && Stable() && Staged() && AllCounted(leaves)
      ensures ok ==> CutBefore(leaves, ts) && Told(events, leaves, ts) && Dated(events, leaves, lastTs)
      ensures ok ==> LeafCut(old(leaves), leaves, old(lastTs), ts)
      ensures ok ==> (cur == old(cur) || fresh(cur)) && forall n <- NodesOf(rows) :: n in old(NodesOf(rows)) || fresh(n)
    {
      hide *;
      ValidParts();
      ok := true;
      if lastTs != 0 && lastTs != ts {
        LastIsBefore(leaves, lastTs);
        ok := MergeCurSketch();
        if ok {
          ghost var b := leaves[|leaves| - 1];
          assert leaves == old(leaves) + [b];
          LeafTells(events, old(leaves), b, ts);
          CutMore(old(leaves), b, ts);
          LeafKeepsDated(events, old(leaves), b, lastTs);
          IsLeafCut(old(leaves), leaves, lastTs, ts);
        }
        return;
      }
      IsLeafCut(leaves, leaves, lastTs, ts);
      if ts != lastTs {
        NothingBefore(leaves);
        NothingTold(events, ts);
        CutNone(ts);
      }
    }

    /** Unless it was cleared, the sketch keeps few nodes: their number is logarithmic in that of the timestamps. */
    lemma FewNodes()
      requires Valid() && quota == 2 * k
      ensures |NodesOf(rows)| <= Times(2 * k + 1, FloorLog2(|leaves|) + 1)
    {
      hide *;
      ValidParts();
      StableParts();
      CurParts();
      StagedParts();
      StandingLength(rows, leaves);
      TopLevelSmall(rows);
      OneIsPow2();
      RootsFit(rows, leaves, 0, |leaves|);
      FewInAll(rows, leaves, k, level);
    }

    /**
     After a clear, which no update undoes, the sketch stays at the first level and prunes nothing: every
     leaf ever cut is still a node of its own, and the countdown, from 2^32, is at its last step exactly
     with one leaf less.
     */
    lemma CountdownEnds()
      requires Valid() && quota == WRAP != 2 * k
      ensures |rows| == 64 && level == 0 && |rows[0]| == |leaves|
      ensures remaining == 1 <==> |leaves| + 1 == WRAP
    {
      hide *;
      ValidParts();
      StableParts();
      CurParts();
      StagedParts();
      StandingLength(rows, leaves);
      TopLevelSmall(rows);
      NothingPruned();
      RootsCount(rows, leaves, 0, |leaves|);
      OneIsPow2();
      TimesOne(|rows[0]|);
      LeftIs(remaining);
    }

    lemma NothingPruned()
      requires |rows| == 64 && level == 0 && Sized(rows, k, level, 0)
      ensures forall m :: 0 <= m < 63 ==> |rows[m]| / 2 == |rows[m + 1]|
    {
    }

    lemma {:induction false} TimesOne(n: nat)
      ensures Times(1, n) == n
    {
      if n > 0 { TimesOne(n - 1); }
    }

    lemma LeftIs(n: nat)
      ensures Left(n) == 1 <==> n == 1
    {
    }

    /** `update` with a single occurrence; it fails when the 2^64th leaf is cut. */
    method Update(ts: nat, value: Key) returns (ok: bool)
      requires Valid() && lastTs <= ts && (quota == 2 * k || remaining != 1)
      modifies this, tree, rightMost, NodesOf(rows), cur
      ensures ok <==> old(lastTs) == 0 || old(lastTs) == ts || |old(leaves)| + 1 < Pow2(64)
      ensures ok ==> Valid() && events == old(events) + [Event(ts, value)] && lastTs == ts && quota == old(quota)
      ensures ok ==> LeafCut(old(leaves), leaves, old(lastTs), ts)
      ensures ok ==> (cur == old(cur) || fresh(cur)) && forall n <- NodesOf(rows) :: n in old(NodesOf(rows)) || fresh(n)
    {
      hide *;
      ok := AdvanceTo(ts);
      if ok { Count(ts, value); }
    }

    method Count(ts: nat, value: Key)
      requires CurValid() && Stable() && Staged() && AllCounted(leaves)
      requires CutBefore(leaves, ts) && Told(events, leaves, ts) && Dated(events, leaves, lastTs) && lastTs <= ts
      modifies `lastTs, `total, `events, cur
      ensures Valid() && events == old(events) + [Event(ts, value)] && lastTs == ts
    {
      hide *;
      ghost var e := Event(ts, value);
      CurParts();
      StableParts();
      AppendKeys(events, e);
      AppendKeepsTold(events, e, leaves);
      AppendKeepsDated(events, e, leaves, lastTs);
      OccursApart(Keys(events), Purged(leaves), value);
      Feed(value, Keys(events) - Purged(leaves));
      EndsMore(events, e, lastTs);
      lastTs := ts;
      total := total + 1;
      events := events + [e];
      ValidIs();
    }

    method Feed(value: Key, ghost h: multiset<Key>)
      requires StandsFor(cur.State(), h)
      modifies cur
      ensures StandsFor(cur.State(), Occurs(h, value, 1))
    {
      hide Credit, Occurs, NoOvercount;
      cur.Update(value, h);
    }

    lemma ValidIs()
      requires 2 <= k && cur.k == k && cur.eps == 1.0 / k as real && k as real * third >= 1.0
      requires total == |events| && EndsAt(events, lastTs)
      requires Purged(leaves) <= Keys(events) && StandsFor(cur.State(), Keys(events) - Purged(leaves))
      requires Stable() && Staged() && AllCounted(leaves)
      requires CutBefore(leaves, lastTs) && Told(events, leaves, lastTs) && Dated(events, leaves, lastTs)
      ensures Valid()
    {
      hide StandsFor, Purged, Keys, EndsAt, Stable, Staged, AllCounted, CutBefore, Told, Dated;
    }

    // ----- queries

    /**
     The walk down a tree whose first leaf is not newer than ts: merge right subtrees that are
     newer, and stop at a node without children.
     */
    method Descend(ts: nat, root: Node, mg: MisraGries, before: nat, ghost l0: nat, ghost h0: multiset<Key>)
      returns (intersects: bool, excluded: nat, ghost stop: Node, ghost d: multiset<Key>, ghost cut: nat)
      requires Stable() && |rows| == 64 && l0 < 64 && rows[l0] != [] && root == rows[l0][|rows[l0]| - 1]
          && root.ts <= ts
      requires root.End() <= |leaves| && before == Before(leaves, root.start)
      requires mg.k == k && mg.Mergeable() && Credit(k, mg.State().Effective(), h0)
      modifies mg
      ensures mg.Mergeable() && stop in NodesOf(rows) && stop.left == null && stop.start < stop.End() <= root.End()
      ensures leaves[stop.start].ts <= ts && excluded == Before(leaves, stop.start)
      ensures intersects <==> stop.End() < root.End()
      ensures intersects ==> ts < leaves[stop.End()].ts
      ensures !intersects ==> mg.State() == old(mg.State()) && d == multiset{}
      ensures intersects ==> mg.cnt == mg.State().Effective()
      ensures Gathered(k, mg.State().Effective(), h0, leaves, stop.End(), root.End(), d)
      ensures AtMost(d, cut) && Covered(third, leaves, stop.End(), cut)
    {
      hide *;
      StableParts();
      var tn: Node := root;
      ghost var l: nat, i: nat := l0, |rows[l0]| - 1;
      ghost var c := root.End();
      intersects, excluded, d, cut := false, before, multiset{}, 0;
      StampOf(rows, leaves, l, i);
      NothingGathered(k, mg.State().Effective(), h0, leaves, c);
      NothingCut(third, leaves, c);
      NothingDropped();
      Kids(third, k, leaves, rows, l, i);
      while tn.right != null
        invariant l < 64 && i < |rows[l]| && tn == rows[l][i] && tn.start < tn.End() <= c && tn.ts <= ts
        invariant excluded == Before(leaves, tn.start) && mg.Mergeable()
        invariant intersects <==> tn.End() < c
        invariant intersects ==> ts < leaves[tn.End()].ts
        invariant !intersects ==> mg.State() == old(mg.State()) && d == multiset{}
        invariant intersects ==> mg.cnt == mg.State().Effective()
        invariant Gathered(k, mg.State().Effective(), h0, leaves, tn.End(), c, d)
        invariant AtMost(d, cut) && Covered(third, leaves, tn.End(), cut)
        invariant d != multiset{} ==> tn.left == null
        decreases l
      {
        Kids(third, k, leaves, rows, l, i);
        ghost var j: nat := 2 * (i - Childless(rows, l));
        StampOf(rows, leaves, l, i);
        StampOf(rows, leaves, l - 1, j);
        StampOf(rows, leaves, l - 1, j + 1);
        PairAdjoins(rows, leaves, l - 1, j);
        StandsCovered(third, k, leaves, tn.right);
        if tn.right.ts > ts {
          d := MergeRight(mg, tn.right, h0, c);
          intersects, cut := true, tn.right.cut;
          tn, i := tn.left, j;
        } else {
          excluded := tn.left.total;
          tn, i := tn.right, j + 1;
        }
        l := l - 1;
        StampOf(rows, leaves, l, i);
      }
      stop := tn;
      StampOf(rows, leaves, l, i);
      Kids(third, k, leaves, rows, l, i);
    }

    method MergeRight(mg: MisraGries, right: Node, ghost h0: multiset<Key>, ghost c: nat)
      returns (ghost d: multiset<Key>)
      requires 0 < k && Storable(k, leaves) && Stands(third, k, leaves, right) && right.mg.Kept?
      requires right.start <= right.End() <= c <= |leaves| && mg.k == k && mg.Mergeable()
      requires Gathered(k, mg.State().Effective(), h0, leaves, right.End(), c, multiset{})
      modifies mg
      ensures mg.Mergeable() && Gathered(k, mg.State().Effective(), h0, leaves, right.start, c, d)
      ensures AtMost(d, right.cut) && (right.cut == 0 ==> d == multiset{}) && mg.cnt == mg.State().Effective()
    {
      hide *;
      d := StandsCredit(third, k, leaves, right);
      ghost var e := mg.State().Effective();
      EffectiveIsPositive(mg.State());
      MergeInto(mg, right.mg.cnt);
      GatherOlder(k, e, right.mg.cnt, mg.State().Effective(), h0, leaves, right.start, right.End(), c, d);
    }

    /**
     From the oldest tree on, skip trees that are not newer than ts, and split the one that
     ts falls into. The trees below level next are all newer and still to be merged.
     */
    method Search(ts: nat, mg: MisraGries, ghost h0: multiset<Key>)
      returns (excluded: nat, next: nat, ghost m: nat, ghost lo: nat, ghost d: multiset<Key>, ghost cut: nat)
      requires Stable() && |rows| == 64 == tree.Length
      requires mg.k == k && mg.Mergeable() && Credit(k, mg.State().Effective(), h0)
      modifies mg
      ensures mg.Mergeable() && next <= 64 && m <= Reach(rows, next) <= |leaves|
      ensures Gathered(k, mg.State().Effective(), h0, leaves, m, Reach(rows, next), d)
      ensures Hole(rows, leaves, ts, lo, m) && (m < |leaves| ==> ts < leaves[m].ts)
      ensures excluded == Before(leaves, lo) || excluded == Before(leaves, m)
      ensures AtMost(d, cut) && Covered(third, leaves, m, cut)
      ensures m == Reach(rows, next) ==> mg.State() == old(mg.State()) && d == multiset{} && cut == 0
      ensures m < Reach(rows, next) ==> mg.cnt == mg.State().Effective()
    {
      hide *;
      StableParts();
      excluded, next := 0, 64;
      m, lo, d, cut := 0, 0, multiset{}, 0;
      ReachNone(rows, leaves);
      NoHole(rows, leaves, ts);
      while next > 0
        invariant next <= 64 && m == Reach(rows, next) <= |leaves|
        invariant excluded == Before(leaves, m) && Hole(rows, leaves, ts, lo, m)
        invariant mg.Mergeable() && mg.State() == old(mg.State()) && d == multiset{} && cut == 0
      {
        next := next - 1;
        RootAt(rows, tree[..], |leaves|, next);
        if tree[next] != null {
          var tn := tree[next];
          StampOf(rows, leaves, next, |rows[next]| - 1);
          if tn.ts > ts {
            next := next + 1;
            NothingMoreToSkip(mg, h0, m);
            return;
          }
          var intersects, before;
          ghost var stop;
          intersects, before, stop, d, cut := Descend(ts, tn, mg, excluded, next, h0);
          HoleAt(rows, leaves, ts, stop);
          m, lo := stop.End(), stop.start;
          if intersects {
            excluded := before;
            return;
          }
          excluded, cut := tn.total, 0;
        }
      }
      RootsFrom(rows, |leaves|, 0);
      NothingMoreToSkip(mg, h0, m);
    }

    lemma NothingMoreToSkip(mg: MisraGries, h0: multiset<Key>, m: nat)
      requires m <= |leaves| && Credit(k, mg.State().Effective(), h0) && Counting(leaves)
      ensures Gathered(k, mg.State().Effective(), h0, leaves, m, m, multiset{})
      ensures AtMost(multiset{}, 0) && Covered(third, leaves, m, 0)
    {
      hide *;
      NothingGathered(k, mg.State().Effective(), h0, leaves, m);
      NothingDropped();
      NothingCut(third, leaves, m);
    }

    /** Merge the trees below level next, newer and newer. */
    method MergeRest(mg: MisraGries, next: nat, ghost h0: multiset<Key>, ghost m: nat, ghost d: multiset<Key>)
      requires Stable() && |rows| == 64 == tree.Length && next <= 64 && mg.k == k && mg.Mergeable()
      requires m <= Reach(rows, next) <= |leaves|
      requires Gathered(k, mg.State().Effective(), h0, leaves, m, Reach(rows, next), d)
      modifies mg
      ensures Gathered(k, mg.State().Effective(), h0, leaves, m, |leaves|, d) && mg.Mergeable()
      ensures Reach(rows, next) == |leaves| ==> mg.State() == old(mg.State()) && mg.cnt == old(mg.cnt)
      ensures Reach(rows, next) < |leaves| ==> mg.cnt == mg.State().Effective()
    {
      hide *;
      StableParts();
      var l := next;
      RootsFrom(rows, |leaves|, next);
      while l > 0
        invariant 0 <= l <= next && mg.Mergeable() && m <= Reach(rows, next) <= Reach(rows, l) <= |leaves|
        invariant Gathered(k, mg.State().Effective(), h0, leaves, m, Reach(rows, l), d)
        invariant Reach(rows, l) == Reach(rows, next) ==> mg.State() == old(mg.State()) && mg.cnt == old(mg.cnt)
        invariant Reach(rows, next) < Reach(rows, l) ==> mg.cnt == mg.State().Effective()
      {
        l := l - 1;
        RootAt(rows, tree[..], |leaves|, l);
        if tree[l] != null {
          ghost var e := mg.State().Effective();
          StampOf(rows, leaves, l, |rows[l]| - 1);
          RootKeeps(third, k, leaves, rows, l);
          EffectiveIsPositive(mg.State());
          MergeInto(mg, tree[l].mg.cnt);
          GatherNewer(k, e, tree[l].mg.cnt, mg.State().Effective(), h0, leaves, m, Reach(rows, l + 1), Reach(rows, l),
            d);
        }
      }
      RootsFrom(rows, |leaves|, 0);
    }

    /** The occurrences a query answers for: those from leaf m on. */
    ghost function From(m: nat): multiset<Key>
      requires m <= |leaves|
      reads `events, `leaves
    {
      Keys(events) - Purged(leaves[..m])
    }

    /**
     `create_tmp_mg_at`: the sketch of what is newer than ts, and how much that is estimated to be.
     What the walk missed before leaf m is small against what came from there on.
     */
    method CreateTmpMgAt(ts: nat) returns (mg: MisraGries, est: nat, ghost m: nat, ghost lo: nat, ghost cut: nat)
      requires Valid()
      ensures fresh(mg) && 0 < k && mg.eps == 1.0 / k as real
      ensures m <= |leaves| && Hole(rows, leaves, ts, lo, m) && (m < |leaves| ==> ts < leaves[m].ts)
      ensures Answer(third, k, mg.cnt, From(m), cut)
      ensures ts < lastTs && Known(events, ts) ==>
          Answered(third, mg.cnt, From(m), Seen(events, ts), Keys(events), Between(leaves, lo, m))
      ensures est == total - Before(leaves, m) || est == total - Before(leaves, lo)
      ensures lo <= m && (lo + 1 < m ==> k * (m - lo) <= |leaves| - m)
      ensures ts < lastTs && Known(events, ts) ==> forall burst: nat | Spread(events, burst) ::
                PromisedSince(third, burst, mg.cnt, Seen(events, ts), Keys(events))
      ensures ts < lastTs && Known(events, ts) && third >= 1.0 / 3.0 ==>
          PromisedSince(third, 1, mg.cnt, Seen(events, ts), Keys(events))
    {
      hide *;
      ValidParts();
      CurParts();
      StableParts();
      StandingLength(rows, leaves);
      mg := new MisraGries.Clone(cur);
      ghost var h0 := Keys(events) - Purged(leaves);
      StandsGives(mg, h0);
      var excluded, next;
      ghost var d;
      excluded, next, m, lo, d, cut := Search(ts, mg, h0);
      HoleBounds(rows, leaves, ts, lo, m);
      MergeRest(mg, next, h0, m, d);
      AnswerIs(mg, h0, m, d, cut);
      BeforeIsLess(leaves, Keys(events), m);
      BeforeIsLess(leaves, Keys(events), lo);
      est := total - excluded;
      if ts < lastTs && Known(events, ts) {
        FromIs(m);
        AllBackInTime(third, k, events, leaves, rows, lastTs, ts, mg.cnt, m, lo, cut);
      }
      HoleBound(ts, lo, m);
      if ts < lastTs && Known(events, ts) {
        forall burst: nat | Spread(events, burst)
          ensures PromisedSince(third, burst, mg.cnt, Seen(events, ts), Keys(events))
        {
          WholeError(ts, lo, m, burst, mg.cnt);
        }
        if third >= 1.0 / 3.0 {
          WideIsKept(third, mg.cnt, From(m), Seen(events, ts), Keys(events), Between(leaves, lo, m));
        }
      }
    }

    lemma HoleBound(ts: nat, lo: nat, m: nat)
      requires Valid() && Hole(rows, leaves, ts, lo, m)
      ensures lo <= m <= |leaves| && (lo + 1 < m ==> k * (m - lo) <= |leaves| - m)
    {
      hide *;
      ValidParts();
      CurParts();
      StableParts();
      StagedParts();
      HoleBounds(rows, leaves, ts, lo, m);
      if lo + 1 < m { HoleIsSmall(rows, leaves, k, level, ts, lo, m); }
    }

    /** k times what the walk missed is at most burst times what it answers for. */
    lemma MissOf(ts: nat, lo: nat, m: nat, burst: nat)
      requires Valid() && Hole(rows, leaves, ts, lo, m) && Spread(events, burst) && m <= |leaves|
      ensures k * |Between(leaves, lo, m)| <= burst * |From(m)|
    {
      hide *;
      ValidParts();
      CurParts();
      StableParts();
      HoleBound(ts, lo, m);
      FromIs(m);
      CountedAt(leaves, m);
      PartLess(Keys(events), Purged(leaves[..m]));
      BeforeIsLess(leaves, Keys(events), |leaves|);
      MissIsSmall(events, leaves, lastTs, burst, k, lo, m, total);
      BetweenCounts(leaves, lo, m);
    }

    /** What an answer misses of any key, dropped, merged away, or in the hole. */
    lemma WholeError(ts: nat, lo: nat, m: nat, burst: nat, r: Table)
      requires Valid() && Hole(rows, leaves, ts, lo, m) && Spread(events, burst) && m <= |leaves|
      requires Answered(third, r, From(m), Seen(events, ts), Keys(events), Between(leaves, lo, m))
      ensures PromisedSince(third, burst, r, Seen(events, ts), Keys(events))
    {
      hide *;
      ValidParts();
      CurParts();
      MissOf(ts, lo, m, burst);
      AnswerSince(third, k, burst, r, From(m), Seen(events, ts), Keys(events), Between(leaves, lo, m));
    }

    lemma StandsGives(mg: MisraGries, h: multiset<Key>)
      requires mg.State() == cur.State() && StandsFor(cur.State(), h) && cur.k == k
      ensures mg.k == k && mg.Mergeable() && Credit(k, mg.State().Effective(), h) && StandsFor(mg.State(), h)
    {
      hide Credit;
    }

    lemma AnswerIs(mg: MisraGries, h0: multiset<Key>, m: nat, d: multiset<Key>, cut: nat)
      requires Purged(leaves) <= Keys(events) && h0 == Keys(events) - Purged(leaves) && AllCounted(leaves)
      requires m <= |leaves| && Gathered(k, mg.State().Effective(), h0, leaves, m, |leaves|, d)
      requires AtMost(d, cut) && Covered(third, leaves, m, cut)
      requires if m == |leaves| then mg.k == k && StandsFor(mg.State(), h0) && cut == 0
          else mg.cnt == mg.State().Effective()
      ensures Answer(third, k, mg.cnt, From(m), cut)
    {
      hide Purged, Keys, AllCounted, Gathered, AtMost, Covered, StandsFor, Answer;
      if m == |leaves| {
        assert leaves[..m] == leaves;
        RawAnswers(third, k, mg.State(), h0);
      } else {
        GatheredAnswers(third, k, mg.cnt, Keys(events), leaves, m, d, cut);
      }
    }

    /**
     `estimate_heavy_hitters_bitp`: whatever is frequent among the merged occurrences is reported, and so
     is whatever is frequent since ts by what the walk may have missed.
     */
    method EstimateHeavyHittersBitp(ts: nat, frac: real)
      returns (hits: map<Key, nat>, est: nat, ghost m: nat, ghost lo: nat)
      requires 0 < k && frac > third + 1.0 / k as real && Valid()
      ensures ts >= lastTs ==> hits == map[]
      ensures ts < lastTs ==> m <= |leaves| && Hole(rows, leaves, ts, lo, m) && (m < |leaves| ==> ts < leaves[m].ts)
      ensures ts < lastTs ==> m <= |leaves| && |From(m)| <= est && (0 < est ==> AllHit(From(m), est, frac, hits))
      ensures ts < lastTs && Known(events, ts) ==> AllCame(third, k, hits, est, frac, Seen(events, ts), Keys(events))
      ensures ts < lastTs && Known(events, ts) && 0 < est ==> forall burst: nat | Spread(events, burst) ::
                AllHitSince(third, burst, hits, est, frac, Seen(events, ts), Keys(events))
      ensures ts < lastTs ==> m <= |leaves| && CountsMerged(third, hits, From(m))
      ensures ts < lastTs ==> est == total - Before(leaves, m) || est == total - Before(leaves, lo)
      ensures ts < lastTs && Known(events, ts) ==> forall burst: nat | Spread(events, burst) ::
                CountsSince(third, burst, hits, Seen(events, ts), Keys(events))
    {
      hide *;
      if ts >= lastTs { return map[], 0, 0, 0; }
      ValidParts();
      var mg, total';
      ghost var cut;
      mg, total', m, lo, cut := CreateTmpMgAt(ts);
      est := total';
      hits := Report(mg, frac, total');
      EstCovers(m, lo, est, ts);
      if 0 < est { AnswerHits(third, k, mg.cnt, From(m), cut, est, frac, hits); }
      CurParts();
      CountsMergedOf(third, k, mg.cnt, hits, From(m), cut);
      if Known(events, ts) {
        ghost var seen := Seen(events, ts);
        HitsCame(third, k, mg.cnt, hits, est, frac, From(m), seen, Keys(events), Between(leaves, lo, m));
        forall burst: nat | Spread(events, burst) ensures CountsSince(third, burst, hits, seen, Keys(events)) {
          CountsSinceOf(third, burst, mg.cnt, hits, seen, Keys(events));
        }
        if 0 < est {
          forall burst: nat | Spread(events, burst)
            ensures AllHitSince(third, burst, hits, est, frac, seen, Keys(events)) {
            CurParts();
            MissOf(ts, lo, m, burst);
            HitsSince(third, k, burst, mg.cnt, hits, est, frac, From(m), seen, Keys(events), Between(leaves, lo, m));
          }
        }
      }
    }

    method Report(mg: MisraGries, frac: real, est: nat) returns (hits: map<Key, nat>)
      requires 0 < k && mg.eps == 1.0 / k as real && frac >= third + mg.eps
      ensures forall x :: x in hits <==> x in mg.cnt && mg.cnt[x] >= Cutoff(third, k, est, frac)
      ensures forall x <- hits :: hits[x] == mg.cnt[x]
    {
      hits := mg.EstimateHeavyHitters(frac - third, est);
    }

    lemma EstCovers(m: nat, lo: nat, est: int, ts: nat)
      requires Valid() && m <= |leaves| && Hole(rows, leaves, ts, lo, m)
      requires est == total - Before(leaves, m) || est == total - Before(leaves, lo)
      ensures |From(m)| <= est
    {
      hide *;
      ValidParts();
      CurParts();
      StableParts();
      HoleBounds(rows, leaves, ts, lo, m);
      FromIs(m);
      CountedAt(leaves, m);
      BeforeRises(leaves, lo, m);
      PartLess(Keys(events), Purged(leaves[..m]));
    }

    lemma FromIs(m: nat)
      requires m <= |leaves| && Purged(leaves) <= Keys(events)
      ensures From(m) == Keys(events) - Purged(leaves[..m]) && Purged(leaves[..m]) <= Keys(events)
    {
      hide Keys, Purged;
      PurgedSplit(leaves, m);
    }
  }
}
