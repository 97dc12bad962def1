/** The levels of a back-in-time tree sketch, the lists and trees that link them, and their sizes. */
module BitpRows {
  import opened Products
  import opened MisraGriesSpec
  import opened Timeline
  import opened Batches
  import opened BitpNodes

  type Rows = seq<seq<Node>>

  ghost function Row(rows: Rows, l: int): seq<Node> {
    if 0 <= l < |rows| then rows[l] else []
  }

  /** How many nodes at the front of level l have no children. */
  ghost function Childless(rows: Rows, l: nat): int {
    |Row(rows, l)| - |Row(rows, l - 1)| / 2
  }

  /** The same while a node is still to join level l. */
  ghost function Front(rows: Rows, m: nat, l: nat): int {
    Childless(rows, m) + if m == l then 1 else 0
  }

  ghost function Top(row: seq<Node>): Node? {
    if |row| % 2 == 1 then row[|row| - 1] else null
  }

  ghost function NodesOf(rows: Rows): set<Node> {
    set l, i | 0 <= l < |rows| && 0 <= i < |rows[l]| :: rows[l][i]
  }

  /** The nodes stand where their levels and leaves say. */
  ghost predicate Standing(rows: Rows, leaves: seq<Batch>) {
    && |rows| == 64
    && (forall l :: 0 <= l < 64 ==> Placed(rows[l], l) && AllStamped(leaves, rows[l]))
  }

  /** The trees of the levels from l up cover the leaves before e. */
  ghost predicate Roots(rows: Rows, l: nat, e: nat)
    decreases |rows| - l
  {
    if l >= |rows| then e == 0
    else
      var row := rows[l];
      && (row != [] ==> row[|row| - 1].End() == e)
      && Roots(rows, l + 1, if |row| % 2 == 1 then row[|row| - 1].start else e)
  }

  /** Neighbouring levels fit, but for level l and the one below, where a node is still to join. */
  ghost predicate Families(rows: Rows, l: nat)
    reads NodesOf(rows)`parent, NodesOf(rows)`left, NodesOf(rows)`right
  {
    forall m :: 0 <= m <= 64 && m != l ==> Family(Row(rows, m - 1), Row(rows, m))
  }

  ghost predicate Joining(rows: Rows, l: nat, tn: Node)
    reads Row(rows, l - 1)`parent, Row(rows, l)`left, Row(rows, l)`right, tn`left, tn`right
  {
    Family(Row(rows, l - 1), Row(rows, l) + [tn])
  }

  ghost predicate Rings(rows: Rows, last: seq<Node?>)
    requires |rows| == |last|
    reads NodesOf(rows)`next, NodesOf(rows)`prev
  {
    forall m :: 0 <= m < |rows| ==> Ring(rows[m], last[m])
  }

  ghost predicate Tops(rows: Rows, tree: seq<Node?>)
    requires |rows| == |tree|
  {
    forall m :: 0 <= m < |rows| ==> tree[m] == Top(rows[m])
  }

  ghost predicate Sketched(third: Third, k: nat, leaves: seq<Batch>, rows: Rows, l: nat)
    reads NodesOf(rows)`mg, NodesOf(rows)`cut
  {
    forall m :: 0 <= m < |rows| ==>
      Keeps(third, k, leaves, rows[m], Front(rows, m, l))
  }

  lemma RowPlaced(rows: Rows, leaves: seq<Batch>, l: nat)
    requires Standing(rows, leaves)
    ensures Placed(Row(rows, l), l) && AllStamped(leaves, Row(rows, l))
  {
  }

  lemma RowNodes(rows: Rows, l: int)
    ensures forall n <- Row(rows, l) :: n in NodesOf(rows)
  {
  }

  lemma SketchedEach(third: Third, k: nat, leaves: seq<Batch>, rows: Rows, l: nat)
    requires Sketched(third, k, leaves, rows, l)
    ensures forall m | 0 <= m < |rows| :: Keeps(third, k, leaves, rows[m], Front(rows, m, l))
  {
    hide Keeps, Front;
  }

  lemma RingsEach(rows: Rows, last: seq<Node?>)
    requires |rows| == |last| && Rings(rows, last)
    ensures forall m | 0 <= m < |rows| :: Ring(rows[m], last[m])
  {
    hide Ring;
  }

  lemma RingsAll(rows: Rows, last: seq<Node?>)
    requires |rows| == |last| && forall m | 0 <= m < |rows| :: Ring(rows[m], last[m])
    ensures Rings(rows, last)
  {
    hide Ring;
  }

  lemma LastInRow(rows: Rows, l: nat, last: Node?)
    requires l < |rows| && Ring(rows[l], last)
    ensures if rows[l] == [] then last == null else last == rows[l][|rows[l]| - 1]
    ensures last != null ==> last in NodesOf(rows)
  {
    if last != null { assert last == rows[l][|rows[l]| - 1]; }
  }

  lemma NotInRow(rows: Rows, m: nat, n: Node)
    requires m < |rows| && n !in NodesOf(rows)
    ensures n !in rows[m]
  {
    RowNodes(rows, m);
  }

  lemma StandingLength(rows: Rows, leaves: seq<Batch>)
    requires Standing(rows, leaves)
    ensures |rows| == 64
  {
  }

  /** The new parent of the last pair stands at the end of the next level. */
  lemma PairPlaces(rows: Rows, leaves: seq<Batch>, l: nat, tn: Node, top: Node)
    requires Standing(rows, leaves) && |rows| == 64 && l < 64 && |rows[l]| % 2 == 1
    requires Placed(rows[l] + [tn], l) && Roots(rows, l, tn.start) && tn.End() == |leaves| && Stamped(leaves, tn)
    requires var older := rows[l][|rows[l]| - 1];
             && top.ts == older.ts && top.total == Before(leaves, |leaves|) && top.level == l + 1
             && top.start == older.start && top.End() == tn.End()
    ensures var rows' := rows[l := rows[l] + [tn]];
            && Standing(rows', leaves) && Roots(rows', l + 1, top.start) && Stamped(leaves, top)
            && Placed(Row(rows', l + 1) + [top], l + 1)
            && Row(rows', l) == rows'[l] && Row(rows', l + 1) == Row(rows, l + 1)
            && NodesOf(rows') == NodesOf(rows) + {tn}
  {
    hide *;
    var rows', up := rows[l := rows[l] + [tn]], Row(rows, l + 1);
    var older := rows[l][|rows[l]| - 1];
    RowPlaced(rows, leaves, l + 1);
    RowsAfter(rows, l, tn);
    RowStamped(rows, leaves, l);
    RootsNext(rows, l, tn.start);
    RootsAbove(rows, rows', l + 1, older.start);
    RootsEnd(rows, l + 1, older.start);
    TopSize(rows, leaves, l, tn, top);
    PlacedMore(up, top, l + 1);
    NodesGrown(rows, l, tn);
    StandingGrown(rows, leaves, l, tn);
  }

  lemma TopOfRow(rows: Rows, tree: seq<Node?>, l: nat, tn: Node)
    requires |rows| == |tree| && l < |rows| && |rows[l]| % 2 == 1 && Tops(rows, tree)
    ensures tree[l] == Top(rows[l]) == rows[l][|rows[l]| - 1] && Row(rows, l) == rows[l]
    ensures rows[l][|rows[l]| - 1] in NodesOf(rows)
    ensures Joining(rows, l, tn) ==> Family(Row(rows, l - 1), rows[l] + [tn])
  {
    hide Family, NodesOf;
    RowNodes(rows, l);
  }

  lemma LastApart(rows: Rows, leaves: seq<Batch>, m: nat, l: nat)
    requires Standing(rows, leaves) && l < |rows| && m < |rows| && m != l && rows[l] != []
    ensures rows[l][|rows[l]| - 1] !in rows[m]
  {
    LevelsApart(rows, leaves, m, l);
    assert rows[l][|rows[l]| - 1] in Row(rows, l);
  }

  lemma FamiliesEach(rows: Rows, l: nat)
    requires Families(rows, l)
    ensures forall m | 0 <= m <= 64 && m != l :: Family(Row(rows, m - 1), Row(rows, m))
  {
    hide Family, Row;
  }

  /** Where the parent of the oldest pair of level l stands. */
  lemma FrontIs(rows: Rows, l: nat, top: Node)
    requires l < |rows| && Joining(rows, l + 1, top) && 2 <= |rows[l]|
    ensures Front(rows, l + 1, l + 1) == |Row(rows, l + 1) + [top]| - |rows[l]| / 2
    ensures 0 <= Front(rows, l + 1, l + 1) < |Row(rows, l + 1) + [top]|
    ensures Family(rows[l], Row(rows, l + 1) + [top])
  {
  }

  lemma RowsCut(rows: Rows, l: nat)
    requires l < |rows| && 2 <= |rows[l]|
    ensures var rows' := rows[l := rows[l][2..]];
            && Row(rows', l) == rows[l][2..] && Row(rows, l) == rows[l]
            && (forall m: int :: m != l ==> Row(rows', m) == Row(rows, m))
    ensures Childless(rows, l) == |rows[l]| - |Row(rows, l - 1)| / 2
    ensures rows[l][0] in Row(rows, l) && rows[l][1] in Row(rows, l)
  {
  }

  /** The frontmost nodes have no children. */
  lemma FamilyFront(lo: seq<Node>, up: seq<Node>)
    requires Family(lo, up) && 2 <= |up| - |lo| / 2
    ensures up[0].left == null && up[0].right == null && up[1].left == null && up[1].right == null
  {
  }

  lemma UpNodes(rows: Rows, l: nat, top: Node)
    ensures forall i | 0 <= i <= |Row(rows, l)| :: (Row(rows, l) + [top])[i] in NodesOf(rows) + {top}
  {
    RowNodes(rows, l);
  }

  lemma UpApart(rows: Rows, leaves: seq<Batch>, l: nat, m: nat, top: Node)
    requires Standing(rows, leaves) && m != l && top !in NodesOf(rows)
    ensures forall i, b | 0 <= i <= |Row(rows, l)| && b in Row(rows, m) :: (Row(rows, l) + [top])[i] != b
  {
    LevelsApart(rows, leaves, l, m);
    RowNodes(rows, m);
  }

  lemma FamiliesCut(rows: Rows, l: nat, top: Node)
    requires l < |rows| && 2 <= |rows[l]|
    requires forall m | 0 <= m <= 64 && m != l + 1 && m != l :: Family(Row(rows, m - 1), Row(rows, m))
    requires Family(Row(rows, l - 1), rows[l][2..]) && Family(rows[l][2..], Row(rows, l + 1) + [top])
    ensures Families(rows[l := rows[l][2..]], l + 1) && Joining(rows[l := rows[l][2..]], l + 1, top)
  {
    hide Family;
    RowsCut(rows, l);
  }

  lemma InRow(rows: Rows, l: nat, i: nat)
    requires l < |rows| && i < |rows[l]|
    ensures rows[l][i] in NodesOf(rows)
  {
  }

  lemma NodeApart(rows: Rows, leaves: seq<Batch>, m: nat, l: nat, n: Node)
    requires Standing(rows, leaves) && l < |rows| && m < |rows| && m != l && n in rows[l]
    ensures n !in rows[m]
  {
    LevelsApart(rows, leaves, m, l);
    assert n in Row(rows, l);
  }

  lemma FrontCut(rows: Rows, l: nat, m: nat)
    requires l < |rows| && 2 <= |rows[l]|
    ensures Front(rows[l := rows[l][2..]], m, l + 1) ==
            Front(rows, m, l + 1) + if m == l then -2 else if m == l + 1 then 1 else 0
  {
  }

  lemma SketchedCut(third: Third, k: nat, leaves: seq<Batch>, rows: Rows, l: nat)
    requires l + 1 < |rows| && 2 <= |rows[l]|
    requires forall m | 0 <= m < |rows| && m != l && m != l + 1 ::
        Keeps(third, k, leaves, rows[m], Front(rows, m, l + 1))
    requires Keeps(third, k, leaves, rows[l][2..], Front(rows, l, l + 1) - 2)
    requires Keeps(third, k, leaves, rows[l + 1], Front(rows, l + 1, l + 1) + 1)
    ensures Sketched(third, k, leaves, rows[l := rows[l][2..]], l + 1)
  {
    hide Keeps, Front;
    var rows' := rows[l := rows[l][2..]];
    forall m | 0 <= m < |rows| ensures Keeps(third, k, leaves, rows'[m], Front(rows', m, l + 1)) {
      FrontCut(rows, l, m);
    }
  }

  lemma PairSketches(third: Third, k: nat, leaves: seq<Batch>, row: seq<Node>, s: int)
    requires Keeps(third, k, leaves, row, s) && 2 < |row|
    ensures row[0].mg.Dropped? && row[1].mg.Kept?
  {
    assert 1 % 2 == 1;
  }

  /** With k nodes after it the pair's parent is in the list of its level, and not the last of it. */
  lemma ParentStands(rows: Rows, l: nat, top: Node, k: nat)
    requires |rows| == 64 && l < 64 && 2 <= k && |rows[l]| == 2 * k + 2 && 0 <= Front(rows, l + 1, l + 1)
    ensures l + 1 < 64 && 0 <= Front(rows, l + 1, l + 1) < |rows[l + 1]| - 1
    ensures (Row(rows, l + 1) + [top])[Front(rows, l + 1, l + 1)] == rows[l + 1][Front(rows, l + 1, l + 1)]
  {
  }

  lemma PlacedCut(row: seq<Node>, l: nat)
    requires Placed(row, l) && 2 <= |row|
    ensures Placed(row[2..], l)
  {
  }

  lemma PrunePlaces(rows: Rows, leaves: seq<Batch>, tree: seq<Node?>, l: nat, top: Node)
    requires |rows| == 64 == |tree| && l < 64 && 2 < |rows[l]| && |rows[l]| % 2 == 0
    requires Standing(rows, leaves) && Roots(rows, l + 1, top.start) && Tops(rows, tree)
    requires Placed(Row(rows, l + 1) + [top], l + 1) && top !in NodesOf(rows)
    ensures var rows' := rows[l := rows[l][2..]];
            && Standing(rows', leaves) && Roots(rows', l + 1, top.start) && Tops(rows', tree)
            && Placed(Row(rows', l + 1) + [top], l + 1) && top !in NodesOf(rows')
            && NodesOf(rows') <= NodesOf(rows)
            && Row(rows', l) == rows[l][2..] && Row(rows', l + 1) == Row(rows, l + 1)
  {
    hide *;
    var rows' := rows[l := rows[l][2..]];
    RowsCut(rows, l);
    RootsAbove(rows, rows', l + 1, top.start);
    StandingCut(rows, leaves, l);
    NodesCut(rows, l);
    TopsCut(rows, tree, l);
  }

  lemma StandingCut(rows: Rows, leaves: seq<Batch>, l: nat)
    requires Standing(rows, leaves) && l < |rows| && 2 <= |rows[l]|
    ensures Standing(rows[l := rows[l][2..]], leaves)
  {
    hide Placed, Stamped;
    PlacedCut(rows[l], l);
  }

  lemma NodesCut(rows: Rows, l: nat)
    requires l < |rows| && 2 <= |rows[l]|
    ensures NodesOf(rows[l := rows[l][2..]]) <= NodesOf(rows)
  {
    var rows' := rows[l := rows[l][2..]];
    forall n <- NodesOf(rows') ensures n in NodesOf(rows) {
      var m, i :| 0 <= m < |rows'| && 0 <= i < |rows'[m]| && rows'[m][i] == n;
      assert rows[m][if m == l then i + 2 else i] == n;
    }
  }

  lemma TopsCut(rows: Rows, tree: seq<Node?>, l: nat)
    requires |rows| == |tree| && l < |rows| && 2 < |rows[l]| && Tops(rows, tree)
    ensures Tops(rows[l := rows[l][2..]], tree)
  {
  }

  lemma JoiningIs(rows: Rows, l: nat, top: Node)
    requires Family(Row(rows, l), Row(rows, l + 1) + [top])
    ensures Joining(rows, l + 1, top)
  {
    hide Family;
  }

  /** The levels below l are settled: their nodes are paired up to the last leaf. */
  ghost predicate Lower(rows: Rows, l: nat, e: nat) {
    forall m :: 0 <= m < l && m < |rows| ==> |rows[m]| % 2 == 0 && (rows[m] != [] ==> rows[m][|rows[m]| - 1].End() == e)
  }

  lemma PlaceFamilies(rows: Rows, l: nat, tn: Node)
    requires l < |rows| == 64 && |rows[l]| % 2 == 0 && tn.parent == null
    requires Families(rows, l) && Joining(rows, l, tn)
    ensures Families(rows[l := rows[l] + [tn]], 65)
  {
    hide Family;
    var rows' := rows[l := rows[l] + [tn]];
    FamiliesEach(rows, l);
    RowsAfter(rows, l, tn);
    assert Family(rows[l], Row(rows, l + 1)) by { assert Family(Row(rows, l + 1 - 1), Row(rows, l + 1)); }
    FamilySingle(rows[l], Row(rows, l + 1), tn);
    forall m | 0 <= m <= 64 ensures Family(Row(rows', m - 1), Row(rows', m)) {
      if m != l && m != l + 1 { assert Row(rows', m) == Row(rows, m) && Row(rows', m - 1) == Row(rows, m - 1); }
    }
  }

  lemma FamilySingle(lo: seq<Node>, up: seq<Node>, n: Node)
    requires Family(lo, up) && |lo| % 2 == 0 && n.parent == null
    ensures Family(lo + [n], up)
  {
    var lo', s := lo + [n], |up| - |lo| / 2;
    assert |lo'| / 2 == |lo| / 2;
    forall i | 0 <= i < |lo'| / 2
      ensures up[s + i].left == lo'[2 * i] && up[s + i].right == lo'[2 * i + 1]
      ensures lo'[2 * i].parent == lo'[2 * i + 1].parent == up[s + i]
      ensures up[s + i].start == lo'[2 * i].start && up[s + i].End() == lo'[2 * i + 1].End()
    {
      assert lo'[2 * i] == lo[2 * i] && lo'[2 * i + 1] == lo[2 * i + 1];
    }
  }

  lemma FrontPlaced(rows: Rows, l: nat, m: nat, tn: Node)
    requires l < |rows| == 64 && |rows[l]| % 2 == 0 && m < 64
    ensures Front(rows[l := rows[l] + [tn]], m, 65) == Front(rows, m, l)
  {
  }

  lemma PlaceSketches(third: Third, k: nat, leaves: seq<Batch>, rows: Rows, l: nat, tn: Node)
    requires l < |rows| == 64 && |rows[l]| % 2 == 0 && Whole(k, leaves, tn) && Sketched(third, k, leaves, rows, l)
    ensures Sketched(third, k, leaves, rows[l := rows[l] + [tn]], 65)
  {
    hide Keeps, Front, Whole;
    var rows' := rows[l := rows[l] + [tn]];
    SketchedEach(third, k, leaves, rows, l);
    KeepsRoot(third, k, leaves, rows[l], tn, Front(rows, l, l));
    forall m | 0 <= m < 64 ensures Keeps(third, k, leaves, rows'[m], Front(rows', m, 65)) {
      FrontPlaced(rows, l, m, tn);
    }
  }

  lemma KeepsRoot(third: Third, k: nat, leaves: seq<Batch>, row: seq<Node>, n: Node, s: int)
    requires Keeps(third, k, leaves, row, s) && |row| % 2 == 0 && Whole(k, leaves, n)
    ensures Keeps(third, k, leaves, row + [n], s)
  {
    hide Stands, Whole;
    var all := row + [n];
    forall i | 0 <= i < |all|
      ensures if i % 2 == 1 then Stands(third, k, leaves, all[i]) && (all[i].cut > 0 ==> i < s)
              else if i + 1 == |all| then Whole(k, leaves, all[i])
              else all[i].mg.Dropped? && all[i].cut == 0
    {
      if i < |row| { assert all[i] == row[i]; }
    }
  }

  lemma PlaceRoots(rows: Rows, leaves: seq<Batch>, l: nat, tn: Node)
    requires l < |rows| == 64 && |rows[l]| % 2 == 0 && Lower(rows, l, |leaves|)
    requires Standing(rows, leaves) && Roots(rows, l, tn.start) && tn.End() == |leaves|
    requires Placed(Row(rows, l) + [tn], l) && Stamped(leaves, tn)
    ensures var rows' := rows[l := rows[l] + [tn]];
            Standing(rows', leaves) && Roots(rows', 0, |leaves|) && NodesOf(rows') == NodesOf(rows) + {tn}
  {
    hide *;
    var rows' := rows[l := rows[l] + [tn]];
    assert Placed(rows[l] + [tn], l) by { RowIs(rows, l); }
    StandingGrown(rows, leaves, l, tn);
    NodesGrown(rows, l, tn);
    RootsPlaced(rows, rows', l, tn, |leaves|);
    LowerPlaced(rows, rows', l, tn, |leaves|);
    RootsBelow(rows', l, |leaves|);
  }

  lemma RowIs(rows: Rows, l: nat)
    requires l < |rows|
    ensures Row(rows, l) == rows[l]
  {
  }

  lemma RootsPlaced(rows: Rows, rows': Rows, l: nat, tn: Node, e: nat)
    requires l < |rows| && rows' == rows[l := rows[l] + [tn]] && |rows[l]| % 2 == 0
    requires Roots(rows, l, tn.start) && tn.End() == e
    ensures Roots(rows', l, e)
  {
    assert |rows[l] + [tn]| % 2 == 1;
    RootsAbove(rows, rows', l + 1, tn.start);
  }

  lemma LowerPlaced(rows: Rows, rows': Rows, l: nat, tn: Node, e: nat)
    requires l < |rows| && rows' == rows[l := rows[l] + [tn]] && Lower(rows, l, e)
    ensures Lower(rows', l, e)
  {
  }

  lemma {:induction false} RootsBelow(rows: Rows, l: nat, e: nat)
    requires l <= |rows| && Lower(rows, l, e) && Roots(rows, l, e)
    ensures Roots(rows, 0, e)
  {
    if l > 0 {
      assert Roots(rows, l - 1, e);
      RootsBelow(rows, l - 1, e);
    }
  }

  /** The trees of the levels from l up leave room for one of level l. */
  lemma {:induction false} RootsFit(rows: Rows, leaves: seq<Batch>, l: nat, e: nat)
    requires Standing(rows, leaves) && l <= 64 && Roots(rows, l, e)
    ensures e + Pow2(l) <= Pow2(64)
    decreases 64 - l
  {
    hide Standing, Pow2;
    StandingLength(rows, leaves);
    if l < 64 {
      var row := rows[l];
      TopSpan(rows, leaves, l);
      RootsFit(rows, leaves, l + 1, if |row| % 2 == 1 then row[|row| - 1].start else e);
      Pow2Next(l);
    }
  }

  lemma TopSpan(rows: Rows, leaves: seq<Batch>, l: nat)
    requires Standing(rows, leaves) && l < 64
    ensures |rows| == 64 && (rows[l] != [] ==> rows[l][|rows[l]| - 1].End() == rows[l][|rows[l]| - 1].start + Pow2(l))
  {
    hide Pow2;
    assert Placed(rows[l], l);
  }

  lemma Pow2Next(l: nat)
    ensures Pow2(l + 1) == Pow2(l) + Pow2(l)
  {
  }

  /** Sixty-four levels are full with 2^64 leaves. */
  lemma FullForest(rows: Rows, e: nat, tn: Node)
    requires |rows| == 64 && Roots(rows, 64, tn.start) && Placed(Row(rows, 64) + [tn], 64) && tn.End() == e
    ensures e == Pow2(64)
  {
    hide Pow2;
    assert Row(rows, 64) + [tn] == [tn] && [tn][0] == tn;
  }

  /** Where nothing has been pruned the lengths of the levels count the leaves in binary. */
  lemma {:induction false} RootsCount(rows: Rows, leaves: seq<Batch>, l: nat, e: nat)
    requires Standing(rows, leaves) && l < 64 && Roots(rows, l, e) && |rows[63]| <= 1
    requires forall m :: l <= m < 63 ==> |rows[m]| / 2 == |rows[m + 1]|
    ensures e == Times(Pow2(l), |rows[l]|)
    decreases 64 - l
  {
    hide Standing, Pow2, Times;
    StandingLength(rows, leaves);
    var row := rows[l];
    TopSpan(rows, leaves, l);
    var e' := if |row| % 2 == 1 then row[|row| - 1].start else e;
    if l < 63 {
      RootsCount(rows, leaves, l + 1, e');
      Pow2Next(l);
      Halved(Pow2(l), |row|);
    } else {
      assert Roots(rows, 64, e') && e' == 0;
      TimesSmall(Pow2(l));
    }
  }

  lemma TimesSmall(p: nat)
    ensures Times(p, 0) == 0 && Times(p, 1) == p
  {
  }

  lemma Halved(p: nat, n: nat)
    ensures Times(p, n) == Times(p + p, n / 2) + if n % 2 == 1 then p else 0
  {
    TimesIsProduct(p, n);
    TimesIsProduct(p + p, n / 2);
    assert n == 2 * (n / 2) + n % 2;
    assert p * (2 * (n / 2)) == (p + p) * (n / 2);
    assert p * n == p * (2 * (n / 2)) + p * (n % 2);
  }

  lemma PlaceTops(rows: Rows, tree: seq<Node?>, tree': seq<Node?>, l: nat, tn: Node)
    requires |rows| == |tree| && l < |rows| && |rows[l]| % 2 == 0 && Tops(rows, tree) && tree' == tree[l := tn]
    ensures Tops(rows[l := rows[l] + [tn]], tree')
  {
  }

  lemma LeafPlaces(rows: Rows, leaves: seq<Batch>, b: Batch, tn: Node)
    requires |rows| == 64 && Standing(rows, leaves) && Roots(rows, 0, |leaves|)
    requires tn.ts == b.ts && tn.total == b.total && tn.level == 0 && tn.start == |leaves| && tn.size == 1
    ensures Standing(rows, leaves + [b]) && Stamped(leaves + [b], tn) && Placed(Row(rows, 0) + [tn], 0)
    ensures tn.End() == |leaves + [b]| && Before(leaves + [b], |leaves + [b]|) == b.total
  {
    hide Placed, AllStamped;
    forall l | 0 <= l < 64 ensures AllStamped(leaves + [b], rows[l]) { StampsGrow(leaves, b, rows[l]); }
    RootsEnd(rows, 0, |leaves|);
    PlacedMore(rows[0], tn, 0);
  }

  lemma LeafSketches(third: Third, k: nat, leaves: seq<Batch>, b: Batch, rows: Rows)
    requires |rows| == 64 && Counting(leaves + [b]) && Sketched(third, k, leaves, rows, 65)
    ensures Sketched(third, k, leaves + [b], rows, 0)
  {
    hide Keeps, Counting;
    SketchedEach(third, k, leaves, rows, 65);
    forall m | 0 <= m < 64 ensures Keeps(third, k, leaves + [b], rows[m], Front(rows, m, 0)) {
      KeepsGrows(third, k, leaves, b, rows[m], Front(rows, m, 65), Front(rows, m, 0));
    }
  }

  lemma LeafFamilies(rows: Rows, tn: Node)
    requires |rows| == 64 && Families(rows, 65) && tn.left == null && tn.right == null
    ensures Families(rows, 0) && Joining(rows, 0, tn)
  {
    FamiliesEach(rows, 65);
    assert Family(Row(rows, 0 - 1), Row(rows, 0));
  }

  /**
   The number of nodes at each level: completed levels keep 2k or one more, the levels from
   the lowest incomplete one up have never been pruned. Below l the carry has been through.
   */
  ghost predicate Sized(rows: Rows, k: nat, level: nat, l: nat) {
    && (forall m :: 0 <= m < level && m < |rows| ==>
          if m < l then |rows[m]| == 2 * k else 2 * k <= |rows[m]| <= 2 * k + 1)
    && (forall m :: level <= m && m + 1 < |rows| ==>
          |rows[m]| / 2 == |rows[m + 1]| + if m + 1 == l then 1 else 0)
  }

  lemma SizedPair(before: Rows, rows: Rows, k: nat, level: nat, l: nat, tn: Node)
    requires l < |before| == 64 && |before[l]| % 2 == 1 && rows == before[l := before[l] + [tn]]
    requires 2 <= k && Sized(before, k, level, l)
    ensures l < level ==> |rows[l]| == 2 * k + 2 && 2 <= Childless(rows, l)
    ensures l >= level ==> Sized(rows, k, level, l + 1)
  {
    if l > 0 && l < level { assert |before[l - 1]| == 2 * k; }
  }

  lemma SizedPrune(before: Rows, rows: Rows, k: nat, level: nat, l: nat, tn: Node)
    requires l < |before| == 64 && l < level && |before[l]| % 2 == 1 && rows == before[l := (before[l] + [tn])[2..]]
    requires 2 <= k && Sized(before, k, level, l)
    ensures Sized(rows, k, level, l + 1)
  {
  }

  lemma LowerPair(before: Rows, rows: Rows, l: nat, e: nat, tn: Node)
    requires l < |before| && |before[l]| % 2 == 1 && rows == before[l := before[l] + [tn]]
    requires Lower(before, l, e) && tn.End() == e
    ensures Lower(rows, l + 1, e)
  {
  }

  lemma LowerPrune(before: Rows, rows: Rows, l: nat, e: nat, tn: Node)
    requires l < |before| && |before[l]| % 2 == 1 && rows == before[l := (before[l] + [tn])[2..]]
    requires Lower(before, l, e) && tn.End() == e
    ensures Lower(rows, l + 1, e)
  {
  }

  lemma NothingLower(rows: Rows, e: nat)
    ensures Lower(rows, 0, e)
  {
  }

  lemma TopGiven(rows: Rows, tree: seq<Node?>, l: nat)
    requires |rows| == |tree| && l < |rows| && Tops(rows, tree) && tree[l] != null
    ensures |rows[l]| % 2 == 1
  {
  }

  lemma TopNone(rows: Rows, tree: seq<Node?>, l: nat)
    requires |rows| == |tree| && l < |rows| && Tops(rows, tree) && tree[l] == null
    ensures |rows[l]| % 2 == 0
  {
  }

  /** One more than the largest 32-bit counter. */
  const WRAP: nat := 0x1_0000_0000

  /** How often a 32-bit counter is to be decremented until it reads 0 again. */
  function Left(remaining: nat): nat {
    if remaining == 0 then WRAP else remaining
  }

  lemma TopLevelSmall(rows: Rows)
    requires |rows| == 64 && Families(rows, 65)
    ensures |rows[63]| <= 1
  {
    FamiliesEach(rows, 65);
    assert Family(Row(rows, 64 - 1), Row(rows, 64));
  }

  lemma PlaceSized(start: Rows, before: Rows, rows: Rows, k: nat, level: nat, l: nat, tn: Node)
    requires |start| == |before| == 64 && l < 64 && level < 64 && Sized(before, k, level, l)
    requires |before[l]| % 2 == 0 && rows == before[l := before[l] + [tn]]
    requires before[l] == start[l] && (forall m :: l < m < 64 ==> before[m] == start[m])
    requires forall m :: level <= m < l ==> |before[m]| == |start[m]| + 1
    ensures Sized(rows, k, level, 0)
    ensures |rows[level]| == |start[level]| + if l >= level then 1 else 0
  {
  }

  /** The leaves stand for as many occurrences as their totals say. */
  ghost predicate AllCounted(leaves: seq<Batch>) {
    forall a :: 0 <= a <= |leaves| ==> |Purged(leaves[..a])| == Before(leaves, a)
  }

  lemma CountedMore(leaves: seq<Batch>, b: Batch)
    requires AllCounted(leaves) && |Purged(leaves + [b])| == b.total
    ensures AllCounted(leaves + [b])
  {
    hide Purged;
    var all := leaves + [b];
    forall a | 0 <= a <= |all| ensures |Purged(all[..a])| == Before(all, a) {
      if a <= |leaves| {
        assert all[..a] == leaves[..a];
        assert a > 0 ==> all[a - 1] == leaves[a - 1];
        assert |Purged(leaves[..a])| == Before(leaves, a);
      } else {
        assert all[..a] == all;
      }
    }
  }

  lemma LeafStorable(k: nat, s: Summary, b: Batch)
    requires s.k == k && StandsFor(s, b.items) && b.counts == s.Effective()
    ensures Storable(k, [b])
  {
    hide Credit;
    SubmapSize(b.counts, s.cnt);
  }

  lemma RowStamped(rows: Rows, leaves: seq<Batch>, l: nat)
    requires Standing(rows, leaves) && l < |rows|
    ensures AllStamped(leaves, rows[l]) && Placed(rows[l], l)
  {
    hide AllStamped, Placed;
  }

  lemma RowsAfter(rows: Rows, l: nat, tn: Node)
    requires l < |rows|
    ensures var rows' := rows[l := rows[l] + [tn]];
            Row(rows', l) == rows'[l] && Row(rows', l + 1) == Row(rows, l + 1) && Row(rows, l) == rows[l]
  {
  }

  lemma RootsNext(rows: Rows, l: nat, e: nat)
    requires l < |rows| && Roots(rows, l, e) && |rows[l]| % 2 == 1
    ensures rows[l][|rows[l]| - 1].End() == e && Roots(rows, l + 1, rows[l][|rows[l]| - 1].start)
  {
  }

  lemma TopSize(rows: Rows, leaves: seq<Batch>, l: nat, tn: Node, top: Node)
    requires l < |rows| && |rows[l]| % 2 == 1 && Placed(rows[l] + [tn], l) && tn.End() == |leaves|
    requires AllStamped(leaves, rows[l])
    requires var older := rows[l][|rows[l]| - 1];
             && top.ts == older.ts && top.total == Before(leaves, |leaves|)
             && top.start == older.start && top.End() == tn.End()
    ensures top.size == Pow2(l + 1) && 0 < top.size && Stamped(leaves, top)
  {
    PlacedApart(rows[l], tn, l);
    assert (rows[l] + [tn])[|rows[l]|] == tn && (rows[l] + [tn])[|rows[l]| - 1] == rows[l][|rows[l]| - 1];
    assert Stamped(leaves, rows[l][|rows[l]| - 1]);
  }

  lemma StandingGrown(rows: Rows, leaves: seq<Batch>, l: nat, tn: Node)
    requires Standing(rows, leaves) && l < |rows| && Placed(rows[l] + [tn], l) && Stamped(leaves, tn)
    ensures Standing(rows[l := rows[l] + [tn]], leaves)
  {
    hide Placed, Stamped;
  }

  lemma {:induction false} RootsAbove(rows: Rows, rows': Rows, l: nat, e: nat)
    requires |rows| == |rows'| && Roots(rows, l, e) && forall m :: l <= m < |rows| ==> rows[m] == rows'[m]
    ensures Roots(rows', l, e)
    decreases |rows| - l
  {
    if l < |rows| {
      assert rows[l] == rows'[l];
      RootsAbove(rows, rows', l + 1, if |rows[l]| % 2 == 1 then rows[l][|rows[l]| - 1].start else e);
    }
  }

  lemma RootsEnd(rows: Rows, l: nat, e: nat)
    requires Roots(rows, l, e)
    ensures Row(rows, l) != [] ==> Row(rows, l)[|Row(rows, l)| - 1].End() == e
  {
  }

  lemma PlacedMore(row: seq<Node>, n: Node, l: nat)
    requires Placed(row, l) && n.level == l && n.size == Pow2(l) && 0 < n.size
    requires row != [] ==> row[|row| - 1].End() == n.start
    ensures Placed(row + [n], l)
  {
    var all := row + [n];
    forall i | 0 <= i < |row| ensures row[i].End() <= n.start {
      if i < |row| - 1 { assert row[i].End() <= row[|row| - 1].start; }
    }
    forall i | 0 < i < |all| ensures all[i - 1].End() == all[i].start {}
  }

  lemma NodesGrown(rows: Rows, l: nat, tn: Node)
    requires l < |rows|
    ensures NodesOf(rows[l := rows[l] + [tn]]) == NodesOf(rows) + {tn}
  {
    var rows' := rows[l := rows[l] + [tn]];
    forall n ensures n in NodesOf(rows') <==> n in NodesOf(rows) + {tn} {
      if n in NodesOf(rows) {
        var m, i :| 0 <= m < |rows| && 0 <= i < |rows[m]| && rows[m][i] == n;
        assert rows'[m][i] == n;
      }
      if n == tn { assert rows'[l][|rows[l]|] == n; }
    }
  }

  lemma PairTops(rows: Rows, tree: seq<Node?>, tree': seq<Node?>, l: nat, tn: Node)
    requires |rows| == |tree| && l < |rows| && |rows[l]| % 2 == 1 && Tops(rows, tree) && tree' == tree[l := null]
    ensures Tops(rows[l := rows[l] + [tn]], tree')
  {
  }

  lemma FrontGrown(rows: Rows, l: nat, m: nat, tn: Node)
    requires l < |rows| && |rows[l]| % 2 == 1
    ensures Front(rows[l := rows[l] + [tn]], m, l + 1) == Front(rows, m, l)
  {
  }

  lemma SketchedGrown(third: Third, k: nat, leaves: seq<Batch>, rows: Rows, l: nat, tn: Node)
    requires l < |rows| && |rows[l]| % 2 == 1
    requires forall m | 0 <= m < |rows| && m != l :: Keeps(third, k, leaves, rows[m], Front(rows, m, l))
    requires Keeps(third, k, leaves, rows[l] + [tn], Front(rows, l, l))
    ensures Sketched(third, k, leaves, rows[l := rows[l] + [tn]], l + 1)
  {
    hide Keeps, Front;
    var rows' := rows[l := rows[l] + [tn]];
    forall m | 0 <= m < |rows| ensures Keeps(third, k, leaves, rows'[m], Front(rows', m, l + 1)) {
      FrontGrown(rows, l, m, tn);
    }
  }

  lemma StandsInRow(rows: Rows, leaves: seq<Batch>, l: nat, n: Node)
    requires Standing(rows, leaves) && l < 64 && n !in NodesOf(rows)
    ensures n !in rows[l]
  {
    RowNodes(rows, l);
  }

  lemma OthersApart(rows: Rows, leaves: seq<Batch>, m: nat, l: nat, n: Node)
    requires Standing(rows, leaves) && l < 64 && m < 64 && m != l && n !in NodesOf(rows) && rows[l] != []
    ensures rows[l][|rows[l]| - 1] !in rows[m] && n !in rows[m]
  {
    LevelsApart(rows, leaves, m, l);
    RowNodes(rows, m);
    assert rows[l][|rows[l]| - 1] in Row(rows, l);
  }

  /** Nodes of different levels differ. */
  lemma LevelsApart(rows: Rows, leaves: seq<Batch>, l: int, m: int)
    requires Standing(rows, leaves) && l != m
    ensures forall a, b :: a in Row(rows, l) && b in Row(rows, m) ==> a != b
  {
    forall a, b | a in Row(rows, l) && b in Row(rows, m) ensures a != b {
      assert a.level == l && b.level == m;
    }
  }

  // ----- leaves and time

  ghost predicate CutBefore(leaves: seq<Batch>, ts: nat) {
    forall i :: 0 <= i < |leaves| ==> leaves[i].ts < ts
  }

  /** Time t is one the leaves can tell: occurrences dated 0 are told apart only from a positive time on. */
  ghost predicate Known(events: seq<Event>, t: nat) {
    Started(events, t) || Seen(events, t) == multiset{}
  }

  /** Before time ts the leaves split by any known time stand for exactly what was seen by then. */
  ghost predicate Told(events: seq<Event>, leaves: seq<Batch>, ts: nat) {
    forall t: nat, n: nat | t < ts && Known(events, t) && Splits(leaves, t, n) :: Seen(events, t) == Purged(leaves[..n])
  }

  lemma AppendKeepsTold(events: seq<Event>, e: Event, leaves: seq<Batch>)
    requires Told(events, leaves, e.ts)
    ensures Told(events + [e], leaves, e.ts)
  {
    hide Seen, Started, NotLater, Later, Purged;
    forall t: nat, n: nat | t < e.ts && Known(events + [e], t) && Splits(leaves, t, n)
      ensures Seen(events + [e], t) == Purged(leaves[..n])
    {
      Append(events, e, t);
      assert Known(events, t);
    }
  }

  lemma LeafTells(events: seq<Event>, leaves: seq<Batch>, b: Batch, ts: nat)
    requires Told(events, leaves, b.ts) && EndsAt(events, b.ts) && Purged(leaves + [b]) == Keys(events)
    requires CutBefore(leaves, b.ts)
    ensures Told(events, leaves + [b], ts)
  {
    hide Seen, Started, Purged, Keys;
    var all := leaves + [b];
    forall t: nat, n: nat | t < ts && Known(events, t) && Splits(all, t, n)
      ensures Seen(events, t) == Purged(all[..n]) {
      assert all[|leaves|] == b;
      if t < b.ts {
        assert forall i :: 0 <= i < |leaves| ==> all[i] == leaves[i];
        assert Splits(leaves, t, n) && all[..n] == leaves[..n];
      } else {
        SeenAll(events, t);
        assert n == |all| by { assert Later(all, n, t); }
        assert all[..n] == all;
      }
    }
  }

  lemma NothingTold(events: seq<Event>, ts: nat)
    requires EndsAt(events, 0)
    ensures Told(events, [], ts)
  {
  }

  lemma LastIsBefore(leaves: seq<Batch>, ts: nat)
    requires CutBefore(leaves, ts)
    ensures leaves != [] ==> leaves[|leaves| - 1].ts < ts
  {
  }

  lemma CutMore(leaves: seq<Batch>, b: Batch, ts: nat)
    requires CutBefore(leaves, b.ts) && b.ts < ts
    ensures CutBefore(leaves + [b], ts)
  {
  }

  lemma NothingBefore(leaves: seq<Batch>)
    ensures CutBefore(leaves, 0) ==> leaves == []
  {
    if leaves != [] { assert leaves[0].ts >= 0; }
  }

  lemma CutNone(ts: nat)
    ensures CutBefore([], ts)
  {
  }

  // ----- the empty sketch

  function NoRows(): Rows {
    seq(64, _ => [])
  }

  lemma {:induction false} NoRoots(l: nat)
    requires l <= 64
    ensures Roots(NoRows(), l, 0)
    decreases 64 - l
  {
    if l < 64 { NoRoots(l + 1); }
  }

  lemma NoNodes()
    ensures NodesOf(NoRows()) == {} && Standing(NoRows(), []) && Families(NoRows(), 65)
  {
  }

  lemma NothingLinked(third: Third, k: nat, none: seq<Node?>)
    requires |none| == 64 && forall m :: 0 <= m < 64 ==> none[m] == null
    ensures Rings(NoRows(), none) && Tops(NoRows(), none) && Sketched(third, k, [], NoRows(), 65)
  {
  }

  lemma NothingIsFine(k: nat)
    requires 0 < k
    ensures Storable(k, []) && Counting([]) && AllCounted([])
    ensures Keys([]) == Purged([]) == multiset{} && EndsAt([], 0) && |NoRows()| == 64
    ensures Keys([]) - Purged([]) == multiset{}
    ensures forall t :: EndsAt([], t)
  {
  }

  lemma NothingSized(k: nat)
    ensures Sized(NoRows(), k, 0, 0) && |NoRows()[0]| == 0
  {
  }
}
