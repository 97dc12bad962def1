/** The AVL tree of avl.h on the heap: insertion, removal and their rebalancing climbs. */
module Avl {
  import opened AvlSpec
  import opened AvlLinks
  import opened AvlRotate

  // ----- what one turn keeps

  ghost predicate SumsReady(p: Path, t: Tree, d: Debt) {
    Summed(t) && PathSummed(p, Total(t), d)
  }

  ghost predicate FixReady(p: Path, t: Tree, d: Debt) {
    Balanced(t) && PathBalanced(p, Height(t)) && SumsReady(p, t, d)
  }

  lemma RefreshStep(p: Path, t: Tree, h: int, d: Debt)
    requires p != Top && PathApart(p, t) && SumsReady(p, t, d)
    ensures InOrder(Refresh(p, t, h, d)) == InOrder(Charged(p, t, d)) == InOrder(Around(p, t))
    ensures PathApart(p.up, Refresh(p, t, h, d)) && Apart(Charged(p, t, d))
    ensures SumsReady(p.up, Refresh(p, t, h, d), d.Next(p.cell.node))
  {
    RefreshRearranges(p, t, h, d);
    PathApartUp(p, t);
    AroundInOrder(p, t);
  }

  lemma InsertStep(p: Path, t: Tree, d: Debt)
    requires p != Top && PathApart(p, t) && Grew(p, t) && SumsReady(p, t, d)
    ensures var r, d' := InsertTurn(p, t, d), d.Next(p.cell.node);
            && InOrder(r.tree) == InOrder(Around(p, t)) && PathApart(p.up, r.tree)
            && (if r.Climb? then Grew(p.up, r.tree) && SumsReady(p.up, r.tree, d') else FixReady(p.up, r.tree, d'))
  {
    hide InsertTurn, Grew, PathSummed;
    InsertTurnBalances(p, t, d);
    InsertTurnRearranges(p, t, d);
    RefreshRearranges(p, t, 0, d);
    AroundInOrder(p, t);
  }

  lemma DeleteStep(p: Path, t: Tree, d: Debt)
    requires p != Top && PathApart(p, t) && Shrank(p, t) && SumsReady(p, t, d)
    ensures var r, d' := DeleteTurn(p, t, d), d.Next(p.cell.node);
            && InOrder(r.tree) == InOrder(Around(p, t)) && PathApart(p.up, r.tree)
            && SumsReady(p.up, r.tree, d') && (if r.Climb? then Shrank(p.up, r.tree) else FixReady(p.up, r.tree, d'))
  {
    hide DeleteTurn, Shrank, PathSummed;
    DeleteTurnBalances(p, t, d);
    DeleteTurnRearranges(p, t, d);
    RefreshRearranges(p, t, 0, d);
    AroundInOrder(p, t);
  }

  /** The node at the hole of p hangs there and only there. */
  lemma HoleSide(p: Path, t: Tree)
    requires p != Top && PathApart(p, t) && t.Branch?
    ensures Root(Sibling(p)) != Root(t)
  {
    PathApartUp(p, t);
    ApartBranch(Around(p, t));
    RootIn(t);
    RootIn(Sibling(p));
  }

  /** p with the difference of its lowest node set to h, ahead of the closing loop. */
  function WithDiff(p: Path, h: int): Path
    requires p != Top
  {
    p.(cell := p.cell.(hdiff := h))
  }

  lemma SettleHere(p: Path, t: Tree, h: int, d: Debt)
    requires p != Top && PathApart(p, t) && SumsReady(p, t, d)
    ensures var p' := WithDiff(p, h);
            && FixUp(p', t, d) == FixUp(p.up, Refresh(p, t, h, d), d.Next(p.cell.node))
            && SumsReady(p', t, d) && PathApart(p', t) && PathNodes(p') == PathNodes(p)
  {
    hide InOrder, NoDuplicates, Total;
  }

  ghost predicate Sorted(s: seq<Node>) {
    forall i, j :: 0 <= i < j < |s| ==> s[i].key <= s[j].key
  }

  /** An empty place of the tree, as `_find_handle_for_insert` returns it. */
  datatype Handle = AtRoot | AtLeft(node: Node) | AtRight(node: Node)

  /** The handle names the hole of p. */
  predicate Names(h: Handle, p: Path) {
    match h
    case AtRoot => p == Top
    case AtLeft(n) => p.InLeft? && p.cell.node == n
    case AtRight(n) => p.InRight? && p.cell.node == n
  }

  class AvlTree {
    var root: Node?
    ghost var shape: Tree

    ghost predicate Valid()
      reads this, Nodes(shape)
    {
      && root == Root(shape) && Linked(shape, null)
      && Exact(shape) && Apart(shape) && Sorted(InOrder(shape))
    }

    constructor ()
      ensures Valid() && InOrder(shape) == []
    {
      root, shape := null, Leaf;
    }

    /** p is the way from the root down to the node `hole`. */
    ghost predicate At(p: Path, hole: Node?)
      reads this, PathNodes(p)
    {
      Hung(p, hole, null) && Upper(p, hole) == root
    }

    /** The position of a climb: t hangs in p, below the node it has come to. */
    ghost predicate Position(p: Path, t: Tree)
      reads this, PathNodes(p), Nodes(t)
    {
      At(p, Root(t)) && Linked(t, Parent(p, null)) && PathApart(p, t)
    }

    /** `_fix_parent`: hang newX where oldX was; says whether that is on the left. */
    method FixParent(oldX: Node, newX: Node, ghost p: Path, ghost t: Tree) returns (left: bool)
      requires At(p, oldX) && newX.parent == Parent(p, null) && PathApart(p, t) && oldX in Nodes(t)
      modifies this`root, Singleton(Parent(p, null))`left, Singleton(Parent(p, null))`right
      ensures At(p, newX) && left == (p == Top || p.InLeft?)
    {
      if newX.parent == null {
        root := newX;
        left := true;
      } else {
        PathApartUp(p, t);
        ApartBranch(Around(p, t));
        RootIn(Sibling(p));
        assert allocated(Nodes(Sibling(p))) && allocated(PathNodes(p.up));
        if oldX == newX.parent.left {
          newX.parent.left := newX;
          left := true;
        } else {
          newX.parent.right := newX;
          left := false;
        }
        assert Linked(Sibling(p), p.cell.node) && Hung(p.up, p.cell.node, null);
      }
    }

    /** Set the difference of cur and bring all its aggregates up to date. */
    method Touch(cur: Node, h: int, d: Debt, ghost p: Path, ghost t: Tree)
      requires p != Top && cur == p.cell.node && Position(p, t)
      modifies cur`hdiff, cur`sum1, cur`sum2
      ensures Linked(Refresh(p, t, h, d), Parent(p.up, null)) && At(p.up, cur)
    {
      PathApartUp(p, t);
      ApartBranch(Around(p, t));
      assert allocated(Nodes(Sibling(p))) && allocated(PathNodes(p.up)) && allocated(Nodes(t));
      cur.hdiff := h;
      cur.sum1 := NodeSum1(cur.left) + NodeSum1(cur.right) + cur.weight;
      cur.sum2 := cur.sum2 - d.Charge(cur);
      assert Linked(Sibling(p), cur) && Linked(t, cur) && Hung(p.up, cur, null);
    }

    /** Bring only the type-2 sum of cur up to date, ahead of a rotation. */
    method ChargeNode(cur: Node, d: Debt, ghost p: Path, ghost t: Tree)
      requires p != Top && cur == p.cell.node && Position(p, t)
      modifies cur`sum2
      ensures Linked(Charged(p, t, d), Parent(p.up, null)) && At(p.up, cur)
    {
      PathApartUp(p, t);
      ApartBranch(Around(p, t));
      assert allocated(Nodes(Sibling(p))) && allocated(PathNodes(p.up)) && allocated(Nodes(t));
      cur.sum2 := cur.sum2 - d.Charge(cur);
      assert Linked(Sibling(p), cur) && Linked(t, cur) && Hung(p.up, cur, null);
    }

    /** The closing loop of both climbs. */
    method FixToRoot(first: Node?, d0: Debt, ghost p0: Path, ghost t0: Tree)
      requires Position(p0, t0) && first == Parent(p0, null) && SumsReady(p0, t0, d0)
      modifies PathNodes(p0)
      ensures Linked(FixUp(p0, t0, d0), null) && root == Root(FixUp(p0, t0, d0))
    {
      var cur, d := first, d0;
      ghost var p, t := p0, t0;
      while cur != null
        invariant Position(p, t) && cur == Parent(p, null) && SumsReady(p, t, d)
        invariant FixUp(p, t, d) == FixUp(p0, t0, d0) && PathNodes(p) <= PathNodes(p0)
        decreases p
      {
        RefreshStep(p, t, cur.hdiff, d);
        PathNodesUp(p);
        Touch(cur, cur.hdiff, d, p, t);
        t, p, d := Refresh(p, t, p.cell.hdiff, d), p.up, d.Next(cur);
        cur := cur.parent;
      }
    }
  
    /** Only set the difference of cur, where a climb settles without a rotation. */
    method SetDiff(cur: Node, h: int, ghost p: Path, ghost t: Tree)
      requires p != Top && cur == p.cell.node && Position(p, t)
      modifies cur`hdiff
      ensures Position(WithDiff(p, h), t)
    {
      PathApartUp(p, t);
      ApartBranch(Around(p, t));
      assert allocated(Nodes(Sibling(p))) && allocated(PathNodes(p.up)) && allocated(Nodes(t));
      cur.hdiff := h;
      assert Linked(Sibling(p), cur) && Linked(t, cur) && Hung(p.up, cur, null);
    }

    /** One rotation at cur, whose right subtree has become too high, and the pointer from above. */
    method RotateRightHeavy(cur: Node, double: bool, d: Debt, ghost p: Path, ghost t: Tree)
      returns (top: Node, left: bool)
      requires p != Top && cur == p.cell.node && Position(p, t) && SumsReady(p, t, d)
      requires Around(p, t).right.Branch? && (double ==> Around(p, t).right.left.Branch?)
      modifies this`root, PathNodes(p), Nodes(t)
      ensures var y := if double then RotateRightLeft(Charged(p, t, d)) else RotateLeft(Charged(p, t, d));
              Position(p.up, y) && top == Root(y) && Nodes(y) == Nodes(Around(p, t))
      ensures left == (p.up == Top || p.up.InLeft?)
    {
      hide NoDuplicates, Summed, PathSummed, Total, RotateLeft, RotateRight, RotateLeftRight, RotateRightLeft;
      RefreshStep(p, t, 0, d);
      PathApartUp(p, t);
      PathNodesUp(p);
      ghost var x, up := Charged(p, t, d), Parent(p.up, null);
      assert allocated(PathNodes(p.up));
      ChargeNode(cur, d, p, t);
      RefreshRearranges(p, t, 0, d);
      if double {
        top := RotateRL(cur, x, up);
        RotateRightLeftRearranges(x);
        left := PositionAfter(cur, top, p, t, x, RotateRightLeft(x));
      } else {
        top := RotateL(cur, x, up);
        RotateLeftRearranges(x);
        left := PositionAfter(cur, top, p, t, x, RotateLeft(x));
      }
    }

    /** `_fix_parent` after a rotation that put `top` in the place of cur. */
    method PositionAfter(cur: Node, top: Node, ghost p: Path, ghost t: Tree, ghost x: Tree, ghost y: Tree)
      returns (left: bool)
      requires p != Top && PathApart(p, t) && At(p.up, cur) && Linked(y, Parent(p.up, null)) && top == Root(y)
      requires x.Branch? && x.cell.node == cur && InOrder(x) == InOrder(y) == InOrder(Around(p, t))
      modifies this`root, PathNodes(p.up)
      ensures Position(p.up, y) && left == (p.up == Top || p.up.InLeft?)
    {
      PathApartUp(p, t);
      AroundInOrder(p, t);
      assert cur in InOrder(x);
      assert allocated(Nodes(y));
      if p.up != Top { PathNodesUp(p.up); }
      left := FixParent(cur, top, p.up, y);
    }
  
    /** The mirror image of `RotateRightHeavy`. */
    method RotateLeftHeavy(cur: Node, double: bool, d: Debt, ghost p: Path, ghost t: Tree)
      returns (top: Node, left: bool)
      requires p != Top && cur == p.cell.node && Position(p, t) && SumsReady(p, t, d)
      requires Around(p, t).left.Branch? && (double ==> Around(p, t).left.right.Branch?)
      modifies this`root, PathNodes(p), Nodes(t)
      ensures var y := if double then RotateLeftRight(Charged(p, t, d)) else RotateRight(Charged(p, t, d));
              Position(p.up, y) && top == Root(y) && Nodes(y) == Nodes(Around(p, t))
      ensures left == (p.up == Top || p.up.InLeft?)
    {
      hide NoDuplicates, Summed, PathSummed, Total, RotateLeft, RotateRight, RotateLeftRight, RotateRightLeft;
      RefreshStep(p, t, 0, d);
      PathApartUp(p, t);
      PathNodesUp(p);
      ghost var x, up := Charged(p, t, d), Parent(p.up, null);
      assert allocated(PathNodes(p.up));
      ChargeNode(cur, d, p, t);
      RefreshRearranges(p, t, 0, d);
      if double {
        top := RotateLR(cur, x, up);
        RotateLeftRightRearranges(x);
        left := PositionAfter(cur, top, p, t, x, RotateLeftRight(x));
      } else {
        top := RotateR(cur, x, up);
        RotateRightRearranges(x);
        left := PositionAfter(cur, top, p, t, x, RotateRight(x));
      }
    }

    /** What the climb of an insertion has at hand at every turn. */
    ghost predicate Climbing(p: Path, t: Tree, d: Debt)
      reads this, PathNodes(p), Nodes(t)
    {
      Position(p, t) && t.Branch? && Grew(p, t) && SumsReady(p, t, d) && !d.below
    }

    /** The turn of the insertion loop that came up from the right; `done` where the source breaks. */
    method GrowFromRight(node: Node, cur: Node, d: Debt, ghost p: Path, ghost t: Tree)
      returns (next: Node, above: Node?, done: bool, turned: bool, ghost p': Path, ghost t': Tree)
      requires p.InRight? && Climbing(p, t, d) && node == Root(t) && cur == p.cell.node
      modifies this`root, PathNodes(p), Nodes(t)
      ensures Position(p', t') && SumsReady(p', t', d) && PathNodes(p') + Nodes(t') <= PathNodes(p) + Nodes(t)
      ensures above == Parent(p', null)
      ensures done ==> FixUp(p', t', d) == InsertUp(p, t, d)
      ensures !done ==> p' == p.up && Climbing(p', t', d) && InsertUp(p', t', d) == InsertUp(p, t, d)
      ensures !done ==> next == Root(t')
      ensures (turned <==> p.cell.hdiff > 0) && (turned ==> done)
    {
      hide RotateLeft, RotateRightLeft, Refresh, Charged, Grew, SumsReady, PathApart;
      InsertFacts(p, t, d);
      p', t', done, turned, next := p.up, InsertTurn(p, t, d).tree, true, false, node;
      if cur.hdiff > 0 {
        var left;
        next, left := RotateRightHeavy(cur, node.hdiff <= 0, d, p, t);
        above, turned := next.parent, true;
      } else if cur.hdiff == 0 {
        Touch(cur, 1, d, p, t);
        next, done := cur, false;
        above := next.parent;
      } else {
        SetDiff(cur, 0, p, t);
        above, p', t' := cur, WithDiff(p, 0), t;
      }
    }

    /** The turn of the insertion loop that came up from the left; `done` where the source breaks. */
    method GrowFromLeft(node: Node, cur: Node, d: Debt, ghost p: Path, ghost t: Tree)
      returns (next: Node, above: Node?, done: bool, turned: bool, ghost p': Path, ghost t': Tree)
      requires p.InLeft? && Climbing(p, t, d) && node == Root(t) && cur == p.cell.node
      modifies this`root, PathNodes(p), Nodes(t)
      ensures Position(p', t') && SumsReady(p', t', d) && PathNodes(p') + Nodes(t') <= PathNodes(p) + Nodes(t)
      ensures above == Parent(p', null)
      ensures done ==> FixUp(p', t', d) == InsertUp(p, t, d)
      ensures !done ==> p' == p.up && Climbing(p', t', d) && InsertUp(p', t', d) == InsertUp(p, t, d)
      ensures !done ==> next == Root(t')
      ensures (turned <==> p.cell.hdiff < 0) && (turned ==> done)
    {
      hide RotateRight, RotateLeftRight, Refresh, Charged, Grew, SumsReady, PathApart;
      InsertFacts(p, t, d);
      p', t', done, turned, next := p.up, InsertTurn(p, t, d).tree, true, false, node;
      if cur.hdiff < 0 {
        var left;
        next, left := RotateLeftHeavy(cur, node.hdiff > 0, d, p, t);
        above, turned := next.parent, true;
      } else if cur.hdiff == 0 {
        Touch(cur, -1, d, p, t);
        next, done := cur, false;
        above := next.parent;
      } else {
        SetDiff(cur, 0, p, t);
        above, p', t' := cur, WithDiff(p, 0), t;
      }
    }

    /** `rebalance_for_insertion_and_fix_agg`, which turns a subtree, once or twice over, at one node at most. */
    method RebalanceForInsertion(inserted: Node, ghost p0: Path) returns (turns: nat)
      requires Climbing(p0, Single(inserted), InsertDebt(inserted))
      modifies this`root, PathNodes(p0), inserted
      ensures var r := InsertUp(p0, Single(inserted), InsertDebt(inserted)); Linked(r, null) && root == Root(r)
      ensures turns <= 1
    {
      turns := 0;
      ghost var p, t := p0, Single(inserted);
      var node, d, done := inserted, InsertDebt(inserted), false;
      var cur := node.parent;
      assert InOrder(t) == [inserted];
      while cur != null && !done
        invariant Position(p, t) && SumsReady(p, t, d) && cur == Parent(p, null)
        invariant PathNodes(p) + Nodes(t) <= PathNodes(p0) + {inserted}
        invariant !done ==>
            Climbing(p, t, d) && node == Root(t) && InsertUp(p, t, d) == InsertUp(p0, Single(inserted), d)
        invariant turns <= 1 && (!done ==> turns == 0)
        invariant done ==> FixUp(p, t, d) == InsertUp(p0, Single(inserted), d)
        decreases !done, p
      {
        hide Grew, SumsReady, InsertUp, PathApart, FixUp, Linked;
        HoleSide(p, t);
        var turned;
        if node == cur.right {
          node, cur, done, turned, p, t := GrowFromRight(node, cur, d, p, t);
        } else {
          node, cur, done, turned, p, t := GrowFromLeft(node, cur, d, p, t);
        }
        if turned { turns := turns + 1; }
      }
      FixToRoot(cur, d, p, t);
    }
    /** What the climb of a removal has at hand at every turn. */
    ghost predicate Shrinking(p: Path, t: Tree, d: Debt)
      reads this, PathNodes(p), Nodes(t)
    {
      Position(p, t) && Shrank(p, t) && SumsReady(p, t, d)
    }

    /** The turn of the removal loop at cur, whose left subtree has shrunk; `done` where the source breaks. */
    method ShrinkFromLeft(cur: Node, d: Debt, ghost p: Path, ghost t: Tree)
      returns (above: Node?, left: bool, d': Debt, done: bool, ghost p': Path, ghost t': Tree)
      requires p.InLeft? && Shrinking(p, t, d) && cur == p.cell.node
      modifies this`root, PathNodes(p), Nodes(t)
      ensures Position(p', t') && SumsReady(p', t', d') && PathNodes(p') + Nodes(t') <= PathNodes(p) + Nodes(t)
      ensures above == Parent(p', null)
      ensures done ==> FixUp(p', t', d') == DeleteUp(p, t, d)
      ensures !done ==> p' == p.up && Shrinking(p', t', d') && DeleteUp(p', t', d') == DeleteUp(p, t, d)
      ensures !done && p' != Top ==> left == p'.InLeft?
    {
      hide RotateLeft, RotateRightLeft, Refresh, Charged, Shrank, SumsReady, PathApart;
      DeleteFacts(p, t, d);
      p', t', done, left, d' := p.up, DeleteTurn(p, t, d).tree, false, true, d.Next(cur);
      if cur.hdiff < 0 {
        Touch(cur, 0, d, p, t);
        above := cur.parent;
        if above != null { left := above.left == cur; }
      } else if cur.hdiff == 0 {
        SetDiff(cur, 1, p, t);
        above, done, d', p', t' := cur, true, d, WithDiff(p, 1), t;
      } else {
        var double, node := cur.right.hdiff < 0, cur;
        node, left := RotateRightHeavy(cur, double, d, p, t);
        above, done := node.parent, !double && node.hdiff != 0;
      }
    }

    /** The turn of the removal loop at cur, whose right subtree has shrunk; `done` where the source breaks. */
    method ShrinkFromRight(cur: Node, d: Debt, ghost p: Path, ghost t: Tree)
      returns (above: Node?, left: bool, d': Debt, done: bool, ghost p': Path, ghost t': Tree)
      requires p.InRight? && Shrinking(p, t, d) && cur == p.cell.node
      modifies this`root, PathNodes(p), Nodes(t)
      ensures Position(p', t') && SumsReady(p', t', d') && PathNodes(p') + Nodes(t') <= PathNodes(p) + Nodes(t)
      ensures above == Parent(p', null)
      ensures done ==> FixUp(p', t', d') == DeleteUp(p, t, d)
      ensures !done ==> p' == p.up && Shrinking(p', t', d') && DeleteUp(p', t', d') == DeleteUp(p, t, d)
      ensures !done && p' != Top ==> left == p'.InLeft?
    {
      hide RotateRight, RotateLeftRight, Refresh, Charged, Shrank, SumsReady, PathApart;
      DeleteFacts(p, t, d);
      p', t', done, left, d' := p.up, DeleteTurn(p, t, d).tree, false, true, d.Next(cur);
      if cur.hdiff > 0 {
        Touch(cur, 0, d, p, t);
        above := cur.parent;
        if above != null { left := above.left == cur; }
      } else if cur.hdiff == 0 {
        SetDiff(cur, -1, p, t);
        above, done, d', p', t' := cur, true, d, WithDiff(p, -1), t;
      } else {
        var double, node := cur.left.hdiff > 0, cur;
        node, left := RotateLeftHeavy(cur, double, d, p, t);
        above, done := node.parent, !double && node.hdiff != 0;
      }
    }

    /** `rebalance_for_deletion_and_fix_agg`, for a removal below `first` on the side `inLeft`. */
    method RebalanceForDeletion(first: Node?, inLeft: bool, d0: Debt, ghost p0: Path, ghost t0: Tree)
      requires Shrinking(p0, t0, d0) && first == Parent(p0, null) && (p0 != Top ==> inLeft == p0.InLeft?)
      modifies this`root, PathNodes(p0), Nodes(t0)
      ensures var r := DeleteUp(p0, t0, d0); Linked(r, null) && root == Root(r)
    {
      ghost var p, t := p0, t0;
      var cur, left, d, done := first, inLeft, d0, false;
      while cur != null && !done
        invariant Position(p, t) && SumsReady(p, t, d) && cur == Parent(p, null)
        invariant PathNodes(p) + Nodes(t) <= PathNodes(p0) + Nodes(t0)
        invariant !done ==>
            Shrinking(p, t, d) && (p != Top ==> left == p.InLeft?) && DeleteUp(p, t, d) == DeleteUp(p0, t0, d0)
        invariant done ==> FixUp(p, t, d) == DeleteUp(p0, t0, d0)
        decreases !done, p
      {
        hide Shrank, SumsReady, DeleteUp, PathApart, FixUp, Linked;
        if left {
          cur, left, d, done, p, t := ShrinkFromLeft(cur, d, p, t);
        } else {
          cur, left, d, done, p, t := ShrinkFromRight(cur, d, p, t);
        }
      }
      FixToRoot(cur, d, p, t);
    }

    // ----- insertion

    /** `_find_handle_for_insert`: behind every node whose key does not exceed the given one. */
    method FindHandleForInsert(key: int) returns (h: Handle, ghost p: Path)
      requires Valid()
      ensures Names(h, p) && Plug(p, Leaf) == shape
      ensures forall n <- Before(p) :: n.key <= key
      ensures forall n <- After(p) :: key < n.key
    {
      if root == null { return AtRoot, Top; }
      ghost var t := shape;
      var cur := root;
      p := Top;
      while true
        invariant Plug(p, t) == shape && t.Branch? && cur == Root(t) && Linked(shape, null)
        invariant forall n <- Before(p) :: n.key <= key
        invariant forall n <- After(p) :: key < n.key
        decreases t
      {
        Open(p, t, null);
        SortedAt(p, t);
        if key < cur.key {
          p, t := InLeft(p, t.cell, t.right), t.left;
          if cur.left == null { return AtLeft(cur), p; }
          cur := cur.left;
        } else {
          p, t := InRight(p, t.left, t.cell), t.right;
          if cur.right == null { return AtRight(cur), p; }
          cur := cur.right;
        }
      }
    }

    /** `_insert_at`: a node with no type-2 sum of its own yet goes exactly where the handle says. */
    method InsertAt(h: Handle, node: Node, ghost p: Path) returns (turns: nat)
      requires Valid() && Names(h, p) && Plug(p, Leaf) == shape
      requires node !in InOrder(shape) && node.sum2 == 0
      requires forall n <- Before(p) :: n.key <= node.key
      requires forall n <- After(p) :: node.key <= n.key
      modifies this, node, Nodes(shape)
      ensures Valid()
      ensures old(InOrder(shape)) == Before(p) + After(p)
      ensures InOrder(shape) == Before(p) + [node] + After(p)
      ensures turns <= 1
    {
      hide InsertUp, Grew, SumsReady, Balanced, Summed, PathBalanced, NoDuplicates, Sorted, InOrder, Before, After,
          Plug;
      InsertIsExact(p, node);
      PlaceOpen(p, node);
      Open(p, Leaf, null);
      Attach(h, node, p);
      turns := RebalanceForInsertion(node, p);
      ghost var r := Insert(p, node);
      InsertKeepsOrder(p, node);
      assert allocated(Nodes(r));
      shape := r;
    }

    /** The pointer and field assignments that open `_insert_at`. */
    method Attach(h: Handle, node: Node, ghost p: Path)
      requires Names(h, p) && At(p, null) && PathApart(p, Single(node)) && node.sum2 == 0
      modifies this`root, Singleton(Parent(p, null))`left, Singleton(Parent(p, null))`right
      modifies node`left, node`right, node`parent, node`hdiff, node`sum1, node`sum2
      ensures Position(p, Single(node))
    {
      hide PathApart, Apart, NoDuplicates, InOrder, Before, After;
      SingleApart(p, node);
      if p != Top {
        AsideFrom(p);
        assert allocated(Nodes(Sibling(p))) && allocated(PathNodes(p.up));
      }
      var cur: Node?;
      match h {
        case AtLeft(n) => cur := n; cur.left := node;
        case AtRoot => root := node; cur := null;
        case AtRight(n) => cur := n; cur.right := node;
      }
      node.parent := cur;
      node.left, node.right := null, null;
      node.hdiff := 0;
      node.sum1 := node.weight;
      node.sum2 := node.sum2 + node.weight;
      if p != Top { assert Linked(Sibling(p), p.cell.node) && Hung(p.up, p.cell.node, null); }
      assert Hung(p, node, null) && Upper(p, node) == root;
      assert Linked(Single(node), Parent(p, null));
    }

    // ----- removal

    /** `_left_most`. */
    method LeftMost(n: Node, ghost t: Tree, ghost up: Node?) returns (m: Node)
      requires Linked(t, up) && Root(t) == n
      ensures m == Descend(Top, t).1.cell.node
    {
      m := n;
      ghost var p, s, above := Top, t, up;
      while m.left != null
        invariant s.Branch? && m == Root(s) && Linked(s, above) && Descend(p, s) == Descend(Top, t)
        decreases s
      {
        above, m := m, m.left;
        p, s := InLeft(p, s.cell, s.right), s.left;
      }
    }

    /** Hang the only child of node, or nothing, in its place; says on which side that shrank a subtree. */
    method Bypass(node: Node, ghost p: Path, ghost t: Tree) returns (above: Node?, left: bool)
      requires Position(p, t) && Root(t) == node && (node.left == null || node.right == null)
      modifies this`root, Singleton(Parent(p, null))`left, Singleton(Parent(p, null))`right
      modifies Singleton(Root(OnlyChild(t)))`parent
      ensures Position(p, OnlyChild(t)) && above == Parent(p, null) && (p != Top ==> left == p.InLeft?)
    {
      ghost var s := OnlyChild(t);
      ChildApart(p, t);
      if p != Top {
        PathApartUp(p, t);
        ApartBranch(Around(p, t));
      }
      ApartBranch(t);
      RootIn(s);
      assert allocated(PathNodes(p)) && allocated(Nodes(s));
      var child := if node.left != null then node.left else node.right;
      above, left := node.parent, true;
      if child != null {
        SetParent(child, node.parent, s, node);
        assert At(p, node);
        left := FixParent(node, child, p, t);
        assert Linked(s, Parent(p, null));
      } else if node.parent == null {
        root := null;
      } else {
        left := Cut(node, p, t);
      }
    }

    /** The leaf shape: clear the pointer that leads to node. */
    method Cut(node: Node, ghost p: Path, ghost t: Tree) returns (left: bool)
      requires p != Top && At(p, node) && node.parent == Parent(p, null) && PathApart(p, t) && node in Nodes(t)
      modifies Singleton(Parent(p, null))`left, Singleton(Parent(p, null))`right
      ensures At(p, null) && left == p.InLeft?
    {
      PathApartUp(p, t);
      ApartBranch(Around(p, t));
      RootIn(Sibling(p));
      assert allocated(Nodes(Sibling(p))) && allocated(PathNodes(p.up));
      if node.parent.left == node {
        node.parent.left := null;
        left := true;
      } else {
        node.parent.right := null;
        left := false;
      }
      assert Linked(Sibling(p), p.cell.node) && Hung(p.up, p.cell.node, null);
    }

    /**
     Take the successor m of node out of the right subtree and put m on top of what is left
     of it. The source does these assignments after those of `TakeOver`; they do not meet.
     */
    method Extract(node: Node, m: Node, ghost t: Tree, ghost up: Node?) returns (above: Node)
      requires Linked(t, up) && Root(t) == node && t.right.Branch? && Apart(t)
      requires m == Descend(Top, t.right).1.cell.node
      modifies Nodes(t.right)
      ensures var q, b := Descend(Top, t.right).0, Descend(Top, t.right).1;
              && Linked(Plug(q, b.right), m) && m.right == Root(Plug(q, b.right))
              && above == Parent(q, m) && (above == m <==> q == Top)
      ensures m.sum1 == old(m.sum1)
    {
      ghost var q, b := Descend(Top, t.right).0, Descend(Top, t.right).1;
      ApartBranch(t);
      SuccessorOrder(t);
      Open(q, b, node);
      above := m;
      if m.parent != node {
        var lp, mr := m.parent, m.right;
        assert q != Top by { assert old(Linked(t.right, node)); }
        RootIn(b.right);
        NodesBranch(b);
        PathNodesUp(q);
        Detach(m, lp, q, b, node);
        above := lp;
        var right := node.right;
        SetParent(right, m, Plug(q, b.right), node);
        m.right := right;
      } else {
        assert q == Top by { if q != Top { PathNodesUp(q); } }
      }
    }

    method Detach(m: Node, lp: Node, ghost q: Path, ghost b: Tree, ghost above: Node?)
      requires q.InLeft? && Hung(q, m, above) && Linked(b, lp) && lp == q.cell.node && Root(b) == m
      requires PathApart(q, b)
      modifies lp`left, Singleton(m.right)`parent
      ensures Linked(Plug(q, b.right), above) && Root(Plug(q, b.right)) == Upper(q, m)
    {
      PathApartUp(q, b);
      ApartBranch(Around(q, b));
      ApartBranch(b);
      RootIn(b.right);
      assert allocated(Nodes(Sibling(q))) && allocated(PathNodes(q.up)) && allocated(Nodes(b.right));
      lp.left := m.right;
      SetParent(m.right, lp, b.right, m);
      assert Linked(Sibling(q), lp) && Hung(q.up, lp, above);
      Close(q, b.right, above);
    }

    /** The fields m takes over from node: parent, left child, difference and type-2 sum. */
    method Dress(node: Node, m: Node, ghost t: Tree, ghost up: Node?, ghost c: Cell, ghost r: Tree)
      requires t.Branch? && t.cell.node == node && Apart(t)
      requires Holds(t.cell, Root(t.left), node.right, up) && Linked(t.left, node)
      requires c.node == m && m.sum1 == c.sum1 && Linked(r, m) && m.right == Root(r)
      requires m != node && m !in Nodes(t.left) && m !in Nodes(r) && Nodes(r) <= Nodes(t.right)
      modifies m, Singleton(Root(t.left))`parent
      ensures Linked(Branch(t.left, Cell(m, t.cell.hdiff, c.sum1, t.cell.sum2), r), up) && m.parent == up
    {
      ApartBranch(t);
      RootIn(t.left);
      assert allocated(Nodes(t.left)) && allocated(Nodes(r));
      m.parent := node.parent;
      m.left := node.left;
      SetParent(m.left, m, t.left, node);
      m.hdiff := node.hdiff;
      m.sum2 := node.sum2;
      assert Linked(t.left, m) && Linked(r, m);
    }

    /** The assignments of the two-child shapes that put m in the place of node. */
    method TakeOver(node: Node, m: Node, ghost p: Path, ghost t: Tree, ghost c: Cell, ghost r: Tree)
      requires PathApart(p, t) && At(p, node) && t.Branch? && t.cell.node == node
      requires Holds(t.cell, Root(t.left), node.right, Parent(p, null)) && Linked(t.left, node)
      requires c.node == m && m.sum1 == c.sum1 && Linked(r, m) && m.right == Root(r)
      requires m in Nodes(t) && m != node && m !in Nodes(t.left) && m !in Nodes(r) && Nodes(r) <= Nodes(t.right)
      modifies this`root, PathNodes(p), m, Singleton(Root(t.left))`parent
      ensures At(p, m) && Linked(Branch(t.left, Cell(m, t.cell.hdiff, c.sum1, t.cell.sum2), r), Parent(p, null))
    {
      ghost var x := Branch(t.left, Cell(m, t.cell.hdiff, c.sum1, t.cell.sum2), r);
      TakeOverFacts(m, p, t, r, x);
      assert allocated(PathNodes(p)) && allocated(Nodes(x));
      hide *;
      Dress(node, m, t, Parent(p, null), c, r);
      var _ := FixParent(node, m, p, t);
    }

    /** The two-child shapes of `_remove`: the successor of node replaces it. */
    method Supplant(node: Node, ghost p: Path, ghost t: Tree) returns (m: Node, above: Node)
      requires Position(p, t) && Root(t) == node && t.left.Branch? && t.right.Branch?
      modifies this`root, PathNodes(p), Nodes(t)
      ensures var s := Unlink(p, t);
              && Position(s.path, s.hole) && above == Parent(s.path, null) && m == s.debt.turn
                && (above == m <==> !s.debt.below)
              && PathNodes(s.path) + Nodes(s.hole) <= PathNodes(p) + Nodes(t) && s.path != Top
                && s.path.InLeft? == (above != m)
    {
      ghost var q, b := Descend(Top, t.right).0, Descend(Top, t.right).1;
      ghost var r, x := Plug(q, b.right), Supplanted(t);
      ChildApart(p, t);
      ApartBranch(t);
      SuccessorOrder(t);
      SupplantedApart(p, t);
      RootIn(t.left);
      assert allocated(PathNodes(p)) && allocated(Nodes(t.left)) && allocated(Nodes(t.right));
      m := LeftMost(node.right, t.right, node);
      SuccessorCell(t.right, node);
      above := Extract(node, m, t, node.parent);
      TakeOver(node, m, p, t, b.cell, r);
      Deepen(p, t.left, x.cell, q, b.right);
    }

    /** Follow a path q that hangs on the right of c down to its hole. */
    lemma Deepen(p: Path, l: Tree, c: Cell, q: Path, s: Tree)
      requires Position(p, Branch(l, c, Plug(q, s)))
      ensures Position(Join(q, InRight(p, l, c)), s)
      ensures PathNodes(Join(q, InRight(p, l, c))) + Nodes(s) == PathNodes(p) + Nodes(Branch(l, c, Plug(q, s)))
    {
      hide InOrder, Before, After, NoDuplicates;
      var base := InRight(p, l, c);
      Open(q, s, c.node);
      JoinHung(q, base, Root(s));
      DeepenOrder(p, l, c, q, s);
    }

    static lemma DeepenOrder(p: Path, l: Tree, c: Cell, q: Path, s: Tree)
      ensures PathApart(p, Branch(l, c, Plug(q, s))) <==> PathApart(Join(q, InRight(p, l, c)), s)
      ensures PathNodes(Join(q, InRight(p, l, c))) + Nodes(s) == PathNodes(p) + Nodes(Branch(l, c, Plug(q, s)))
    {
      hide InOrder, NoDuplicates;
      var base, j, x := InRight(p, l, c), Join(q, InRight(p, l, c)), Branch(l, c, Plug(q, s));
      JoinOrder(q, base);
      PlugInOrder(q, s);
      AroundInOrder(base, Plug(q, s));
      Regroup2(Before(base), Before(q), InOrder(s), After(q), After(base));
      SameElements(Before(j), InOrder(s), After(j), Before(p), InOrder(x), After(p));
    }

    static lemma SameElements(a: seq<Node>, b: seq<Node>, c: seq<Node>, a': seq<Node>, b': seq<Node>, c': seq<Node>)
      requires a + b + c == a' + b' + c'
      ensures (set n | n in a + c) + (set n | n in b) == (set n | n in a' + c') + (set n | n in b')
    {
      var s, s' := a + b + c, a' + b' + c';
      assert forall n :: n in s <==> n in a || n in b || n in c;
      assert forall n :: n in s' <==> n in a' || n in b' || n in c';
    }

    /** The five shapes of `_remove`, up to the start of the climb. */
    method Detached(node: Node, ghost p: Path, ghost t: Tree) returns (above: Node?, left: bool, d: Debt)
      requires Position(p, t) && Root(t) == node
      modifies this`root, PathNodes(p), Nodes(t)
      ensures var s := Unlink(p, t);
              && Position(s.path, s.hole) && above == Parent(s.path, null) && d == s.debt
              && PathNodes(s.path) + Nodes(s.hole) <= PathNodes(p) + Nodes(t)
              && (s.path != Top ==> left == s.path.InLeft?)
    {
      if node.left != null && node.right != null {
        var m;
        m, above := Supplant(node, p, t);
        left, d := above != m, Debt(above != m, m, m.weight, node.weight);
      } else {
        ghost var s := OnlyChild(t);
        NodesBranch(t);
        RootIn(s);
        if p != Top { PathNodesUp(p); }
        above, left := Bypass(node, p, t);
        d := Debt(false, null, 0, node.weight);
      }
    }

    /** Erase a node of the tree: `_remove`. */
    method Remove(node: Node)
      requires Valid() && node in InOrder(shape)
      modifies this, Nodes(shape)
      ensures Valid()
      ensures forall i :: 0 <= i < |old(InOrder(shape))| && old(InOrder(shape))[i] == node ==>
                InOrder(shape) == old(InOrder(shape))[..i] + old(InOrder(shape))[i + 1..]
    {
      hide Unlink, Erase, Shrank, SumsReady, Exact, Apart, Sorted, DeleteUp, Linked, Hung, Upper, PathApart,
          NoDuplicates;
      ghost var p, t := Locate(Top, shape, node).0, Locate(Top, shape, node).1;
      RemoveFacts(shape, p, t);
      Open(p, t, null);
      ghost var s := Unlink(p, t);
      var above, left, d := Detached(node, p, t);
      RebalanceForDeletion(above, left, d, s.path, s.hole);
      ghost var r := Erase(p, t);
      assert allocated(Nodes(r));
      shape := r;
    }
  }

  lemma RemoveFacts(shape: Tree, p: Path, t: Tree)
    requires Exact(shape) && Apart(shape) && Sorted(InOrder(shape)) && shape == Plug(p, t) && t.Branch?
    ensures PathApart(p, t) && PathNodes(p) + Nodes(t) == Nodes(shape)
    ensures var s := Unlink(p, t);
            Shrank(s.path, s.hole) && SumsReady(s.path, s.hole, s.debt)
              && Erase(p, t) == DeleteUp(s.path, s.hole, s.debt)
    ensures var r := Erase(p, t);
            && Exact(r) && Apart(r) && Sorted(InOrder(r))
            && forall i :: 0 <= i < |InOrder(shape)| && InOrder(shape)[i] == t.cell.node ==>
                 InOrder(r) == InOrder(shape)[..i] + InOrder(shape)[i + 1..]
  {
    hide Unlink, Shrank, DeleteUp, PathSummed, Balanced, Summed, Plug, NoDuplicates, Sorted, Before, After;
    PlugInOrder(p, t);
    UnlinkShrank(p, t);
    MiddleHasNoDuplicates(Before(p), InOrder(t), After(p));
    UnlinkSummed(p, t);
    EraseIsExact(p, t);
    WithoutMiddle(Before(p), InOrder(t.left), t.cell.node, InOrder(t.right), After(p));
  }

  lemma WithoutMiddle(b: seq<Node>, l: seq<Node>, n: Node, r: seq<Node>, a: seq<Node>)
    requires NoDuplicates(b + (l + [n] + r) + a) && Sorted(b + (l + [n] + r) + a)
    ensures NoDuplicates(b + (l + r) + a) && Sorted(b + (l + r) + a)
    ensures var s := b + (l + [n] + r) + a;
            forall i :: 0 <= i < |s| && s[i] == n ==> b + (l + r) + a == s[..i] + s[i + 1..]
  {
    assert b + (l + [n] + r) + a == (b + l) + [n] + (r + a);
    assert b + (l + r) + a == (b + l) + (r + a);
    Without(b + l, n, r + a);
  }

  lemma Without(b: seq<Node>, n: Node, a: seq<Node>)
    requires NoDuplicates(b + [n] + a) && Sorted(b + [n] + a)
    ensures NoDuplicates(b + a) && Sorted(b + a)
    ensures var s := b + [n] + a; forall i :: 0 <= i < |s| && s[i] == n ==> b + a == s[..i] + s[i + 1..]
  {
    var s, r := b + [n] + a, b + a;
    JoinApart(b, [n], a);
    assert s[|b|] == n;
    forall i, j | 0 <= i < j < |r| ensures r[i].key <= r[j].key {
      var i', j' := if i < |b| then i else i + 1, if j < |b| then j else j + 1;
      assert s[i'] == r[i] && s[j'] == r[j];
    }
  }

  lemma TakeOverFacts(m: Node, p: Path, t: Tree, r: Tree, x: Tree)
    requires PathApart(p, t) && t.Branch? && m in Nodes(t) && Nodes(r) <= Nodes(t.right)
    requires x.Branch? && x.left == t.left && x.right == r && x.cell.node == m
    ensures Apart(t) && t.cell.node in Nodes(t)
    ensures m !in PathNodes(p) && Singleton(Root(t.left)) !! PathNodes(p)
    ensures Singleton(Parent(p, null)) <= PathNodes(p) && PathNodes(p) !! Nodes(x)
  {
    ChildApart(p, t);
    ApartBranch(t);
    RootIn(t.left);
    NodesBranch(x);
    if p != Top { PathNodesUp(p); }
  }

  /** The tree at t once its successor has replaced its root node. */
  function Supplanted(t: Tree): Tree
    requires t.Branch? && t.right.Branch?
  {
    var (q, b) := Descend(Top, t.right);
    Branch(t.left, Cell(b.cell.node, t.cell.hdiff, b.cell.sum1, t.cell.sum2), Plug(q, b.right))
  }

  lemma SupplantedApart(p: Path, t: Tree)
    requires PathApart(p, t) && t.Branch? && t.right.Branch?
    ensures PathApart(p, Supplanted(t)) && Nodes(Supplanted(t)) <= Nodes(t)
  {
    ChildApart(p, t);
    SuccessorOrder(t);
    assert InOrder(Supplanted(t)) == InOrder(t.left) + InOrder(t.right);
    hide Descend, Plug, NoDuplicates, Supplanted, Before, After;
    DropMiddle(Before(p), InOrder(t.left), [t.cell.node], InOrder(t.right), After(p));
  }

  lemma DropMiddle(b: seq<Node>, l: seq<Node>, n: seq<Node>, r: seq<Node>, a: seq<Node>)
    requires NoDuplicates(b + (l + n + r) + a)
    ensures NoDuplicates(b + (l + r) + a)
  {
    assert b + (l + n + r) + a == (b + l) + n + (r + a);
    JoinApart(b + l, n, r + a);
    assert b + (l + r) + a == (b + l) + (r + a);
  }

  lemma SuccessorCell(t: Tree, up: Node?)
    requires Linked(t, up) && t.Branch?
    ensures Descend(Top, t).1.cell.node.sum1 == Descend(Top, t).1.cell.sum1
  {
    Open(Descend(Top, t).0, Descend(Top, t).1, up);
  }

  lemma {:induction false} JoinHung(q: Path, base: Path, hole: Node?)
    requires base != Top && Hung(q, hole, base.cell.node) && Hung(base, Upper(q, hole), null)
    ensures Hung(Join(q, base), hole, null) && Upper(Join(q, base), hole) == Upper(base, Upper(q, hole))
  {
    if q != Top { JoinHung(q.up, base, q.cell.node); }
  }

  lemma Regroup2(a: seq<Node>, b: seq<Node>, c: seq<Node>, d: seq<Node>, e: seq<Node>)
    ensures (a + b) + c + (d + e) == a + (b + c + d) + e
  {
  }

  /** Where node sits in t, which hangs in p. */
  ghost function Locate(p: Path, t: Tree, node: Node): (r: (Path, Tree))
    requires node in InOrder(t)
    ensures Plug(r.0, r.1) == Plug(p, t) && r.1.Branch? && r.1.cell.node == node
    decreases t
  {
    if t.cell.node == node then (p, t)
    else if node in InOrder(t.left) then Locate(InLeft(p, t.cell, t.right), t.left, node)
    else Locate(InRight(p, t.left, t.cell), t.right, node)
  }

  /** The leftmost node of the right subtree comes first in it. */
  lemma SuccessorOrder(t: Tree)
    requires t.Branch? && t.right.Branch? && Apart(t)
    ensures var q, b := Descend(Top, t.right).0, Descend(Top, t.right).1;
            var r := Plug(q, b.right);
            && InOrder(t.right) == [b.cell.node] + InOrder(r) && Plug(q, b) == t.right
            && Nodes(t.right) == {b.cell.node} + Nodes(r) && b.cell.node !in Nodes(r)
            && Apart(r) && PathApart(q, b) && b.cell.node !in PathNodes(q)
            && Nodes(b) <= Nodes(t.right) && PathNodes(q) <= Nodes(t.right)
            && (q == Top || q.InLeft?)
  {
    hide *;
    var q, b := Descend(Top, t.right).0, Descend(Top, t.right).1;
    ApartBranch(t);
    DescendsLeft(Top, t.right);
    DescentIs(t.right, q, b);
    DescentOrder(t.right, q, b);
    DescentApart(t.right, q, b);
  }

  lemma DescentIs(t: Tree, q: Path, b: Tree)
    requires t.Branch? && (q, b) == Descend(Top, t)
    ensures b.Branch? && Plug(q, b) == t && Before(q) == [] && b.left == Leaf
  {
    hide Descend;
  }

  lemma DescentOrder(t: Tree, q: Path, b: Tree)
    requires b.Branch? && Plug(q, b) == t && Before(q) == [] && b.left == Leaf
    ensures InOrder(t) == [b.cell.node] + InOrder(Plug(q, b.right))
    ensures InOrder(t) == [] + ([b.cell.node] + InOrder(b.right)) + After(q)
  {
    hide *;
    PlugInOrder(q, b);
    PlugInOrder(q, b.right);
    LeftmostInOrder(b);
    HeadFirst([b.cell.node], InOrder(b.right), After(q));
  }

  lemma LeftmostInOrder(b: Tree)
    requires b.Branch? && b.left == Leaf
    ensures InOrder(b) == [b.cell.node] + InOrder(b.right)
  {
    assert InOrder(b.left) == [];
  }

  lemma HeadFirst(x: seq<Node>, b: seq<Node>, a: seq<Node>)
    ensures [] + (x + b) + a == x + ([] + b + a)
  {
  }

  lemma DescentApart(t: Tree, q: Path, b: Tree)
    requires b.Branch? && Before(q) == [] && b.left == Leaf && Apart(t)
    requires InOrder(t) == [b.cell.node] + InOrder(Plug(q, b.right))
    requires InOrder(t) == [] + ([b.cell.node] + InOrder(b.right)) + After(q)
    ensures Nodes(t) == {b.cell.node} + Nodes(Plug(q, b.right)) && b.cell.node !in Nodes(Plug(q, b.right))
    ensures Apart(Plug(q, b.right)) && PathApart(q, b) && b.cell.node !in PathNodes(q)
    ensures Nodes(b) <= Nodes(t) && PathNodes(q) <= Nodes(t)
  {
    hide Plug, After, Before, NoDuplicates;
    var m, r := b.cell.node, Plug(q, b.right);
    assert InOrder(b) == [m] + InOrder(b.right);
    SplitDuplicates([m], InOrder(r));
    assert m in [m];
    SplitDuplicates([] + ([m] + InOrder(b.right)), After(q));
    assert m in [] + ([m] + InOrder(b.right));
  }

  lemma {:induction false} DescendsLeft(p: Path, t: Tree)
    requires t.Branch?
    ensures Descend(p, t).0 == p || Descend(p, t).0.InLeft?
    decreases t
  {
    if t.left.Branch? { DescendsLeft(InLeft(p, t.cell, t.right), t.left); }
  }

  lemma ChildApart(p: Path, t: Tree)
    requires t.Branch? && PathApart(p, t)
    ensures PathApart(p, t.left) && PathApart(p, t.right) && PathApart(p, Leaf) && Apart(t)
    ensures PathNodes(p) !! Nodes(t)
  {
    BranchInOrder(t);
    hide InOrder, Before, After, NoDuplicates;
    MiddleApart(Before(p), InOrder(t.left), [t.cell.node], InOrder(t.right), After(p));
    LeafApart(Before(p), InOrder(t), After(p));
    assert InOrder(Leaf) == [] by { LeafInOrder(); }
    assert forall m <- PathNodes(p) :: m in Before(p) + After(p);
  }

  lemma BranchInOrder(t: Tree)
    requires t.Branch?
    ensures InOrder(t) == InOrder(t.left) + [t.cell.node] + InOrder(t.right)
  {
  }

  lemma LeafInOrder()
    ensures InOrder(Leaf) == []
  {
  }

  lemma MiddleApart(b: seq<Node>, l: seq<Node>, n: seq<Node>, r: seq<Node>, a: seq<Node>)
    requires NoDuplicates(b + (l + n + r) + a)
    ensures NoDuplicates(b + l + a) && NoDuplicates(b + r + a)
  {
    assert b + (l + n + r) + a == (b + l) + (n + r) + a;
    JoinApart(b + l, n + r, a);
    assert b + (l + n + r) + a == b + (l + n) + (r + a);
    JoinApart(b, l + n, r + a);
    assert b + (r + a) == b + r + a;
  }

  lemma LeafApart(b: seq<Node>, m: seq<Node>, a: seq<Node>)
    requires NoDuplicates(b + m + a)
    ensures NoDuplicates(b + [] + a) && NoDuplicates(m)
    ensures forall n :: n in m ==> n !in b + a
  {
    SplitDuplicates(b + m, a);
    SplitDuplicates(b, m);
    assert forall n :: n in m ==> n in b + m;
    JoinApart(b, m, a);
    assert b + [] + a == b + a;
  }

  lemma AsideFrom(p: Path)
    requires p != Top && PathApart(p, Leaf)
    ensures p.cell.node !in Nodes(Sibling(p)) && p.cell.node !in PathNodes(p.up)
  {
    PathApartUp(p, Leaf);
    ApartBranch(Around(p, Leaf));
  }

  lemma SingleApart(p: Path, node: Node)
    requires PathApart(p, Single(node))
    ensures PathApart(p, Leaf) && node !in PathNodes(p)
    ensures p != Top ==> node !in Nodes(Sibling(p)) && node != p.cell.node && node !in PathNodes(p.up)
  {
    assert InOrder(Single(node)) == [node];
    var b, a := Before(p), After(p);
    SplitDuplicates(b + [node], a);
    SplitDuplicates(b, [node]);
    assert node in b + [node];
    JoinApart(b, [node], a);
    assert b + [] + a == b + a;
    if p != Top { PathNodesUp(p); }
  }

  lemma JoinApart(b: seq<Node>, m: seq<Node>, a: seq<Node>)
    requires NoDuplicates(b + m + a)
    ensures NoDuplicates(b + a)
  {
    var s, r := b + m + a, b + a;
    forall i, j | 0 <= i < j < |r| ensures r[i] != r[j] {
      var i', j' := if i < |b| then i else i + |m|, if j < |b| then j else j + |m|;
      assert s[i'] == r[i] && s[j'] == r[j];
    }
  }

  lemma PlaceOpen(p: Path, node: Node)
    requires Exact(Plug(p, Leaf)) && Apart(Plug(p, Leaf)) && node !in InOrder(Plug(p, Leaf))
    ensures Grew(p, Single(node)) && SumsReady(p, Single(node), InsertDebt(node)) && PathApart(p, Single(node))
    ensures PathNodes(p) == Nodes(Plug(p, Leaf)) && InOrder(Plug(p, Leaf)) == Before(p) + After(p)
    ensures Singleton(Parent(p, null)) <= PathNodes(p)
  {
    if p != Top { PathNodesUp(p); }
    PlugExact(p, Leaf);
    SingleGrew(p, node);
    PathShift(p, 0, node.weight, InsertDebt(node));
    PlugInOrder(p, Leaf);
    var b, a := Before(p), After(p);
    assert b + [] + a == b + a;
    InsertApart(b, node, a);
    assert InOrder(Single(node)) == [node];
  }

  lemma InsertApart(b: seq<Node>, n: Node, a: seq<Node>)
    requires NoDuplicates(b + a) && n !in b + a
    ensures NoDuplicates(b + [n] + a)
  {
    var s, r := b + a, b + [n] + a;
    forall i, j | 0 <= i < j < |r| ensures r[i] != r[j] {
      if i != |b| && j != |b| {
        var i', j' := if i < |b| then i else i - 1, if j < |b| then j else j - 1;
        assert r[i] == s[i'] && r[j] == s[j'];
      } else {
        var k := if i != |b| then i else j;
        assert r[k] == s[if k < |b| then k else k - 1];
      }
    }
  }

  lemma InsertKeepsOrder(p: Path, node: Node)
    requires Exact(Plug(p, Leaf)) && Sorted(InOrder(Plug(p, Leaf))) && Apart(Plug(p, Leaf))
        && node !in InOrder(Plug(p, Leaf))
    requires forall n <- Before(p) :: n.key <= node.key
    requires forall n <- After(p) :: node.key <= n.key
    ensures PathBalanced(p, 0) && Sorted(InOrder(Insert(p, node))) && Apart(Insert(p, node))
  {
    hide *;
    InsertIsExact(p, node);
    PlugInOrder(p, Leaf);
    var b, a := Before(p), After(p);
    NothingBetween(b, a);
    ApartIs(Plug(p, Leaf), Insert(p, node));
    InsertApart(b, node, a);
    InsertSorted(b, node, a);
  }

  lemma NothingBetween(b: seq<Node>, a: seq<Node>)
    ensures b + InOrder(Leaf) + a == b + a
  {
  }

  lemma ApartIs(t: Tree, r: Tree)
    ensures Apart(t) <==> NoDuplicates(InOrder(t))
    ensures Apart(r) <==> NoDuplicates(InOrder(r))
  {
  }

  lemma InsertSorted(b: seq<Node>, node: Node, a: seq<Node>)
    requires Sorted(b + a) && (forall n <- b :: n.key <= node.key) && (forall n <- a :: node.key <= n.key)
    ensures Sorted(b + [node] + a)
  {
    var s, r := b + a, b + [node] + a;
    forall i, j | 0 <= i < j < |r| ensures r[i].key <= r[j].key {
      if i != |b| && j != |b| {
        var i', j' := if i < |b| then i else i - 1, if j < |b| then j else j - 1;
        assert r[i] == s[i'] && r[j] == s[j'];
      }
    }
  }

  lemma SortedAt(p: Path, t: Tree)
    requires Sorted(InOrder(Plug(p, t))) && t.Branch?
    ensures forall n <- InOrder(t.left) :: n.key <= t.cell.node.key
    ensures forall n <- InOrder(t.right) :: t.cell.node.key <= n.key
  {
    PlugInOrder(p, t);
    var s, k := Before(p) + InOrder(t) + After(p), |Before(p)| + |InOrder(t.left)|;
    assert s[k] == t.cell.node;
    forall n | n in InOrder(t.left) ensures n.key <= t.cell.node.key {
      var i :| 0 <= i < |InOrder(t.left)| && InOrder(t.left)[i] == n;
      assert s[|Before(p)| + i] == n;
    }
    forall n | n in InOrder(t.right) ensures t.cell.node.key <= n.key {
      var i :| 0 <= i < |InOrder(t.right)| && InOrder(t.right)[i] == n;
      assert s[k + 1 + i] == n;
    }
  }

  /** What a turn of the removal climb relies on. */
  lemma DeleteFacts(p: Path, t: Tree, d: Debt)
    requires p != Top && PathApart(p, t) && Shrank(p, t) && SumsReady(p, t, d)
    ensures var r, d' := DeleteTurn(p, t, d), d.Next(p.cell.node);
            && (if r.Climb? then Shrank(p.up, r.tree) && DeleteUp(p, t, d) == DeleteUp(p.up, r.tree, d')
                else DeleteUp(p, t, d) == FixUp(p.up, r.tree, d'))
            && InOrder(r.tree) == InOrder(Around(p, t)) && PathApart(p.up, r.tree) && SumsReady(p.up, r.tree, d')
            && r.tree.Branch?
            && PathNodes(p.up) + Nodes(r.tree) == PathNodes(p) + Nodes(t)
            && (p.up != Top && Root(r.tree) == p.cell.node ==> Root(Sibling(p.up)) != p.cell.node)
    ensures var h := if p.InLeft? then 1 else -1;
            var p' := WithDiff(p, h);
            && FixUp(p', t, d) == FixUp(p.up, Refresh(p, t, h, d), d.Next(p.cell.node))
            && SumsReady(p', t, d) && PathApart(p', t) && PathNodes(p') == PathNodes(p)
    ensures (p.InLeft? && p.cell.hdiff < 0) || (p.InRight? && p.cell.hdiff > 0) ==>
        Root(DeleteTurn(p, t, d).tree) == p.cell.node
    ensures p.InLeft? && p.cell.hdiff > 0 ==> p.right.Branch? && (p.right.cell.hdiff < 0 ==> p.right.left.Branch?)
    ensures p.InRight? && p.cell.hdiff < 0 ==> p.left.Branch? && (p.left.cell.hdiff > 0 ==> p.left.right.Branch?)
  {
    hide *;
    var r := DeleteTurn(p, t, d);
    DeleteStep(p, t, d);
    DeleteUpTurns(p, t, d);
    DeleteTurnShape(p, t, d);
    DeleteTurnNodes(p, t, r.tree);
    SettleHere(p, t, if p.InLeft? then 1 else -1, d);
  }

  lemma DeleteUpTurns(p: Path, t: Tree, d: Debt)
    requires p != Top && Shrank(p, t)
    ensures var r, d' := DeleteTurn(p, t, d), d.Next(p.cell.node);
            && r.tree.Branch?
            && (if r.Climb? then Shrank(p.up, r.tree) && DeleteUp(p, t, d) == DeleteUp(p.up, r.tree, d')
                else DeleteUp(p, t, d) == FixUp(p.up, r.tree, d'))
  {
    DeleteTurnBalances(p, t, d);
  }

  lemma DeleteTurnShape(p: Path, t: Tree, d: Debt)
    requires p != Top && Shrank(p, t)
    ensures (p.InLeft? && p.cell.hdiff < 0) || (p.InRight? && p.cell.hdiff > 0) ==>
        Root(DeleteTurn(p, t, d).tree) == p.cell.node
    ensures p.InLeft? && p.cell.hdiff > 0 ==> p.right.Branch? && (p.right.cell.hdiff < 0 ==> p.right.left.Branch?)
    ensures p.InRight? && p.cell.hdiff < 0 ==> p.left.Branch? && (p.left.cell.hdiff > 0 ==> p.left.right.Branch?)
  {
  }

  lemma DeleteTurnNodes(p: Path, t: Tree, r: Tree)
    requires p != Top && r.Branch? && InOrder(r) == InOrder(Around(p, t)) && PathApart(p.up, r)
    ensures PathNodes(p.up) + Nodes(r) == PathNodes(p) + Nodes(t)
    ensures p.up != Top && Root(r) == p.cell.node ==> Root(Sibling(p.up)) != p.cell.node
  {
    hide InOrder, PathApart;
    PathNodesUp(p);
    NodesBranch(Around(p, t));
    assert Nodes(r) == Nodes(Around(p, t));
    if p.up != Top { HoleSide(p.up, r); }
  }

  /** What a turn of the insertion climb relies on. */
  lemma InsertFacts(p: Path, t: Tree, d: Debt)
    requires p != Top && PathApart(p, t) && Grew(p, t) && SumsReady(p, t, d) && d.Next(p.cell.node) == d
    ensures var r := InsertTurn(p, t, d);
            && (if r.Climb? then Grew(p.up, r.tree) && InsertUp(p, t, d) == InsertUp(p.up, r.tree, d)
                else InsertUp(p, t, d) == FixUp(p.up, r.tree, d))
            && InOrder(r.tree) == InOrder(Around(p, t)) && PathApart(p.up, r.tree) && SumsReady(p.up, r.tree, d)
            && PathNodes(p.up) + Nodes(r.tree) == PathNodes(p) + Nodes(t)
    ensures var p' := WithDiff(p, 0);
            && FixUp(p', t, d) == FixUp(p.up, Refresh(p, t, 0, d), d)
            && SumsReady(p', t, d) && PathApart(p', t) && PathNodes(p') == PathNodes(p)
    ensures InsertTurn(p, t, d).tree.Branch?
    ensures InsertTurn(p, t, d).Climb? ==> Root(InsertTurn(p, t, d).tree) == p.cell.node
    ensures p.InRight? && p.cell.hdiff > 0 && t.cell.hdiff <= 0 ==> t.left.Branch?
    ensures p.InLeft? && p.cell.hdiff < 0 && t.cell.hdiff > 0 ==> t.right.Branch?
  {
    InsertStep(p, t, d);
    SettleHere(p, t, 0, d);
    PathNodesUp(p);
    NodesBranch(Around(p, t));
  }
}
