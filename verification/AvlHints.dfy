/** Stepping through the AVL tree and inserting next to a hint. */
module AvlHints {
  import opened AvlSpec
  import opened AvlLinks
  import opened Avl
  import opened AvlQueries

  /** Where the root node of t, which hangs in p, stands in the order of the whole tree. */
  function Index(p: Path, t: Tree): nat
    requires t.Branch?
  {
    |Before(p)| + |InOrder(t.left)|
  }

  lemma IndexIsPosition(p: Path, t: Tree)
    requires t.Branch?
    ensures var s := InOrder(Plug(p, t));
            && Index(p, t) < |s| && s[Index(p, t)] == t.cell.node
            && s[..Index(p, t)] == Before(p) + InOrder(t.left)
            && s[Index(p, t) + 1..] == InOrder(t.right) + After(p)
  {
    hide Before, After, Plug, InOrder;
    PlugInOrder(p, t);
    BranchOrder(t);
    Middle(Before(p), InOrder(t.left), t.cell.node, InOrder(t.right), After(p));
  }

  lemma Middle(b: seq<Node>, l: seq<Node>, n: Node, r: seq<Node>, a: seq<Node>)
    ensures var s, i := b + (l + [n] + r) + a, |b| + |l|;
            i < |s| && s[i] == n && s[..i] == b + l && s[i + 1..] == r + a
  {
    assert b + (l + [n] + r) + a == (b + l) + [n] + (r + a);
  }

  /** `_left_most`, with the way to it. */
  method LeftMostOf(tree: AvlTree, n: Node, ghost p0: Path, ghost t0: Tree)
    returns (m: Node, ghost p: Path, ghost t: Tree)
    requires tree.Valid() && Plug(p0, t0) == tree.shape && Root(t0) == n
    ensures tree.Valid() && Plug(p, t) == tree.shape && Root(t) == m && t.Branch? && t.left == Leaf
        && Before(p) == Before(p0)
  {
    m, p, t := n, p0, t0;
    while true
      invariant tree.Valid() && Plug(p, t) == tree.shape && Root(t) == m && t.Branch? && Before(p) == Before(p0)
      decreases t
    {
      Here(tree, p, t);
      if m.left == null { return; }
      m, p, t := m.left, InLeft(p, t.cell, t.right), t.left;
    }
  }

  /** `_right_most`, with the way to it. */
  method RightMostOf(tree: AvlTree, n: Node, ghost p0: Path, ghost t0: Tree)
    returns (m: Node, ghost p: Path, ghost t: Tree)
    requires tree.Valid() && Plug(p0, t0) == tree.shape && Root(t0) == n
    ensures tree.Valid() && Plug(p, t) == tree.shape && Root(t) == m && t.Branch? && t.right == Leaf
        && After(p) == After(p0)
  {
    m, p, t := n, p0, t0;
    while true
      invariant tree.Valid() && Plug(p, t) == tree.shape && Root(t) == m && t.Branch? && After(p) == After(p0)
      decreases t
    {
      Here(tree, p, t);
      if m.right == null { return; }
      m, p, t := m.right, InRight(p, t.left, t.cell), t.right;
    }
  }

  /** `_next`: the node one place further in the order, or null at its end. */
  method Next(tree: AvlTree, node: Node, ghost p0: Path, ghost t0: Tree) returns (next: Node?)
    requires tree.Valid() && Plug(p0, t0) == tree.shape && Root(t0) == node
    ensures var s, i := InOrder(tree.shape), Index(p0, t0);
            next == if i + 1 < |s| then s[i + 1] else null
  {
    hide Sorted, NoDuplicates, Balanced, Summed, Linked;
    Here(tree, p0, t0);
    IndexIsPosition(p0, t0);
    ghost var p, t;
    if node.right != null {
      next, p, t := LeftMostOf(tree, node.right, InRight(p0, t0.left, t0.cell), t0.right);
      IndexIsPosition(p, t);
      assert Before(p) + [] == Before(p0) + (InOrder(t0.left) + [node]);
    } else {
      var m;
      m, p, t := ClimbWhile(tree, node, false, p0, t0);
      Here(tree, p, t);
      next := m.parent;
      AfterFirst(p);
      assert [] + After(p0) == After(p0);
    }
  }

  lemma AfterFirst(p: Path)
    requires p == Top || p.InLeft?
    ensures if p == Top then After(p) == [] else |After(p)| > 0 && After(p)[0] == p.cell.node
  {
  }

  lemma BeforeLast(p: Path)
    requires p == Top || p.InRight?
    ensures if p == Top then Before(p) == [] else |Before(p)| > 0 && Before(p)[|Before(p)| - 1] == p.cell.node
  {
  }

  /** `_prev`: the node one place back in the order, or null at its beginning. */
  method Prev(tree: AvlTree, node: Node, ghost p0: Path, ghost t0: Tree) returns (prev: Node?)
    requires tree.Valid() && Plug(p0, t0) == tree.shape && Root(t0) == node
    ensures var s, i := InOrder(tree.shape), Index(p0, t0);
            i < |s| && prev == if 0 < i then s[i - 1] else null
  {
    hide Sorted, NoDuplicates, Balanced, Summed, Linked;
    assert InOrder(Leaf) == [];
    Here(tree, p0, t0);
    IndexIsPosition(p0, t0);
    ghost var p, t;
    if node.left != null {
      prev, p, t := RightMostOf(tree, node.left, InLeft(p0, t0.cell, t0.right), t0.left);
      LastOfLeft(p, t, p0, t0);
    } else {
      var m;
      m, p, t := ClimbWhile(tree, node, true, p0, t0);
      Here(tree, p, t);
      prev := m.parent;
      BeforeLast(p);
      assert Before(p0) + [] == Before(p0);
    }
  }

  datatype Option<T> = None | Some(value: T)

  /**
   `try_finding_handle_for_insert_with_hint`: a handle just before the hint (at the end
   without one), found exactly when the key may stand between the hint and its predecessor.
   */
  method HintedHandle(tree: AvlTree, key: int, hint: Node?, ghost p0: Path, ghost t0: Tree)
    returns (h: Option<Handle>, ghost p: Path)
    requires tree.Valid() && Plug(p0, t0) == tree.shape && (hint != null ==> Root(t0) == hint)
    ensures var s := InOrder(tree.shape);
            var i := if hint == null || s == [] then |s| else if t0.Branch? then Index(p0, t0) else 0;
            && i <= |s|
            && (h.Some? <==> (i < |s| ==> key <= s[i].key) && (0 < i ==> s[i - 1].key <= key))
            && (h.Some? ==> Names(h.value, p) && Plug(p, Leaf) == tree.shape && |Before(p)| == i)
  {
    hide Sorted, NoDuplicates, Balanced, Summed, Linked;
    p := Top;
    if tree.root == null { return Some(AtRoot), Top; }
    ghost var t;
    var m;
    if hint == null {
      m, p, t := RightMostOf(tree, tree.root, Top, tree.shape);
      IndexIsPosition(p, t);
      h := if !(key < m.key) then Some(AtRight(m)) else None;
      p := InRight(p, t.left, t.cell);
      return;
    }
    h, p := HandleBefore(tree, key, hint, p0, t0);
  }

  /** The part of `try_finding_handle_for_insert_with_hint` for a node as hint. */
  method HandleBefore(tree: AvlTree, key: int, hint: Node, ghost p0: Path, ghost t0: Tree)
    returns (h: Option<Handle>, ghost p: Path)
    requires tree.Valid() && Plug(p0, t0) == tree.shape && Root(t0) == hint
    ensures var s, i := InOrder(tree.shape), Index(p0, t0);
            && i < |s|
            && (h.Some? <==> key <= s[i].key && (0 < i ==> s[i - 1].key <= key))
            && (h.Some? ==> Names(h.value, p) && Plug(p, Leaf) == tree.shape && |Before(p)| == i)
  {
    hide Sorted, NoDuplicates, Balanced, Summed, Linked;
    p := Top;
    Here(tree, p0, t0);
    IndexIsPosition(p0, t0);
    if hint.key < key { return None, p; }
    ghost var t;
    var m;
    if hint.left != null {
      m, p, t := RightMostOf(tree, hint.left, InLeft(p0, t0.cell, t0.right), t0.left);
      LastOfLeft(p, t, p0, t0);
      h := if key < m.key then None else Some(AtRight(m));
      p := InRight(p, t.left, t.cell);
    } else {
      m, p, t := ClimbWhile(tree, hint, true, p0, t0);
      Here(tree, p, t);
      BeforeLast(p);
      assert Before(p0) + [] == Before(p0);
      var prev := m.parent;
      h := if prev != null && key < prev.key then None else Some(AtLeft(hint));
      p := InLeft(p0, t0.cell, t0.right);
    }
  }

  /** The last node of the left subtree stands right before the root node of t0. */
  lemma LastOfLeft(p: Path, t: Tree, p0: Path, t0: Tree)
    requires t0.Branch? && t.Branch? && t.right == Leaf && Plug(p, t) == Plug(p0, t0)
    requires After(p) == After(InLeft(p0, t0.cell, t0.right))
    ensures Index(p, t) + 1 == Index(p0, t0) < |InOrder(Plug(p, t))|
    ensures InOrder(Plug(p, t))[Index(p, t)] == t.cell.node
    ensures |Before(InRight(p, t.left, t.cell))| == Index(p0, t0)
  {
    IndexIsPosition(p, t);
    IndexIsPosition(p0, t0);
    assert [] + After(p) == ([t0.cell.node] + InOrder(t0.right)) + After(p0);
  }

  /** A handle found with a hint is a place where the key may be inserted. */
  lemma HintFits(tree: AvlTree, key: int, p: Path)
    requires tree.Valid() && Plug(p, Leaf) == tree.shape
    requires var s, i := InOrder(tree.shape), |Before(p)|;
             i <= |s| && (i < |s| ==> key <= s[i].key) && (0 < i ==> s[i - 1].key <= key)
    ensures forall n <- Before(p) :: n.key <= key
    ensures forall n <- After(p) :: key <= n.key
  {
    var s, b, a := InOrder(tree.shape), Before(p), After(p);
    PlugInOrder(p, Leaf);
    assert s == b + a;
    forall j | 0 <= j < |b| ensures b[j].key <= key { assert b[j] == s[j]; }
    forall j | 0 <= j < |a| ensures key <= a[j].key { assert a[j] == s[|b| + j]; }
  }

  ghost function HintIndex(s: seq<Node>, hint: Node?, p: Path, t: Tree): nat {
    if hint == null || s == [] then |s| else if t.Branch? then Index(p, t) else 0
  }

  /** The key may stand before place i. */
  ghost predicate FitsAt(s: seq<Node>, i: nat, key: int) {
    i <= |s| && (i < |s| ==> key <= s[i].key) && (0 < i ==> s[i - 1].key <= key)
  }

  ghost predicate InsertedAt(s: seq<Node>, i: nat, node: Node, r: seq<Node>) {
    i <= |s| && r == s[..i] + [node] + s[i..]
  }

  lemma SplitHere(p: Path)
    ensures var s := Before(p) + After(p); s[..|Before(p)|] == Before(p) && s[|Before(p)|..] == After(p)
  {
  }

  /**
   Insertion with a hint, as avl_container.h has it: just before the hint if the key may stand
   there, and otherwise behind every node whose key does not exceed it.
   */
  method InsertHinted(tree: AvlTree, node: Node, hint: Node?, ghost p0: Path, ghost t0: Tree) returns (ghost at: nat)
    requires tree.Valid() && Plug(p0, t0) == tree.shape && (hint != null ==> Root(t0) == hint)
    requires node !in InOrder(tree.shape) && node.sum2 == 0
    modifies tree, node, Nodes(tree.shape)
    ensures tree.Valid() && InsertedAt(old(InOrder(tree.shape)), at, node, InOrder(tree.shape))
    ensures var s := old(InOrder(tree.shape));
            var i := HintIndex(s, hint, p0, t0);
            if FitsAt(s, i, node.key) then at == i
            else (forall n <- s[..at] :: n.key <= node.key) && (forall n <- s[at..] :: node.key < n.key)
  {
    hide AvlTree.Valid, Names, Plug, InOrder, Before, After;
    assert allocated(Nodes(tree.shape));
    ghost var p;
    var h;
    var found;
    found, p := HintedHandle(tree, node.key, hint, p0, t0);
    if found.None? {
      h, p := tree.FindHandleForInsert(node.key);
    } else {
      h := found.value;
      HintFits(tree, node.key, p);
    }
    SplitHere(p);
    at := |Before(p)|;
    var _ := tree.InsertAt(h, node, p);
  }
}
