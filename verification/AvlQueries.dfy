/** Rank and select on the AVL tree: the prefix-sum queries of avl.h and their inverse. */
module AvlQueries {
  import opened AvlSpec
  import opened AvlLinks
  import opened AvlRotate
  import opened Avl

  function Weigh(s: seq<Node>): nat {
    if s == [] then 0 else s[0].weight + Weigh(s[1..])
  }

  lemma {:induction false} WeighAppend(a: seq<Node>, b: seq<Node>)
    ensures Weigh(a + b) == Weigh(a) + Weigh(b)
  {
    if a == [] {
      assert a + b == b;
    } else {
      assert (a + b)[1..] == a[1..] + b;
      WeighAppend(a[1..], b);
    }
  }

  lemma {:induction false} WeighTree(t: Tree)
    ensures Weigh(InOrder(t)) == Total(t)
  {
    match t
    case Leaf =>
    case Branch(l, c, r) =>
      WeighTree(l);
      WeighTree(r);
      WeighAppend(InOrder(l) + [c.node], InOrder(r));
      WeighAppend(InOrder(l), [c.node]);
  }

  predicate IsLeft(n: Node, key: int, inc: bool) {
    if inc then n.key <= key else n.key < key
  }

  /** The weight of the nodes of s to the left of the key. */
  function LeftOf(s: seq<Node>, key: int, inc: bool): nat {
    if s == [] then 0 else (if IsLeft(s[0], key, inc) then s[0].weight else 0) + LeftOf(s[1..], key, inc)
  }

  lemma {:induction false} LeftOfAppend(a: seq<Node>, b: seq<Node>, key: int, inc: bool)
    ensures LeftOf(a + b, key, inc) == LeftOf(a, key, inc) + LeftOf(b, key, inc)
  {
    if a == [] {
      assert a + b == b;
    } else {
      assert (a + b)[1..] == a[1..] + b;
      LeftOfAppend(a[1..], b, key, inc);
    }
  }

  lemma {:induction false} LeftOfBounds(s: seq<Node>, key: int, inc: bool)
    ensures (forall n <- s :: IsLeft(n, key, inc)) ==> LeftOf(s, key, inc) == Weigh(s)
    ensures (forall n <- s :: !IsLeft(n, key, inc)) ==> LeftOf(s, key, inc) == 0
  {
    if s != [] { LeftOfBounds(s[1..], key, inc); }
  }

  /** What is left of a key is the weight of all before its first node, and if it counts itself, of these too. */
  lemma LeftOfKey(s: seq<Node>, key: int, i: nat, j: nat)
    requires i <= j <= |s| && (forall n <- s[..i] :: n.key < key)
    requires (forall n <- s[i..j] :: n.key == key) && forall n <- s[j..] :: n.key > key
    ensures LeftOf(s, key, false) == Weigh(s[..i]) && LeftOf(s, key, true) == Weigh(s[..j])
  {
    var a, b, c := s[..i], s[i..j], s[j..];
    assert s == a + b + c && s[..j] == a + b;
    WeighAppend(a, b);
    forall inc: bool
      ensures LeftOf(s, key, inc) == LeftOf(a, key, inc) + LeftOf(b, key, inc) + LeftOf(c, key, inc)
    {
      LeftOfAppend(a + b, c, key, inc);
      LeftOfAppend(a, b, key, inc);
      LeftOfBounds(a, key, inc);
      LeftOfBounds(b, key, inc);
      LeftOfBounds(c, key, inc);
    }
    LeftOfBounds(a, key, false);
    LeftOfBounds(a, key, true);
    LeftOfBounds(b, key, false);
    LeftOfBounds(b, key, true);
    LeftOfBounds(c, key, false);
    LeftOfBounds(c, key, true);
  }

  /** In a sorted tree the root decides for one of its subtrees. */
  lemma LeftOfBranch(p: Path, t: Tree, key: int, inc: bool)
    requires Sorted(InOrder(Plug(p, t))) && t.Branch?
    ensures LeftOf(InOrder(t), key, inc) ==
            if IsLeft(t.cell.node, key, inc) then Total(t.left) + t.cell.node.weight
              + LeftOf(InOrder(t.right), key, inc)
            else LeftOf(InOrder(t.left), key, inc)
  {
    var l, n, r := InOrder(t.left), [t.cell.node], InOrder(t.right);
    SortedAt(p, t);
    LeftOfAppend(l + n, r, key, inc);
    LeftOfAppend(l, n, key, inc);
    LeftOfBounds(l, key, inc);
    LeftOfBounds(r, key, inc);
    WeighTree(t.left);
  }

  /** What the heap shows at a position of an exact linked tree. */
  lemma Here(tree: AvlTree, p: Path, t: Tree)
    requires tree.Valid() && Plug(p, t) == tree.shape && t.Branch?
    ensures var n := t.cell.node;
            && n.left == Root(t.left) && n.right == Root(t.right) && n.parent == Parent(p, null)
            && n.sum1 == Total(t) && NodeSum1(n.left) == Total(t.left) && NodeSum1(n.right) == Total(t.right)
  {
    Open(p, t, null);
    PlugExact(p, t);
    SummedRoot(t.left);
    SummedRoot(t.right);
  }

  /** `get_sum_left` by key. */
  method GetSumLeft(tree: AvlTree, key: int, inc: bool) returns (agg: int)
    requires tree.Valid()
    ensures agg == LeftOf(InOrder(tree.shape), key, inc)
  {
    assert LeftOf(InOrder(Leaf), key, inc) == 0;
    hide LeftOf, InOrder, Sorted, NoDuplicates, Balanced, Summed, Linked, Before, After;
    var cur := tree.root;
    ghost var p, t := Top, tree.shape;
    agg := 0;
    while cur != null
      invariant tree.Valid() && Plug(p, t) == tree.shape && cur == Root(t)
      invariant agg + LeftOf(InOrder(t), key, inc) == LeftOf(InOrder(tree.shape), key, inc)
      decreases t
    {
      Here(tree, p, t);
      LeftOfBranch(p, t, key, inc);
      if IsLeft(cur, key, inc) {
        agg := agg + (NodeSum1(cur) - NodeSum1(cur.right));
        cur := cur.right;
        p, t := InRight(p, t.left, t.cell), t.right;
      } else {
        cur := cur.left;
        p, t := InLeft(p, t.cell, t.right), t.left;
      }
    }
  }

  /** `get_sum_left` by key in its combine/exclude form: whole subtrees are added and taken back. */
  method GetSumLeftCombining(tree: AvlTree, key: int, inc: bool) returns (agg: int)
    requires tree.Valid()
    ensures agg == LeftOf(InOrder(tree.shape), key, inc)
  {
    assert LeftOf(InOrder(Leaf), key, inc) == 0;
    hide LeftOf, InOrder, Sorted, NoDuplicates, Balanced, Summed, Linked, Before, After;
    var cur, combining := tree.root, true;
    ghost var p, t := Top, tree.shape;
    agg := 0;
    while cur != null
      invariant tree.Valid() && Plug(p, t) == tree.shape && cur == Root(t)
      invariant agg + LeftOf(InOrder(t), key, inc) - (if combining then 0 else Total(t))
          == LeftOf(InOrder(tree.shape), key, inc)
      decreases t
    {
      Here(tree, p, t);
      LeftOfBranch(p, t, key, inc);
      if IsLeft(cur, key, inc) {
        if combining {
          agg := agg + cur.sum1;
          combining := false;
        }
        cur := cur.right;
        p, t := InRight(p, t.left, t.cell), t.right;
      } else {
        if !combining {
          agg := agg - cur.sum1;
          combining := true;
        }
        cur := cur.left;
        p, t := InLeft(p, t.cell, t.right), t.left;
      }
    }
  }

  /** `get_sum_left` by node: climb to the root, adding what hangs on the left of the way. */
  method GetSumLeftOfNode(tree: AvlTree, start: Node, inc: bool, ghost p0: Path, ghost t0: Tree) returns (agg: int)
    requires tree.Valid() && Plug(p0, t0) == tree.shape && Root(t0) == start
    ensures agg == Weigh(Before(p0)) + Total(t0.left) + (if inc then start.weight else 0)
  {
    ghost var p, t := p0, t0;
    Here(tree, p, t);
    var node := start;
    agg := if inc then node.sum1 - NodeSum1(node.right) else NodeSum1(node.left);
    var cur := node.parent;
    while cur != null
      invariant tree.Valid() && Plug(p, t) == tree.shape && t.Branch? && node == Root(t) && cur == Parent(p, null)
      invariant agg + Weigh(Before(p)) == Weigh(Before(p0)) + Total(t0.left) + (if inc then start.weight else 0)
      decreases p
    {
      Here(tree, p, t);
      Here(tree, p.up, Around(p, t));
      PlugApart(p, t);
      HoleSide(p, t);
      ClimbBefore(p);
      if node == cur.right {
        agg := agg + (cur.sum1 - node.sum1);
      }
      p, t := p.up, Around(p, t);
      node := cur;
      cur := node.parent;
    }
  }

  lemma PlugApart(p: Path, t: Tree)
    requires Apart(Plug(p, t))
    ensures PathApart(p, t)
  {
    PlugInOrder(p, t);
  }

  lemma ClimbBefore(p: Path)
    requires p != Top
    ensures Weigh(Before(p)) == Weigh(Before(p.up)) + (if p.InRight? then Total(p.left) + p.cell.node.weight else 0)
  {
    if p.InRight? {
      WeighAppend(Before(p.up), InOrder(p.left) + [p.cell.node]);
      WeighAppend(InOrder(p.left), [p.cell.node]);
      WeighTree(p.left);
    }
  }

  /** Node n covers offset k of s: the weights before it do not exceed k, those up to it do. */
  ghost predicate Covers(s: seq<Node>, i: nat, k: int) {
    i < |s| && Weigh(s[..i]) <= k < Weigh(s[..i]) + s[i].weight
  }

  /** The weights before place i come to k, and the node there adds to them. */
  ghost predicate IsRankOf(s: seq<Node>, i: nat, k: int) {
    i < |s| && s[i].weight > 0 && Weigh(s[..i]) == k
  }

  /** Selecting at the rank of a node of positive weight gives the node back. */
  lemma SelectInvertsRank(s: seq<Node>, j: nat, k: int)
    requires Covers(s, j, k)
    ensures forall i: nat :: IsRankOf(s, i, k) ==> i == j
  {
    forall i: nat | IsRankOf(s, i, k) ensures i == j { CoverIsUnique(s, j, i, k); }
  }

  /** `get_nth_node`: the node covering the offset, and what of the offset falls into it. */
  method GetNthNode(tree: AvlTree, start: nat) returns (node: Node?, rest: int)
    requires tree.Valid()
    ensures node == null <==> Total(tree.shape) <= start
    ensures node != null ==> exists i: nat ::
              && Covers(InOrder(tree.shape), i, start) && InOrder(tree.shape)[i] == node
              && rest == start - Weigh(InOrder(tree.shape)[..i])
    ensures node != null ==> forall i: nat :: IsRankOf(InOrder(tree.shape), i, start) ==> node == InOrder(tree.shape)[i]
  {
    var cur, offset := tree.root, start;
    ghost var p, t := Top, tree.shape;
    while cur != null
      invariant tree.Valid() && Plug(p, t) == tree.shape && cur == Root(t) && 0 <= offset
      invariant start == Weigh(Before(p)) + offset
      invariant start < Total(tree.shape) <==> offset < Total(t)
      decreases t
    {
      Here(tree, p, t);
      var leftSum := NodeSum1(cur.left);
      if offset >= leftSum {
        offset := offset - leftSum;
        if offset < cur.weight {
          CoversHere(p, t, start);
          ghost var k: nat :| Covers(InOrder(tree.shape), k, start) && InOrder(tree.shape)[k] == cur;
          SelectInvertsRank(InOrder(tree.shape), k, start);
          return cur, offset;
        }
        offset := offset - cur.weight;
        cur := cur.right;
        p, t := InRight(p, t.left, t.cell), t.right;
        ClimbBefore(p);
      } else {
        cur := cur.left;
        p, t := InLeft(p, t.cell, t.right), t.left;
      }
    }
    return null, offset;
  }

  lemma CoversHere(p: Path, t: Tree, k: int)
    requires t.Branch?
    requires Weigh(Before(p)) + Total(t.left) <= k < Weigh(Before(p)) + Total(t.left) + t.cell.node.weight
    ensures var s, i := InOrder(Plug(p, t)), |Before(p)| + |InOrder(t.left)|;
            Covers(s, i, k) && s[i] == t.cell.node && Weigh(s[..i]) == Weigh(Before(p)) + Total(t.left)
  {
    hide Plug, Before, After, InOrder, Weigh;
    var s, b := InOrder(Plug(p, t)), Before(p) + InOrder(t.left);
    PlugInOrder(p, t);
    BranchOrder(t);
    assert s == b + ([t.cell.node] + InOrder(t.right) + After(p));
    assert s[..|b|] == b;
    WeighAppend(Before(p), InOrder(t.left));
    WeighTree(t.left);
  }

  lemma BranchOrder(t: Tree)
    requires t.Branch?
    ensures InOrder(t) == InOrder(t.left) + [t.cell.node] + InOrder(t.right)
  {
  }

  /** Select is the inverse of rank: one node covers an offset, whatever zero weights lie around it. */
  lemma CoverIsUnique(s: seq<Node>, i: nat, j: nat, k: int)
    requires Covers(s, i, k) && Covers(s, j, k)
    ensures i == j
  {
    if i < j { PrefixGrows(s, i, j); }
    if j < i { PrefixGrows(s, j, i); }
  }

  lemma PrefixGrows(s: seq<Node>, i: nat, j: nat)
    requires i < j <= |s|
    ensures Weigh(s[..i]) + s[i].weight <= Weigh(s[..j])
  {
    WeighAppend(s[..i], [s[i]]);
    WeighAppend(s[..i] + [s[i]], s[i + 1..j]);
    assert s[..j] == s[..i] + [s[i]] + s[i + 1..j];
  }

  // ----- climbing and stepping

  /** Climb while the node is a left (or a right) child. */
  method ClimbWhile(tree: AvlTree, n: Node, left: bool, ghost p0: Path, ghost t0: Tree)
    returns (m: Node, ghost p: Path, ghost t: Tree)
    requires tree.Valid() && Plug(p0, t0) == tree.shape && Root(t0) == n
    ensures Plug(p, t) == tree.shape && Root(t) == m && t.Branch? && (p == Top || p.InLeft? == !left)
    ensures if left then Before(p) == Before(p0) else After(p) == After(p0)
    ensures !left ==> Weigh(Before(p)) + Total(t) == Weigh(Before(p0)) + Total(t0)
    ensures (p == p0 || p < p0) && tree.Valid()
  {
    m, p, t := n, p0, t0;
    while true
      invariant tree.Valid() && Plug(p, t) == tree.shape && Root(t) == m && t.Branch?
      invariant if left then Before(p) == Before(p0) else After(p) == After(p0)
      invariant !left ==> Weigh(Before(p)) + Total(t) == Weigh(Before(p0)) + Total(t0)
      invariant p == p0 || p < p0
      decreases p
    {
      hide InOrder, Sorted, NoDuplicates, Balanced, Summed, Linked, Weigh;
      Here(tree, p, t);
      if m.parent == null { return; }
      Here(tree, p.up, Around(p, t));
      PlugApart(p, t);
      HoleSide(p, t);
      ClimbBefore(p);
      if m != (if left then m.parent.left else m.parent.right) { return; }
      m, p, t := m.parent, p.up, Around(p, t);
    }
  }

  /** `get_sum_left` by node in its combine/exclude form, as `get_rank` uses it. */
  method GetRank(tree: AvlTree, node: Node, ghost p0: Path, ghost t0: Tree) returns (agg: int)
    requires tree.Valid() && Plug(p0, t0) == tree.shape && Root(t0) == node
    ensures agg == Weigh(Before(p0)) + Total(t0.left)
  {
    assert Weigh([]) == 0;
    hide InOrder, Sorted, NoDuplicates, Balanced, Summed, Linked, Weigh;
    agg := 0;
    Here(tree, p0, t0);
    var top;
    ghost var p, t;
    top, p, t := ClimbWhile(tree, node, true, p0, t0);
    Here(tree, p, t);
    var cur := top.parent;
    while cur != null
      invariant tree.Valid() && Plug(p, t) == tree.shape && t.Branch? && cur == Parent(p, null)
          && (p == Top || p.InRight?)
      invariant agg + Weigh(Before(p)) == Weigh(Before(p0))
      decreases p
    {
      ghost var x := Around(p, t);
      Here(tree, p.up, x);
      ClimbBefore(p);
      var q;
      ghost var pq, tq;
      q, pq, tq := ClimbWhile(tree, cur, false, p.up, x);
      Here(tree, pq, tq);
      agg := agg + q.sum1;
      if cur.right != null { agg := agg - cur.right.sum1; }
      if q.parent == null {
        p, t := Top, tree.shape;
        break;
      }
      Here(tree, pq.up, Around(pq, tq));
      q, p, t := ClimbWhile(tree, q.parent, true, pq.up, Around(pq, tq));
      Here(tree, p, t);
      cur := q.parent;
    }
    Here(tree, p0, t0);
    if node.left != null { agg := agg + node.left.sum1; }
  }
}
