/** How tree and path values lie in the heap, and the few ways pointers are redirected. */
module AvlLinks {
  import opened AvlSpec

  function Root(t: Tree): Node? {
    if t.Leaf? then null else t.cell.node
  }

  /** The node above the hole of p, or `above` when p is empty. */
  function Parent(p: Path, above: Node?): Node? {
    if p == Top then above else p.cell.node
  }

  /** The node at the upper end of p with hole `hole`. */
  function Upper(p: Path, hole: Node?): Node? {
    if p == Top then hole else Upper(p.up, p.cell.node)
  }

  function Nodes(t: Tree): set<Node> {
    set n | n in InOrder(t)
  }

  function PathNodes(p: Path): set<Node> {
    set n | n in Before(p) + After(p)
  }

  function Sibling(p: Path): Tree
    requires p != Top
  {
    if p.InLeft? then p.right else p.left
  }

  lemma NodesBranch(t: Tree)
    requires t.Branch?
    ensures Nodes(t) == Nodes(t.left) + {t.cell.node} + Nodes(t.right)
  {
  }

  lemma PathNodesUp(p: Path)
    requires p != Top
    ensures PathNodes(p) == PathNodes(p.up) + {p.cell.node} + Nodes(Sibling(p))
  {
  }

  ghost predicate Holds(c: Cell, l: Node?, r: Node?, up: Node?)
    reads c.node
  {
    var n := c.node;
    && n.left == l && n.right == r && n.parent == up
    && n.hdiff == c.hdiff && n.sum1 == c.sum1 && n.sum2 == c.sum2
  }

  /** t lies in the heap with its root below `up`. */
  ghost predicate Linked(t: Tree, up: Node?)
    reads Nodes(t)
  {
    t.Branch? ==>
      var n := t.cell.node;
      NodesBranch(t);
      Holds(t.cell, Root(t.left), Root(t.right), up) && Linked(t.left, n) && Linked(t.right, n)
  }

  /** p lies in the heap with `hole` in its hole and its upper end below `above`. */
  ghost predicate Hung(p: Path, hole: Node?, above: Node?)
    reads PathNodes(p)
  {
    p != Top ==>
      var n, sib, up := p.cell.node, Root(Sibling(p)), Parent(p.up, above);
      PathNodesUp(p);
      && (if p.InLeft? then Holds(p.cell, hole, sib, up) else Holds(p.cell, sib, hole, up))
      && Linked(Sibling(p), n)
      && Hung(p.up, n, above)
  }

  ghost predicate Apart(t: Tree) {
    NoDuplicates(InOrder(t))
  }

  /** No node occurs twice in p and the tree in its hole. */
  ghost predicate PathApart(p: Path, t: Tree) {
    NoDuplicates(Before(p) + InOrder(t) + After(p))
  }

  lemma SplitDuplicates(a: seq<Node>, b: seq<Node>)
    requires NoDuplicates(a + b)
    ensures NoDuplicates(a) && NoDuplicates(b) && forall n :: n in a ==> n !in b
  {
    var s := a + b;
    forall i, j | 0 <= i < j < |a| ensures a[i] != a[j] { assert s[i] == a[i] && s[j] == a[j]; }
    forall i, j | 0 <= i < j < |b| ensures b[i] != b[j] { assert s[|a| + i] == b[i] && s[|a| + j] == b[j]; }
    forall i, j | 0 <= i < |a| && 0 <= j < |b| ensures a[i] != b[j] {
      assert s[i] == a[i] && s[|a| + j] == b[j];
    }
  }

  lemma ApartBranch(t: Tree)
    requires t.Branch? && Apart(t)
    ensures Apart(t.left) && Apart(t.right)
    ensures Nodes(t) == Nodes(t.left) + {t.cell.node} + Nodes(t.right)
    ensures t.cell.node !in Nodes(t.left) && t.cell.node !in Nodes(t.right) && Nodes(t.left) !! Nodes(t.right)
  {
    SplitDuplicates(InOrder(t.left) + [t.cell.node], InOrder(t.right));
    SplitDuplicates(InOrder(t.left), [t.cell.node]);
    assert t.cell.node in InOrder(t.left) + [t.cell.node];
  }

  lemma PathApartUp(p: Path, t: Tree)
    requires p != Top && PathApart(p, t)
    ensures PathApart(p.up, Around(p, t)) && Apart(Around(p, t)) && Apart(t)
    ensures PathNodes(p.up) !! Nodes(Around(p, t))
  {
    var x := Around(p, t);
    AroundInOrder(p, t);
    SplitDuplicates(Before(p.up) + InOrder(x), After(p.up));
    SplitDuplicates(Before(p.up), InOrder(x));
    ApartBranch(x);
    forall n | n in PathNodes(p.up) ensures n !in Nodes(x) {
      if n in Before(p.up) { assert n in Before(p.up) + InOrder(x); }
    }
    forall n | n in Nodes(x) ensures n !in PathNodes(p.up) {
      assert n in Before(p.up) + InOrder(x);
    }
  }

  /** Opening a linked tree at a subtree, and closing it again. */
  lemma {:induction false} Open(p: Path, t: Tree, above: Node?)
    requires Linked(Plug(p, t), above)
    ensures Hung(p, Root(t), above) && Linked(t, Parent(p, above)) && Upper(p, Root(t)) == Root(Plug(p, t))
  {
    if p != Top { Open(p.up, Around(p, t), above); }
  }

  lemma {:induction false} Close(p: Path, t: Tree, above: Node?)
    requires Hung(p, Root(t), above) && Linked(t, Parent(p, above))
    ensures Linked(Plug(p, t), above) && Upper(p, Root(t)) == Root(Plug(p, t))
  {
    if p != Top { Close(p.up, Around(p, t), above); }
  }
}
