/** The pointer rotations `_L`, `_R`, `_RL`, `_LR` and the aggregate fixes on heap nodes. */
module AvlRotate {
  import opened AvlSpec
  import opened AvlLinks

  function NodeSum1(n: Node?): int
    reads n
  {
    if n == null then 0 else n.sum1
  }

  function NodeSum2(n: Node?): int
    reads n
  {
    if n == null then 0 else n.sum2
  }

  function Singleton(n: Node?): set<Node> {
    if n == null then {} else {n}
  }

  /** Redirect the parent of the root of t. */
  method SetParent(n: Node?, p: Node?, ghost t: Tree, ghost q: Node?)
    requires Linked(t, q) && n == Root(t) && Apart(t)
    modifies Singleton(n)`parent
    ensures Linked(t, p)
  {
    if n != null {
      ApartBranch(t);
      n.parent := p;
    }
  }

  lemma RootIn(t: Tree)
    ensures Singleton(Root(t)) <= Nodes(t)
  {
    if t.Branch? { NodesBranch(t); }
  }

  /** Set the difference of n and recompute both its sums from its children. */
  method FixNode(n: Node, h: int, ghost t: Tree, ghost up: Node?)
    requires Linked(t, up) && Root(t) == n && Apart(t)
    modifies n`hdiff, n`sum1, n`sum2
    ensures Linked(Branch(t.left, Cell(n, h, Recomputed(t.left, n, t.right), Reconstructed(t.left, n, t.right)),
        t.right), up)
  {
    ApartBranch(t);
    n.hdiff := h;
    n.sum1 := NodeSum1(n.left) + NodeSum1(n.right) + n.weight;
    n.sum2 := NodeSum2(n.left) + NodeSum2(n.right) + n.weight;
  }

  /** Set the difference of n, recompute its type-1 sum and take over a type-2 sum. */
  method TakeSum(n: Node, h: int, s: int, ghost t: Tree, ghost up: Node?)
    requires Linked(t, up) && Root(t) == n && Apart(t)
    modifies n`hdiff, n`sum1, n`sum2
    ensures Linked(Branch(t.left, Cell(n, h, Recomputed(t.left, n, t.right), s), t.right), up)
  {
    ApartBranch(t);
    n.hdiff := h;
    n.sum1 := NodeSum1(n.left) + NodeSum1(n.right) + n.weight;
    n.sum2 := s;
  }

  /** The pointer moves of `_L`. */
  method TurnLeft(X: Node, ghost x: Tree, ghost up: Node?) returns (Z: Node)
    requires Linked(x, up) && Root(x) == X && x.right.Branch? && Apart(x)
    modifies Nodes(x)
    ensures Z == x.right.cell.node
    ensures Linked(Branch(Branch(x.left, x.cell, x.right.left), x.right.cell, x.right.right), up)
  {
    ghost var a, b, c := x.left, x.right.left, x.right.right;
    ApartBranch(x);
    ApartBranch(x.right);
    RootIn(b);
    assert allocated(Nodes(a)) && allocated(Nodes(b)) && allocated(Nodes(c));
    Z := X.right;
    X.right := Z.left;
    SetParent(X.right, X, b, Z);
    Z.left := X;
    Z.parent := X.parent;
    X.parent := Z;
    assert Linked(a, X) && Linked(b, X) && Linked(c, Z);
  }

  lemma TurnedApart(x: Tree, y: Tree)
    requires Apart(x) && InOrder(y) == InOrder(x)
    ensures Apart(y) && Nodes(y) == Nodes(x)
  {
  }

  method RotateL(X: Node, ghost x: Tree, ghost up: Node?) returns (Z: Node)
    requires Linked(x, up) && Root(x) == X && x.right.Branch? && Apart(x)
    modifies Nodes(x)
    ensures Linked(RotateLeft(x), up) && Z == Root(RotateLeft(x))
  {
    ghost var a, b, c := x.left, x.right.left, x.right.right;
    Z := TurnLeft(X, x, up);
    ghost var x1 := Branch(a, x.cell, b);
    ghost var y := Branch(x1, x.right.cell, c);
    TurnedApart(x, y);
    ApartBranch(y);
    assert allocated(Nodes(c));
    var h, s := if Z.hdiff == 0 then 1 else 0, X.sum2;
    FixNode(X, h, x1, Z);
    TakeSum(Z, -h, s, Branch(RotateLeft(x).left, x.right.cell, c), up);
  }

  /** The pointer moves of `_R`. */
  method TurnRight(X: Node, ghost x: Tree, ghost up: Node?) returns (Z: Node)
    requires Linked(x, up) && Root(x) == X && x.left.Branch? && Apart(x)
    modifies Nodes(x)
    ensures Z == x.left.cell.node
    ensures Linked(Branch(x.left.left, x.left.cell, Branch(x.left.right, x.cell, x.right)), up)
  {
    ghost var a, b, c := x.left.left, x.left.right, x.right;
    ApartBranch(x);
    ApartBranch(x.left);
    RootIn(b);
    assert allocated(Nodes(a)) && allocated(Nodes(b)) && allocated(Nodes(c));
    Z := X.left;
    X.left := Z.right;
    SetParent(X.left, X, b, Z);
    Z.right := X;
    Z.parent := X.parent;
    X.parent := Z;
    assert Linked(a, Z) && Linked(b, X) && Linked(c, X);
  }

  method RotateR(X: Node, ghost x: Tree, ghost up: Node?) returns (Z: Node)
    requires Linked(x, up) && Root(x) == X && x.left.Branch? && Apart(x)
    modifies Nodes(x)
    ensures Linked(RotateRight(x), up) && Z == Root(RotateRight(x))
  {
    ghost var a, b, c := x.left.left, x.left.right, x.right;
    Z := TurnRight(X, x, up);
    ghost var x1 := Branch(b, x.cell, c);
    ghost var y := Branch(a, x.left.cell, x1);
    TurnedApart(x, y);
    ApartBranch(y);
    assert allocated(Nodes(a));
    var h, s := if Z.hdiff == 0 then -1 else 0, X.sum2;
    FixNode(X, h, x1, Z);
    TakeSum(Z, -h, s, Branch(a, x.left.cell, RotateRight(x).right), up);
  }

  /** Hang the subtree b below X on the right. */
  method GiveRight(X: Node, child: Node?, ghost b: Tree, ghost q: Node?)
    requires Linked(b, q) && child == Root(b) && Apart(b) && X !in Nodes(b)
    modifies X`right, Singleton(child)`parent
    ensures X.right == child && Linked(b, X)
  {
    X.right := child;
    SetParent(child, X, b, q);
  }

  method GiveLeft(X: Node, child: Node?, ghost b: Tree, ghost q: Node?)
    requires Linked(b, q) && child == Root(b) && Apart(b) && X !in Nodes(b)
    modifies X`left, Singleton(child)`parent
    ensures X.left == child && Linked(b, X)
  {
    X.left := child;
    SetParent(child, X, b, q);
  }

  /** Put W above the subtrees l and r in place of whatever hung below P. */
  method Crown(W: Node, L: Node, R: Node, P: Node?, ghost l: Tree, ghost ql: Node?, ghost w: Cell, ghost r: Tree,
               ghost qr: Node?)
    requires Linked(l, ql) && Root(l) == L && Linked(r, qr) && Root(r) == R && Apart(Branch(l, w, r))
    requires w.node == W && W.hdiff == w.hdiff && W.sum1 == w.sum1 && W.sum2 == w.sum2
    modifies W`left, W`right, W`parent, L`parent, R`parent
    ensures Linked(Branch(l, w, r), P)
  {
    ApartBranch(Branch(l, w, r));
    RootIn(l);
    RootIn(r);
    assert allocated(Nodes(l)) && allocated(Nodes(r));
    W.left, W.right, W.parent := L, R, P;
    SetParent(L, W, l, ql);
    SetParent(R, W, r, qr);
  }

  /** The pointer moves of `_RL`. */
  method TurnRightLeft(X: Node, ghost x: Tree, ghost up: Node?) returns (Z: Node, W: Node)
    requires Linked(x, up) && Root(x) == X && x.right.Branch? && x.right.left.Branch? && Apart(x)
    modifies Nodes(x)
    ensures Z == x.right.cell.node && W == x.right.left.cell.node
    ensures var w := x.right.left;
            Linked(Branch(Branch(x.left, x.cell, w.left), w.cell, Branch(w.right, x.right.cell, x.right.right)), up)
  {
    hide InOrder, NoDuplicates, Apart;
    ghost var w := x.right.left;
    ghost var a, b, c, d := x.left, w.left, w.right, x.right.right;
    ApartBranch(x);
    ApartBranch(x.right);
    ApartBranch(w);
    RootIn(b);
    RootIn(c);
    assert Linked(x.right, X) && Linked(w, x.right.cell.node);
    assert allocated(Nodes(a)) && allocated(Nodes(b)) && allocated(Nodes(c)) && allocated(Nodes(d));
    Z := X.right;
    W := Z.left;
    GiveRight(X, W.left, b, W);
    assert Linked(a, X) && Linked(c, W) && Linked(d, Z);
    GiveLeft(Z, W.right, c, W);
    assert Linked(a, X) && Linked(b, X) && Linked(d, Z);
    ghost var x1, z1 := Branch(a, x.cell, b), Branch(c, x.right.cell, d);
    DoubleApart(x, Branch(x1, w.cell, z1));
    assert Linked(x1, up) && Linked(z1, X);
    Crown(W, X, Z, X.parent, x1, up, w.cell, z1, X);
  }

  method RotateRL(X: Node, ghost x: Tree, ghost up: Node?) returns (W: Node)
    requires Linked(x, up) && Root(x) == X && x.right.Branch? && x.right.left.Branch? && Apart(x)
    modifies Nodes(x)
    ensures Linked(RotateRightLeft(x), up) && W == Root(RotateRightLeft(x))
  {
    ghost var w, y := x.right.left, RotateRightLeft(x);
    ghost var x1, z1 := Branch(x.left, x.cell, w.left), Branch(w.right, x.right.cell, x.right.right);
    var Z;
    Z, W := TurnRightLeft(X, x, up);
    ghost var y1 := Branch(x1, w.cell, z1);
    DoubleApart(x, y1);
    ApartBranch(y1);
    assert allocated(Nodes(x1)) && allocated(Nodes(z1));
    var hx := if W.hdiff > 0 then -1 else 0;
    var hz := if W.hdiff < 0 then 1 else 0;
    var s := X.sum2;
    FixNode(X, hx, x1, W);
    assert InOrder(y.left) == InOrder(x1) && allocated(Nodes(y.left));
    FixNode(Z, hz, z1, W);
    TakeSum(W, 0, s, Branch(y.left, w.cell, y.right), up);
  }

  lemma DoubleApart(x: Tree, y: Tree)
    requires Apart(x) && x.Branch? && x.right.Branch? && x.right.left.Branch?
    requires var w := x.right.left;
             y == Branch(Branch(x.left, x.cell, w.left), w.cell, Branch(w.right, x.right.cell, x.right.right))
    ensures Apart(y) && Nodes(y) == Nodes(x)
  {
    var w := x.right.left;
    var a, b, c, d := InOrder(x.left), InOrder(w.left), InOrder(w.right), InOrder(x.right.right);
    var n, m, k := [x.cell.node], [w.cell.node], [x.right.cell.node];
    assert InOrder(y.left) == a + n + b && InOrder(y.right) == c + k + d && InOrder(w) == b + m + c;
    assert a + n + ((b + m + c) + k + d) == (a + n + b) + m + (c + k + d);
    TurnedApart(x, y);
  }

  /** The pointer moves of `_LR`. */
  method TurnLeftRight(X: Node, ghost x: Tree, ghost up: Node?) returns (Z: Node, W: Node)
    requires Linked(x, up) && Root(x) == X && x.left.Branch? && x.left.right.Branch? && Apart(x)
    modifies Nodes(x)
    ensures Z == x.left.cell.node && W == x.left.right.cell.node
    ensures var w := x.left.right;
            Linked(Branch(Branch(x.left.left, x.left.cell, w.left), w.cell, Branch(w.right, x.cell, x.right)), up)
  {
    ghost var w := x.left.right;
    ghost var a, b, c, d := x.left.left, w.left, w.right, x.right;
    ApartBranch(x);
    ApartBranch(x.left);
    ApartBranch(w);
    RootIn(b);
    RootIn(c);
    assert Linked(x.left, X) && Linked(w, x.left.cell.node);
    hide InOrder, NoDuplicates, Apart;
    assert allocated(Nodes(a)) && allocated(Nodes(b)) && allocated(Nodes(c)) && allocated(Nodes(d));
    Z := X.left;
    W := Z.right;
    GiveRight(Z, W.left, b, W);
    assert Linked(a, Z) && Linked(c, W) && Linked(d, X);
    GiveLeft(X, W.right, c, W);
    assert Linked(a, Z) && Linked(b, Z) && Linked(d, X);
    ghost var z1, x1 := Branch(a, x.left.cell, b), Branch(c, x.cell, d);
    MirrorApart(x, Branch(z1, w.cell, x1));
    assert Linked(z1, X) && Linked(x1, up);
    Crown(W, Z, X, X.parent, z1, X, w.cell, x1, up);
  }

  method RotateLR(X: Node, ghost x: Tree, ghost up: Node?) returns (W: Node)
    requires Linked(x, up) && Root(x) == X && x.left.Branch? && x.left.right.Branch? && Apart(x)
    modifies Nodes(x)
    ensures Linked(RotateLeftRight(x), up) && W == Root(RotateLeftRight(x))
  {
    ghost var w, y := x.left.right, RotateLeftRight(x);
    ghost var z1, x1 := Branch(x.left.left, x.left.cell, w.left), Branch(w.right, x.cell, x.right);
    var Z;
    Z, W := TurnLeftRight(X, x, up);
    ghost var y1 := Branch(z1, w.cell, x1);
    MirrorApart(x, y1);
    ApartBranch(y1);
    assert allocated(Nodes(x1)) && allocated(Nodes(z1));
    var hz := if W.hdiff > 0 then -1 else 0;
    var hx := if W.hdiff < 0 then 1 else 0;
    var s := X.sum2;
    FixNode(Z, hz, z1, W);
    assert InOrder(y.left) == InOrder(z1) && allocated(Nodes(y.left));
    FixNode(X, hx, x1, W);
    TakeSum(W, 0, s, Branch(y.left, w.cell, y.right), up);
  }

  lemma MirrorApart(x: Tree, y: Tree)
    requires Apart(x) && x.Branch? && x.left.Branch? && x.left.right.Branch?
    requires var w := x.left.right;
             y == Branch(Branch(x.left.left, x.left.cell, w.left), w.cell, Branch(w.right, x.cell, x.right))
    ensures Apart(y) && Nodes(y) == Nodes(x)
  {
    var w := x.left.right;
    var a, b, c, d := InOrder(x.left.left), InOrder(w.left), InOrder(w.right), InOrder(x.right);
    var n, m, k := [x.left.cell.node], [w.cell.node], [x.cell.node];
    assert InOrder(y.left) == a + n + b && InOrder(y.right) == c + k + d && InOrder(w) == b + m + c;
    assert (a + n + (b + m + c)) + k + d == (a + n + b) + m + (c + k + d);
    TurnedApart(x, y);
  }
}
