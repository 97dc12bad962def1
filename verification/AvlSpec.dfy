/**
 The AVL tree of avl.h as a value: what rotations and the climbs after an insertion or a
 removal make of the tree, and why the result is again an exact, balanced tree.
 */
module AvlSpec {

  /**
   A tree node. Keys may repeat. `sum1` is a recomputed (type 1 or additional) subtree sum,
   `sum2` a delta-maintained (type 2) one, both over `weight`.
   */
  class Node {
    const key: int
    const weight: nat
    var left: Node?
    var right: Node?
    var parent: Node?
    var hdiff: int
    var sum1: int
    var sum2: int

    constructor (key: int, weight: nat)
      ensures this.key == key && this.weight == weight && sum2 == 0
    {
      this.key, this.weight := key, weight;
      left, right, parent := null, null, null;
      hdiff, sum1, sum2 := 0, 0, 0;
    }
  }

  /** A node together with the values its fields hold. */
  datatype Cell = Cell(node: Node, hdiff: int, sum1: int, sum2: int)

  datatype Tree = Leaf | Branch(left: Tree, cell: Cell, right: Tree)

  /** The way from a subtree (the hole) up to the root. */
  datatype Path =
    | Top
    | InLeft(up: Path, cell: Cell, right: Tree)   // the hole is the left child
    | InRight(up: Path, left: Tree, cell: Cell)   // the hole is the right child

  function Plug(p: Path, t: Tree): Tree {
    match p
    case Top => t
    case InLeft(up, c, r) => Plug(up, Branch(t, c, r))
    case InRight(up, l, c) => Plug(up, Branch(l, c, t))
  }

  // ----- what a tree means

  function InOrder(t: Tree): seq<Node> {
    match t
    case Leaf => []
    case Branch(l, c, r) => InOrder(l) + [c.node] + InOrder(r)
  }

  function Before(p: Path): seq<Node> {
    match p
    case Top => []
    case InLeft(up, c, r) => Before(up)
    case InRight(up, l, c) => Before(up) + (InOrder(l) + [c.node])
  }

  function After(p: Path): seq<Node> {
    match p
    case Top => []
    case InLeft(up, c, r) => ([c.node] + InOrder(r)) + After(up)
    case InRight(up, l, c) => After(up)
  }

  function Total(t: Tree): nat {
    match t
    case Leaf => 0
    case Branch(l, c, r) => Total(l) + c.node.weight + Total(r)
  }

  function Height(t: Tree): nat {
    match t
    case Leaf => 0
    case Branch(l, c, r) => 1 + Max(Height(l), Height(r))
  }

  function Max(a: nat, b: nat): nat {
    if a < b then b else a
  }

  /** Every stored height difference is the true one and at most one in size. */
  ghost predicate Balanced(t: Tree) {
    match t
    case Leaf => true
    case Branch(l, c, r) =>
      c.hdiff == Height(r) - Height(l) && -1 <= c.hdiff <= 1 && Balanced(l) && Balanced(r)
  }

  /** Every stored subtree sum is the true one. */
  ghost predicate Summed(t: Tree) {
    match t
    case Leaf => true
    case Branch(l, c, r) => c.sum1 == c.sum2 == Total(t) && Summed(l) && Summed(r)
  }

  /** A tree is exact when every height difference and both kinds of sums are. */
  ghost predicate Exact(t: Tree) {
    Balanced(t) && Summed(t)
  }

  // ----- aggregates

  function Sum1(t: Tree): int {
    if t.Leaf? then 0 else t.cell.sum1
  }

  function Sum2(t: Tree): int {
    if t.Leaf? then 0 else t.cell.sum2
  }

  /** `_fix_agg` of type 1 at node n between subtrees l and r. */
  function Recomputed(l: Tree, n: Node, r: Tree): int {
    Sum1(l) + Sum1(r) + n.weight
  }

  /** `T2AGGOPS_RECONSTRUCT` at node n. */
  function Reconstructed(l: Tree, n: Node, r: Tree): int {
    Sum2(l) + Sum2(r) + n.weight
  }

  /**
   What the climb takes off each type-2 sum: below the node that replaced an erased one
   its own weight `lower`, from that node upward the weight `upper` of the erased node.
   An insertion charges the negated weight everywhere.
   */
  datatype Debt = Debt(below: bool, turn: Node?, lower: int, upper: int) {
    function Charge(n: Node): int {
      if below && n != turn then lower else upper
    }

    function Next(n: Node): Debt {
      this.(below := below && n != turn)
    }
  }

  // ----- rotations

  function RotateLeft(x: Tree): (y: Tree)
    requires x.Branch? && x.right.Branch?
    ensures y.Branch?
  {
    var a, xc, b, zc, c := x.left, x.cell, x.right.left, x.right.cell, x.right.right;
    var (hx, hz) := if zc.hdiff == 0 then (1, -1) else (0, 0);
    var x' := Branch(a, Cell(xc.node, hx, Recomputed(a, xc.node, b), Reconstructed(a, xc.node, b)), b);
    Branch(x', Cell(zc.node, hz, Recomputed(x', zc.node, c), xc.sum2), c)
  }

  function RotateRight(x: Tree): (y: Tree)
    requires x.Branch? && x.left.Branch?
    ensures y.Branch?
  {
    var a, zc, b, xc, c := x.left.left, x.left.cell, x.left.right, x.cell, x.right;
    var (hx, hz) := if zc.hdiff == 0 then (-1, 1) else (0, 0);
    var x' := Branch(b, Cell(xc.node, hx, Recomputed(b, xc.node, c), Reconstructed(b, xc.node, c)), c);
    Branch(a, Cell(zc.node, hz, Recomputed(a, zc.node, x'), xc.sum2), x')
  }

  function RotateRightLeft(x: Tree): (y: Tree)
    requires x.Branch? && x.right.Branch? && x.right.left.Branch?
    ensures y.Branch?
  {
    var a, xc, w, zc, d := x.left, x.cell, x.right.left, x.right.cell, x.right.right;
    var b, wc, c := w.left, w.cell, w.right;
    var (hx, hz) := if wc.hdiff < 0 then (0, 1) else if wc.hdiff == 0 then (0, 0) else (-1, 0);
    var x' := Branch(a, Cell(xc.node, hx, Recomputed(a, xc.node, b), Reconstructed(a, xc.node, b)), b);
    var z' := Branch(c, Cell(zc.node, hz, Recomputed(c, zc.node, d), Reconstructed(c, zc.node, d)), d);
    Branch(x', Cell(wc.node, 0, Recomputed(x', wc.node, z'), xc.sum2), z')
  }

  function RotateLeftRight(x: Tree): (y: Tree)
    requires x.Branch? && x.left.Branch? && x.left.right.Branch?
    ensures y.Branch?
  {
    var a, zc, w, xc, d := x.left.left, x.left.cell, x.left.right, x.cell, x.right;
    var b, wc, c := w.left, w.cell, w.right;
    var (hz, hx) := if wc.hdiff < 0 then (0, 1) else if wc.hdiff == 0 then (0, 0) else (-1, 0);
    var z' := Branch(a, Cell(zc.node, hz, Recomputed(a, zc.node, b), Reconstructed(a, zc.node, b)), b);
    var x' := Branch(c, Cell(xc.node, hx, Recomputed(c, xc.node, d), Reconstructed(c, xc.node, d)), d);
    Branch(z', Cell(wc.node, 0, Recomputed(z', wc.node, x'), xc.sum2), x')
  }

  /** x is out of balance by two to the right, as both climbs find it. */
  ghost predicate RightHeavy(x: Tree) {
    x.Branch? && Balanced(x.left) && Balanced(x.right) && Height(x.right) == Height(x.left) + 2
  }

  ghost predicate LeftHeavy(x: Tree) {
    x.Branch? && Balanced(x.left) && Balanced(x.right) && Height(x.left) == Height(x.right) + 2
  }

  lemma RotateLeftBalances(x: Tree)
    requires RightHeavy(x) && x.right.cell.hdiff >= 0
    ensures var y := RotateLeft(x);
            && Balanced(y)
            && Height(y) == Height(x.right) + (if x.right.cell.hdiff == 0 then 1 else 0)
            && (y.cell.hdiff == 0 <==> x.right.cell.hdiff != 0)
  {
  }

  lemma RotateRightBalances(x: Tree)
    requires LeftHeavy(x) && x.left.cell.hdiff <= 0
    ensures var y := RotateRight(x);
            && Balanced(y)
            && Height(y) == Height(x.left) + (if x.left.cell.hdiff == 0 then 1 else 0)
            && (y.cell.hdiff == 0 <==> x.left.cell.hdiff != 0)
  {
  }

  lemma RotateRightLeftBalances(x: Tree)
    requires RightHeavy(x) && x.right.cell.hdiff < 0
    ensures x.right.left.Branch?
    ensures Balanced(RotateRightLeft(x)) && Height(RotateRightLeft(x)) == Height(x.right)
  {
    assert Balanced(x.right.left);
  }

  lemma RotateLeftRightBalances(x: Tree)
    requires LeftHeavy(x) && x.left.cell.hdiff > 0
    ensures x.left.right.Branch?
    ensures Balanced(RotateLeftRight(x)) && Height(RotateLeftRight(x)) == Height(x.left)
  {
    assert Balanced(x.left.right);
  }

  /** y holds the nodes of x in the same order, with every sum exact. */
  ghost predicate Rearranges(y: Tree, x: Tree) {
    InOrder(y) == InOrder(x) && Total(y) == Total(x) && Summed(y)
  }

  /** Below its root every sum of x is exact; at the root only the type-2 sum has to be. */
  ghost predicate Rotatable(x: Tree) {
    x.Branch? && Summed(x.left) && Summed(x.right) && x.cell.sum2 == Total(x)
  }

  lemma SummedRoot(t: Tree)
    requires Summed(t)
    ensures Sum1(t) == Sum2(t) == Total(t)
  {
  }

  lemma RotateLeftRearranges(x: Tree)
    requires Rotatable(x) && x.right.Branch?
    ensures Rearranges(RotateLeft(x), x)
  {
    SummedRoot(x.left); SummedRoot(x.right.left); SummedRoot(x.right.right);
    var a, b, c := InOrder(x.left), InOrder(x.right.left), InOrder(x.right.right);
    assert a + [x.cell.node] + (b + [x.right.cell.node] + c) == (a + [x.cell.node] + b) + [x.right.cell.node] + c;
  }

  lemma RotateRightRearranges(x: Tree)
    requires Rotatable(x) && x.left.Branch?
    ensures Rearranges(RotateRight(x), x)
  {
    SummedRoot(x.left.left); SummedRoot(x.left.right); SummedRoot(x.right);
    var a, b, c := InOrder(x.left.left), InOrder(x.left.right), InOrder(x.right);
    assert (a + [x.left.cell.node] + b) + [x.cell.node] + c == a + [x.left.cell.node] + (b + [x.cell.node] + c);
  }

  lemma RotateRightLeftRearranges(x: Tree)
    requires Rotatable(x) && x.right.Branch? && x.right.left.Branch?
    ensures Rearranges(RotateRightLeft(x), x)
  {
    var w := x.right.left;
    assert Summed(w);
    SummedRoot(x.left); SummedRoot(w.left); SummedRoot(w.right); SummedRoot(x.right.right);
    var a, b, c, d := InOrder(x.left), InOrder(w.left), InOrder(w.right), InOrder(x.right.right);
    var n, m, k := [x.cell.node], [w.cell.node], [x.right.cell.node];
    var y := RotateRightLeft(x);
    assert InOrder(y.left) == a + n + b && InOrder(y.right) == c + k + d && InOrder(w) == b + m + c;
    assert a + n + ((b + m + c) + k + d) == (a + n + b) + m + (c + k + d);
  }

  lemma RotateLeftRightRearranges(x: Tree)
    requires Rotatable(x) && x.left.Branch? && x.left.right.Branch?
    ensures Rearranges(RotateLeftRight(x), x)
  {
    var w := x.left.right;
    assert Summed(w);
    SummedRoot(x.left.left); SummedRoot(w.left); SummedRoot(w.right); SummedRoot(x.right);
    var a, b, c, d := InOrder(x.left.left), InOrder(w.left), InOrder(w.right), InOrder(x.right);
    var n, m, k := [x.left.cell.node], [w.cell.node], [x.cell.node];
    var y := RotateLeftRight(x);
    assert InOrder(y.left) == a + n + b && InOrder(y.right) == c + k + d && InOrder(w) == b + m + c;
    assert (a + n + (b + m + c)) + k + d == (a + n + b) + m + (c + k + d);
  }

  // ----- one turn of a climb

  /** The subtree t in the hole of p together with its parent. */
  function Around(p: Path, t: Tree): (x: Tree)
    requires p != Top
    ensures x.Branch?
  {
    if p.InLeft? then Branch(t, p.cell, p.right) else Branch(p.left, p.cell, t)
  }

  /** The parent with difference h and both sums brought up to date. */
  function Refresh(p: Path, t: Tree, h: int, d: Debt): Tree
    requires p != Top
  {
    var x, c := Around(p, t), p.cell;
    x.(cell := Cell(c.node, h, Recomputed(x.left, c.node, x.right), c.sum2 - d.Charge(c.node)))
  }

  /** The parent before a rotation: only the type-2 sum is brought up to date. */
  function Charged(p: Path, t: Tree, d: Debt): Tree
    requires p != Top
  {
    var x, c := Around(p, t), p.cell;
    x.(cell := c.(sum2 := c.sum2 - d.Charge(c.node)))
  }

  /** p is balanced around a hole of height h. */
  ghost predicate PathBalanced(p: Path, h: nat) {
    match p
    case Top => true
    case InLeft(up, c, r) =>
      c.hdiff == Height(r) - h && -1 <= c.hdiff <= 1 && Balanced(r) && PathBalanced(up, 1 + Max(h, Height(r)))
    case InRight(up, l, c) =>
      c.hdiff == h - Height(l) && -1 <= c.hdiff <= 1 && Balanced(l) && PathBalanced(up, 1 + Max(Height(l), h))
  }

  /** Type-2 sums along p are exact for a hole of total v once the debt d is paid. */
  ghost predicate PathSummed(p: Path, v: nat, d: Debt) {
    match p
    case Top => true
    case InLeft(up, c, r) =>
      var s := v + c.node.weight + Total(r);
      c.sum2 - d.Charge(c.node) == s && Summed(r) && PathSummed(up, s, d.Next(c.node))
    case InRight(up, l, c) =>
      var s := Total(l) + c.node.weight + v;
      c.sum2 - d.Charge(c.node) == s && Summed(l) && PathSummed(up, s, d.Next(c.node))
  }

  /** t has just grown by one level in the hole of p. */
  ghost predicate Grew(p: Path, t: Tree) {
    t.Branch? && Balanced(t) && PathBalanced(p, Height(t) - 1) && (t.cell.hdiff != 0 || Height(t) == 1)
  }

  /** t has just shrunk by one level in the hole of p. */
  ghost predicate Shrank(p: Path, t: Tree) {
    Balanced(t) && PathBalanced(p, Height(t) + 1)
  }

  /** After one turn the climb either goes on from the rebuilt subtree or has settled. */
  datatype Turn = Climb(tree: Tree) | Settle(tree: Tree)

  ghost function InsertTurn(p: Path, t: Tree, d: Debt): Turn
    requires p != Top && Grew(p, t)
  {
    var h := p.cell.hdiff;
    var x := Charged(p, t, d);
    if p.InRight? then
      if h > 0 then Settle(if t.cell.hdiff > 0 then RotateLeft(x) else RotateRightLeft(x))
      else if h == 0 then Climb(Refresh(p, t, 1, d)) else Settle(Refresh(p, t, 0, d))
    else
      if h < 0 then Settle(if t.cell.hdiff > 0 then RotateLeftRight(x) else RotateRight(x))
      else if h == 0 then Climb(Refresh(p, t, -1, d)) else Settle(Refresh(p, t, 0, d))
  }

  ghost function DeleteTurn(p: Path, t: Tree, d: Debt): Turn
    requires p != Top && Shrank(p, t)
  {
    var h := p.cell.hdiff;
    var x := Charged(p, t, d);
    if p.InLeft? then
      if h < 0 then Climb(Refresh(p, t, 0, d))
      else if h == 0 then Settle(Refresh(p, t, 1, d))
      else if p.right.cell.hdiff < 0 then Climb(RotateRightLeft(x))
      else var y := RotateLeft(x); if y.cell.hdiff != 0 then Settle(y) else Climb(y)
    else
      if h > 0 then Climb(Refresh(p, t, 0, d))
      else if h == 0 then Settle(Refresh(p, t, -1, d))
      else if p.left.cell.hdiff > 0 then Climb(RotateLeftRight(x))
      else var y := RotateRight(x); if y.cell.hdiff != 0 then Settle(y) else Climb(y)
  }

  lemma InsertTurnBalances(p: Path, t: Tree, d: Debt)
    requires p != Top && Grew(p, t)
    ensures match InsertTurn(p, t, d)
            case Climb(y) => Grew(p.up, y)
            case Settle(y) => Balanced(y) && PathBalanced(p.up, Height(y))
  {
    if p.InLeft? { InsertTurnLeftBalances(p, t, d); } else { InsertTurnRightBalances(p, t, d); }
  }

  lemma InsertTurnLeftBalances(p: Path, t: Tree, d: Debt)
    requires p.InLeft? && Grew(p, t)
    ensures match InsertTurn(p, t, d)
            case Climb(y) => Grew(p.up, y)
            case Settle(y) => Balanced(y) && PathBalanced(p.up, Height(y))
  {
    hide RotateLeft, RotateRight, RotateLeftRight, RotateRightLeft, Recomputed, Debt.Charge;
    if p.cell.hdiff < 0 {
      var x := Charged(p, t, d);
      if t.cell.hdiff > 0 { RotateLeftRightBalances(x); } else { RotateRightBalances(x); }
    }
  }

  lemma InsertTurnRightBalances(p: Path, t: Tree, d: Debt)
    requires p.InRight? && Grew(p, t)
    ensures match InsertTurn(p, t, d)
            case Climb(y) => Grew(p.up, y)
            case Settle(y) => Balanced(y) && PathBalanced(p.up, Height(y))
  {
    hide RotateLeft, RotateRight, RotateLeftRight, RotateRightLeft, Recomputed, Debt.Charge;
    if p.cell.hdiff > 0 {
      var x := Charged(p, t, d);
      if t.cell.hdiff > 0 { RotateLeftBalances(x); } else { RotateRightLeftBalances(x); }
    }
  }

  lemma DeleteTurnBalances(p: Path, t: Tree, d: Debt)
    requires p != Top && Shrank(p, t)
    ensures match DeleteTurn(p, t, d)
            case Climb(y) => Shrank(p.up, y)
            case Settle(y) => Balanced(y) && PathBalanced(p.up, Height(y))
  {
    if p.InLeft? { DeleteTurnLeftBalances(p, t, d); } else { DeleteTurnRightBalances(p, t, d); }
  }

  lemma DeleteTurnLeftBalances(p: Path, t: Tree, d: Debt)
    requires p.InLeft? && Shrank(p, t)
    ensures match DeleteTurn(p, t, d)
            case Climb(y) => Shrank(p.up, y)
            case Settle(y) => Balanced(y) && PathBalanced(p.up, Height(y))
  {
    hide RotateLeft, RotateRight, RotateLeftRight, RotateRightLeft, Recomputed, Debt.Charge;
    if p.cell.hdiff > 0 {
      var x := Charged(p, t, d);
      if p.right.cell.hdiff < 0 { RotateRightLeftBalances(x); } else { RotateLeftBalances(x); }
    }
  }

  lemma DeleteTurnRightBalances(p: Path, t: Tree, d: Debt)
    requires p.InRight? && Shrank(p, t)
    ensures match DeleteTurn(p, t, d)
            case Climb(y) => Shrank(p.up, y)
            case Settle(y) => Balanced(y) && PathBalanced(p.up, Height(y))
  {
    hide RotateLeft, RotateRight, RotateLeftRight, RotateRightLeft, Recomputed, Debt.Charge;
    if p.cell.hdiff < 0 {
      var x := Charged(p, t, d);
      if p.left.cell.hdiff > 0 { RotateLeftRightBalances(x); } else { RotateRightBalances(x); }
    }
  }

  lemma RefreshRearranges(p: Path, t: Tree, h: int, d: Debt)
    requires p != Top && Summed(t) && PathSummed(p, Total(t), d)
    ensures Rearranges(Refresh(p, t, h, d), Around(p, t))
    ensures Rotatable(Charged(p, t, d))
    ensures InOrder(Charged(p, t, d)) == InOrder(Around(p, t)) && Total(Charged(p, t, d)) == Total(Around(p, t))
    ensures PathSummed(p.up, Total(Around(p, t)), d.Next(p.cell.node))
  {
  }

  lemma InsertTurnRearranges(p: Path, t: Tree, d: Debt)
    requires p != Top && Grew(p, t) && Summed(t) && PathSummed(p, Total(t), d)
    ensures Rearranges(InsertTurn(p, t, d).tree, Around(p, t))
  {
    hide RotateLeft, RotateRight, RotateLeftRight, RotateRightLeft, InOrder, Total, Summed, PathSummed;
    var x, h := Charged(p, t, d), p.cell.hdiff;
    RefreshRearranges(p, t, if h != 0 then 0 else if p.InRight? then 1 else -1, d);
    if p.InRight? && h > 0 {
      if t.cell.hdiff > 0 { RotateLeftRearranges(x); } else { RotateRightLeftRearranges(x); }
    } else if p.InLeft? && h < 0 {
      if t.cell.hdiff > 0 { RotateLeftRightRearranges(x); } else { RotateRightRearranges(x); }
    }
  }

  lemma DeleteTurnRearranges(p: Path, t: Tree, d: Debt)
    requires p != Top && Shrank(p, t) && Summed(t) && PathSummed(p, Total(t), d)
    ensures Rearranges(DeleteTurn(p, t, d).tree, Around(p, t))
  {
    hide RotateLeft, RotateRight, RotateLeftRight, RotateRightLeft, InOrder, Total, Summed, PathSummed;
    var x, h := Charged(p, t, d), p.cell.hdiff;
    RefreshRearranges(p, t, if h != 0 then 0 else if p.InLeft? then 1 else -1, d);
    if p.InLeft? && h > 0 {
      if p.right.cell.hdiff < 0 { RotateRightLeftRearranges(x); } else { RotateLeftRearranges(x); }
    } else if p.InRight? && h < 0 {
      if p.left.cell.hdiff > 0 { RotateLeftRightRearranges(x); } else { RotateRightRearranges(x); }
    }
  }

  // ----- whole climbs

  /** The closing loop of both climbs: fix aggregates up to the root. */
  function FixUp(p: Path, t: Tree, d: Debt): Tree {
    if p == Top then t else FixUp(p.up, Refresh(p, t, p.cell.hdiff, d), d.Next(p.cell.node))
  }

  ghost function InsertUp(p: Path, t: Tree, d: Debt): Tree
    requires Grew(p, t)
    decreases p
  {
    if p == Top then t else
      InsertTurnBalances(p, t, d);
      match InsertTurn(p, t, d)
      case Climb(y) => InsertUp(p.up, y, d.Next(p.cell.node))
      case Settle(y) => FixUp(p.up, y, d.Next(p.cell.node))
  }

  ghost function DeleteUp(p: Path, t: Tree, d: Debt): Tree
    requires Shrank(p, t)
    decreases p
  {
    if p == Top then t else
      DeleteTurnBalances(p, t, d);
      match DeleteTurn(p, t, d)
      case Climb(y) => DeleteUp(p.up, y, d.Next(p.cell.node))
      case Settle(y) => FixUp(p.up, y, d.Next(p.cell.node))
  }

  /** r is the exact balanced tree of the nodes around and in the hole of p filled with t. */
  ghost predicate Rebuilt(r: Tree, p: Path, t: Tree) {
    Balanced(r) && Summed(r) && InOrder(r) == Before(p) + InOrder(t) + After(p)
  }

  lemma RebuiltTop(t: Tree)
    requires Balanced(t) && Summed(t)
    ensures Rebuilt(t, Top, t)
  {
  }

  lemma RebuiltUp(r: Tree, p: Path, t: Tree, y: Tree)
    requires p != Top && Rebuilt(r, p.up, y) && InOrder(y) == InOrder(Around(p, t))
    ensures Rebuilt(r, p, t)
  {
    AroundInOrder(p, t);
  }

  lemma {:induction false} FixUpRebuilds(p: Path, t: Tree, d: Debt)
    requires Balanced(t) && PathBalanced(p, Height(t)) && Summed(t) && PathSummed(p, Total(t), d)
    ensures Rebuilt(FixUp(p, t, d), p, t)
    decreases p
  {
    hide Rebuilt, Rearranges;
    if p == Top {
      RebuiltTop(t);
    } else {
      var y := Refresh(p, t, p.cell.hdiff, d);
      RefreshRearranges(p, t, p.cell.hdiff, d);
      FixUpRebuilds(p.up, y, d.Next(p.cell.node));
      RebuiltUp(FixUp(p, t, d), p, t, y);
    }
  }

  lemma {:induction false} InsertUpRebuilds(p: Path, t: Tree, d: Debt)
    requires Grew(p, t) && Summed(t) && PathSummed(p, Total(t), d)
    ensures Rebuilt(InsertUp(p, t, d), p, t)
    decreases p
  {
    hide Rebuilt, InsertTurn, Grew, PathSummed;
    if p == Top {
      GrewIsBalanced(t);
      RebuiltTop(t);
    } else {
      InsertTurnBalances(p, t, d);
      InsertTurnRearranges(p, t, d);
      RefreshRearranges(p, t, 0, d);
      var y, d' := InsertTurn(p, t, d).tree, d.Next(p.cell.node);
      if InsertTurn(p, t, d).Climb? { InsertUpRebuilds(p.up, y, d'); } else { FixUpRebuilds(p.up, y, d'); }
      RebuiltUp(InsertUp(p, t, d), p, t, y);
    }
  }

  lemma GrewIsBalanced(t: Tree)
    requires Grew(Top, t)
    ensures Balanced(t)
  {
  }

  lemma {:induction false} DeleteUpRebuilds(p: Path, t: Tree, d: Debt)
    requires Shrank(p, t) && Summed(t) && PathSummed(p, Total(t), d)
    ensures Rebuilt(DeleteUp(p, t, d), p, t)
    decreases p
  {
    hide Rebuilt, DeleteTurn, PathSummed;
    if p == Top {
      RebuiltTop(t);
    } else {
      DeleteTurnBalances(p, t, d);
      DeleteTurnRearranges(p, t, d);
      RefreshRearranges(p, t, 0, d);
      var y, d' := DeleteTurn(p, t, d).tree, d.Next(p.cell.node);
      if DeleteTurn(p, t, d).Climb? { DeleteUpRebuilds(p.up, y, d'); } else { FixUpRebuilds(p.up, y, d'); }
      RebuiltUp(DeleteUp(p, t, d), p, t, y);
    }
  }

  // ----- focusing on a subtree

  /** Nothing pending. */
  const NO_DEBT := Debt(false, null, 0, 0)

  lemma {:induction false} PlugInOrder(p: Path, t: Tree)
    ensures InOrder(Plug(p, t)) == Before(p) + InOrder(t) + After(p)
  {
    if p == Top {
      assert [] + InOrder(t) + [] == InOrder(t);
    } else {
      PlugInOrder(p.up, Around(p, t));
      AroundInOrder(p, t);
    }
  }

  lemma PlugExact(p: Path, t: Tree)
    requires Exact(Plug(p, t))
    ensures Exact(t) && PathBalanced(p, Height(t)) && PathSummed(p, Total(t), NO_DEBT)
  {
    PlugBalanced(p, t);
    PlugSummed(p, t);
  }

  lemma {:induction false} PlugBalanced(p: Path, t: Tree)
    requires Balanced(Plug(p, t))
    ensures Balanced(t) && PathBalanced(p, Height(t))
  {
    if p != Top { PlugBalanced(p.up, Around(p, t)); }
  }

  lemma {:induction false} PlugSummed(p: Path, t: Tree)
    requires Summed(Plug(p, t))
    ensures Summed(t) && PathSummed(p, Total(t), NO_DEBT)
  {
    if p != Top { PlugSummed(p.up, Around(p, t)); }
  }

  lemma AroundInOrder(p: Path, t: Tree)
    requires p != Top
    ensures Before(p.up) + InOrder(Around(p, t)) + After(p.up) == Before(p) + InOrder(t) + After(p)
  {
    var b, a, m := Before(p.up), After(p.up), InOrder(t);
    if p.InLeft? {
      var n, r := [p.cell.node], InOrder(p.right);
      assert b + (m + n + r) + a == b + m + ((n + r) + a);
    } else {
      var n, l := [p.cell.node], InOrder(p.left);
      assert b + (l + n + m) + a == (b + (l + n)) + m + a;
    }
  }

  /** The total of the hole changes by as much as every ancestor is charged. */
  lemma {:induction false} PathShift(p: Path, v: nat, v': nat, d: Debt)
    requires PathSummed(p, v, NO_DEBT) && !d.below && v - v' == d.upper
    ensures PathSummed(p, v', d)
  {
    if p != Top {
      var rest := p.cell.node.weight + Total(if p.InLeft? then p.right else p.left);
      PathShift(p.up, v + rest, v' + rest, d);
    }
  }

  // ----- insertion

  /** The new node n by itself. */
  function Single(n: Node): Tree {
    Branch(Leaf, Cell(n, 0, n.weight, n.weight), Leaf)
  }

  function InsertDebt(n: Node): Debt {
    Debt(false, null, 0, -(n.weight as int))
  }

  lemma SingleGrew(p: Path, n: Node)
    requires PathBalanced(p, 0)
    ensures Grew(p, Single(n))
  {
  }

  ghost function Insert(p: Path, n: Node): Tree
    requires PathBalanced(p, 0)
  {
    SingleGrew(p, n);
    InsertUp(p, Single(n), InsertDebt(n))
  }

  /** Inserting in an empty place of an exact tree puts the node exactly there and keeps the tree exact. */
  lemma InsertIsExact(p: Path, n: Node)
    requires Exact(Plug(p, Leaf))
    ensures PathBalanced(p, 0)
    ensures Exact(Insert(p, n)) && InOrder(Insert(p, n)) == Before(p) + [n] + After(p)
  {
    PlugExact(p, Leaf);
    SingleGrew(p, n);
    PathShift(p, 0, n.weight, InsertDebt(n));
    InsertUpRebuilds(p, Single(n), InsertDebt(n));
    assert InOrder(Single(n)) == [n];
  }

  // ----- removal

  /** p continued above its own top by base. */
  function Join(p: Path, base: Path): Path {
    match p
    case Top => base
    case InLeft(up, c, r) => InLeft(Join(up, base), c, r)
    case InRight(up, l, c) => InRight(Join(up, base), l, c)
  }

  /** The way from t, which hangs in p, to its leftmost node, and the subtree rooted there. */
  function Descend(p: Path, t: Tree): (r: (Path, Tree))
    requires t.Branch?
    ensures r.1.Branch? && r.1.left.Leaf?
    ensures Plug(r.0, r.1) == Plug(p, t) && Before(r.0) == Before(p)
    decreases t
  {
    if t.left.Leaf? then (p, t) else Descend(InLeft(p, t.cell, t.right), t.left)
  }

  lemma {:induction false} JoinBalanced(q: Path, base: Path, t: Tree)
    requires PathBalanced(q, Height(t)) && PathBalanced(base, Height(Plug(q, t)))
    ensures PathBalanced(Join(q, base), Height(t))
  {
    hide Plug, Balanced;
    if q == Top {
      PlugTop(t);
    } else {
      PlugStep(q, t);
      JoinBalanced(q.up, base, Around(q, t));
    }
  }

  lemma {:induction false} JoinOrder(q: Path, base: Path)
    ensures Before(Join(q, base)) == Before(base) + Before(q)
    ensures After(Join(q, base)) == After(q) + After(base)
  {
    hide InOrder;
    match q
    case Top =>
      assert Before(base) + [] == Before(base);
      assert [] + After(base) == After(base);
    case InLeft(up, c, r) =>
      JoinOrder(up, base);
      Threefold([c.node] + InOrder(r), After(up), After(base));
    case InRight(up, l, c) =>
      JoinOrder(up, base);
      Threefold(Before(base), Before(up), InOrder(l) + [c.node]);
  }

  lemma Threefold(a: seq<Node>, b: seq<Node>, c: seq<Node>)
    ensures a + (b + c) == (a + b) + c
  {
  }

  /** Below the replacing node m every ancestor is charged the weight of m. */
  lemma {:induction false} JoinSummed(q: Path, base: Path, t: Tree, v: nat, d: Debt)
    requires PathSummed(q, Total(t), NO_DEBT) && d.below && Total(t) - v == d.lower
    requires d.turn !in Before(q) + After(q)
    requires 0 <= Total(Plug(q, t)) - d.lower && PathSummed(base, Total(Plug(q, t)) - d.lower, d)
    ensures PathSummed(Join(q, base), v, d)
  {
    hide InOrder, Before, After, Total, Plug, Summed;
    if q == Top {
      assert Join(q, base) == base && Plug(q, t) == t by { PlugTop(t); }
    } else {
      var rest := q.cell.node.weight + Total(if q.InLeft? then q.right else q.left);
      OnTheWay(q);
      assert d.Charge(q.cell.node) == d.lower && d.Next(q.cell.node) == d;
      PlugUp(q, t, rest);
      JoinSummed(q.up, base, Around(q, t), v + rest, d);
    }
  }

  lemma PlugStep(q: Path, t: Tree)
    requires q != Top
    ensures Plug(q, t) == Plug(q.up, Around(q, t))
  {
  }

  lemma PlugTop(t: Tree)
    ensures Plug(Top, t) == t
  {
  }

  lemma PlugUp(q: Path, t: Tree, rest: nat)
    requires q != Top && rest == q.cell.node.weight + Total(if q.InLeft? then q.right else q.left)
    ensures Plug(q, t) == Plug(q.up, Around(q, t)) && Total(Around(q, t)) == Total(t) + rest
  {
  }

  lemma OnTheWay(q: Path)
    requires q != Top
    ensures q.cell.node in Before(q) + After(q)
    ensures forall n :: n in Before(q.up) + After(q.up) ==> n in Before(q) + After(q)
  {
  }

  /** Where the climb of a removal starts: path, subtree in its hole, and debt. */
  datatype Start = Start(path: Path, hole: Tree, debt: Debt)

  /** The way to the node at the root of t once its successor b, reached by q, stands in for it. */
  function Replaced(p: Path, t: Tree, b: Tree): Path
    requires t.Branch? && b.Branch?
  {
    InRight(p, t.left, Cell(b.cell.node, t.cell.hdiff, b.cell.sum1, t.cell.sum2))
  }

  /** The five shapes of `_remove`, for the node at the root of t in p. */
  function Unlink(p: Path, t: Tree): Start
    requires t.Branch?
  {
    var w := t.cell.node.weight;
    if t.left.Branch? && t.right.Branch? then
      var (q, b) := Descend(Top, t.right);
      Start(Join(q, Replaced(p, t, b)), b.right, Debt(q != Top, b.cell.node, b.cell.node.weight, w))
    else Start(p, OnlyChild(t), Debt(false, null, 0, w))
  }

  function OnlyChild(t: Tree): Tree
    requires t.Branch?
  {
    if t.left.Branch? then t.left else t.right
  }

  ghost predicate NoDuplicates(s: seq<Node>) {
    forall i, j :: 0 <= i < j < |s| ==> s[i] != s[j]
  }

  /** The two-child shape: what `Unlink` knows of the leftmost node b of the right subtree. */
  lemma Successor(p: Path, t: Tree)
    requires Exact(Plug(p, t)) && t.Branch? && t.right.Branch?
    ensures var q, b := Descend(Top, t.right).0, Descend(Top, t.right).1;
            && Exact(t) && Exact(b) && Height(b) == Height(b.right) + 1
              && Total(b) == b.cell.node.weight + Total(b.right)
            && PathBalanced(q, Height(b)) && PathSummed(q, Total(b), NO_DEBT)
            && InOrder(t.right) == [b.cell.node] + InOrder(b.right) + After(q) && Before(q) == []
            && Plug(q, b) == t.right && (q == Top ==> b == t.right)
  {
    hide *;
    var q, b := Descend(Top, t.right).0, Descend(Top, t.right).1;
    PlugExact(p, t);
    DescendIs(t.right);
    RightIsExact(t);
    PlugExact(q, b);
    PlugInOrder(q, b);
    LeftmostIs(b);
    assert [] + ([] + [b.cell.node] + InOrder(b.right)) + After(q) == [b.cell.node] + InOrder(b.right) + After(q);
  }

  lemma DescendIs(t: Tree)
    requires t.Branch?
    ensures var q, b := Descend(Top, t).0, Descend(Top, t).1;
            Plug(q, b) == t && Before(q) == [] && b.Branch? && b.left.Leaf? && (q == Top ==> b == t)
  {
    hide Descend;
  }

  lemma RightIsExact(t: Tree)
    requires Exact(t) && t.Branch?
    ensures Exact(t.right)
  {
  }

  lemma LeftmostIs(b: Tree)
    requires b.Branch? && b.left.Leaf?
    ensures Height(b) == Height(b.right) + 1 && Total(b) == b.cell.node.weight + Total(b.right)
    ensures InOrder(b) == [] + [b.cell.node] + InOrder(b.right)
  {
  }

  lemma {:induction false} PlugTotal(p: Path, t: Tree)
    ensures Total(t) <= Total(Plug(p, t))
  {
    if p != Top { PlugTotal(p.up, Around(p, t)); }
  }

  lemma ReplacedBalanced(p: Path, t: Tree, b: Tree)
    requires t.Branch? && b.Branch? && Balanced(t) && PathBalanced(p, Height(t))
    ensures PathBalanced(Replaced(p, t, b), Height(t.right))
  {
  }

  lemma UnlinkShrank(p: Path, t: Tree)
    requires Exact(Plug(p, t)) && t.Branch?
    ensures var s := Unlink(p, t); Shrank(s.path, s.hole)
  {
    hide Descend, Join, Summed, Plug, PathSummed, InOrder;
    PlugExact(p, t);
    if t.left.Branch? && t.right.Branch? { SuccessorShrank(p, t); }
  }

  lemma SuccessorShrank(p: Path, t: Tree)
    requires Exact(Plug(p, t)) && t.Branch? && t.left.Branch? && t.right.Branch?
    ensures var q, b := Descend(Top, t.right).0, Descend(Top, t.right).1;
            Shrank(Join(q, Replaced(p, t, b)), b.right)
  {
    hide Descend, Join, Summed, Plug, PathSummed, InOrder, PathBalanced, Height, Replaced;
    var q, b := Descend(Top, t.right).0, Descend(Top, t.right).1;
    PlugExact(p, t);
    Successor(p, t);
    ReplacedBalanced(p, t, b);
    JoinBalanced(q, Replaced(p, t, b), b);
  }

  lemma UnlinkSummed(p: Path, t: Tree)
    requires Exact(Plug(p, t)) && t.Branch? && NoDuplicates(InOrder(t))
    ensures var s := Unlink(p, t); Summed(s.hole) && PathSummed(s.path, Total(s.hole), s.debt)
  {
    hide Descend, Join, Balanced, InOrder, NoDuplicates, Plug;
    PlugExact(p, t);
    if t.left.Branch? && t.right.Branch? {
      SuccessorSummed(p, t);
    } else {
      assert Total(t) == t.cell.node.weight + Total(OnlyChild(t));
      PathShift(p, Total(t), Total(OnlyChild(t)), Unlink(p, t).debt);
    }
  }

  lemma SuccessorSummed(p: Path, t: Tree)
    requires Exact(Plug(p, t)) && t.Branch? && NoDuplicates(InOrder(t)) && t.left.Branch? && t.right.Branch?
    ensures var s := Unlink(p, t); Summed(s.hole) && PathSummed(s.path, Total(s.hole), s.debt)
  {
    hide Descend, Balanced, InOrder, NoDuplicates, Plug;
    PlugExact(p, t);
    Successor(p, t);
    var q, b := Descend(Top, t.right).0, Descend(Top, t.right).1;
    var m, d := b.cell.node, Unlink(p, t).debt;
    PlugTotal(q, b);
    PathShift(p, Total(t), Total(t) - t.cell.node.weight, d.(below := false));
    assert PathSummed(Replaced(p, t, b), Total(t.right) - m.weight, d);
    if q != Top {
      SuccessorApart(t);
      JoinSummed(q, Replaced(p, t, b), b, Total(b.right), d);
    }
  }

  lemma SuccessorApart(t: Tree)
    requires t.Branch? && t.right.Branch? && NoDuplicates(InOrder(t))
    requires var q, b := Descend(Top, t.right).0, Descend(Top, t.right).1;
             InOrder(t.right) == [b.cell.node] + InOrder(b.right) + After(q) && Before(q) == []
    ensures var q, b := Descend(Top, t.right).0, Descend(Top, t.right).1;
            b.cell.node !in Before(q) + After(q)
  {
    var q, b := Descend(Top, t.right).0, Descend(Top, t.right).1;
    var s := InOrder(t);
    var k := |InOrder(t.left)| + 1;
    assert s == (InOrder(t.left) + [t.cell.node]) + ([b.cell.node] + InOrder(b.right) + After(q));
    assert s[k] == b.cell.node;
    forall i | 0 <= i < |After(q)| ensures After(q)[i] != b.cell.node {
      assert s[k + 1 + |InOrder(b.right)| + i] == After(q)[i];
    }
  }

  lemma UnlinkOrder(p: Path, t: Tree)
    requires Exact(Plug(p, t)) && t.Branch?
    ensures var s := Unlink(p, t);
            Before(s.path) + InOrder(s.hole) + After(s.path)
            == Before(p) + (InOrder(t.left) + InOrder(t.right)) + After(p)
  {
    hide Descend, Join, Balanced, Summed, Plug;
    if t.left.Branch? && t.right.Branch? {
      var q, b := Descend(Top, t.right).0, Descend(Top, t.right).1;
      Successor(p, t);
      JoinOrder(q, Replaced(p, t, b));
      Regroup(Before(p), InOrder(t.left), [b.cell.node], InOrder(b.right), After(q), After(p));
    } else {
      assert InOrder(OnlyChild(t)) == InOrder(t.left) + InOrder(t.right);
    }
  }

  lemma Regroup(b: seq<Node>, l: seq<Node>, m: seq<Node>, r: seq<Node>, s: seq<Node>, a: seq<Node>)
    ensures ((b + (l + m)) + []) + r + (s + a) == b + (l + (m + r + s)) + a
  {
  }

  ghost function Erase(p: Path, t: Tree): Tree
    requires t.Branch? && Exact(Plug(p, t))
  {
    UnlinkShrank(p, t);
    var s := Unlink(p, t);
    DeleteUp(s.path, s.hole, s.debt)
  }

  /**
   Erasing any node of an exact tree takes exactly that node out of the order and leaves
   every height difference and every sum of both kinds exact.
   */
  lemma EraseIsExact(p: Path, t: Tree)
    requires t.Branch? && Exact(Plug(p, t)) && NoDuplicates(InOrder(Plug(p, t)))
    ensures Exact(Erase(p, t))
    ensures InOrder(Erase(p, t)) == Before(p) + (InOrder(t.left) + InOrder(t.right)) + After(p)
  {
    var s := Unlink(p, t);
    PlugInOrder(p, t);
    MiddleHasNoDuplicates(Before(p), InOrder(t), After(p));
    UnlinkShrank(p, t);
    UnlinkSummed(p, t);
    UnlinkOrder(p, t);
    DeleteUpRebuilds(s.path, s.hole, s.debt);
  }

  lemma MiddleHasNoDuplicates(b: seq<Node>, m: seq<Node>, a: seq<Node>)
    requires NoDuplicates(b + m + a)
    ensures NoDuplicates(m)
  {
    forall i, j | 0 <= i < j < |m| ensures m[i] != m[j] {
      assert (b + m + a)[|b| + i] == m[i] && (b + m + a)[|b| + j] == m[j];
    }
  }
}
