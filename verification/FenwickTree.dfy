/** The growable Fenwick tree of fenwick_tree.h. */
module FenwickTree {

  /** `lowbit`: the largest power of two that divides p. */
  function LowBit(p: nat): (b: nat)
    requires 0 < p
    ensures 0 < b <= p
  {
    if p % 2 == 1 then 1 else 2 * LowBit(p / 2)
  }

  /** Cell i answers for the weights from First(i) to i. */
  function First(i: nat): (f: nat)
    ensures f <= i
  {
    i + 1 - LowBit(i + 1)
  }

  ghost predicate Covers(i: nat, j: nat) {
    First(i) <= j <= i
  }

  /** The next cell an update of something in cell i has to touch. */
  function Next(i: nat): nat {
    i + LowBit(i + 1)
  }

  lemma {:induction false} SkippedStart(p: nat, q: nat)
    requires 0 < p < q < p + LowBit(p)
    ensures p <= q - LowBit(q)
  {
    if p % 2 == 0 {
      if q % 2 == 0 {
        SkippedStart(p / 2, q / 2);
        assert q == 2 * (q / 2) && p == 2 * (p / 2);
      }
    }
  }

  /** A double has twice the low bit of its half. */
  lemma LowBitOfDouble(h: nat)
    requires 0 < h
    ensures LowBit(2 * h) == 2 * LowBit(h)
  {
    assert (2 * h) % 2 == 0 && 2 * h / 2 == h;
  }

  lemma LowBitOfOdd(h: nat)
    ensures LowBit(2 * h + 1) == 1
  {
    assert (2 * h + 1) % 2 == 1;
  }

  lemma {:induction false} NextStart(p: nat)
    requires 0 < p
    ensures p + LowBit(p) - LowBit(p + LowBit(p)) <= p - LowBit(p)
  {
    hide LowBit;
    var h := p / 2;
    if p % 2 == 0 {
      NextStart(h);
      LowBitOfDouble(h);
      LowBitOfDouble(h + LowBit(h));
    } else {
      LowBitOfOdd(h);
      LowBitOfDouble(h + 1);
    }
  }

  /** The update walk misses no cell and touches no other: the next cell covering j is Next(i). */
  lemma WalkIsExact(i: nat, j: nat)
    requires Covers(i, j)
    ensures i < Next(i) && Covers(Next(i), j)
    ensures forall m :: i < m < Next(i) ==> !Covers(m, j)
  {
    NextStart(i + 1);
    forall m | i < m < Next(i) ensures !Covers(m, j) { SkippedStart(i + 1, m + 1); }
  }

  /** No cell before j covers j, and cell j does. */
  lemma WalkStarts(j: nat)
    ensures Covers(j, j) && forall m: nat :: m < j ==> !Covers(m, j)
  {
  }

  function Sum(w: seq<int>, a: nat, b: nat): int
    requires a <= b <= |w|
  {
    if a == b then 0 else Sum(w, a, b - 1) + w[b - 1]
  }

  lemma {:induction false} SumJoin(w: seq<int>, a: nat, b: nat, c: nat)
    requires a <= b <= c <= |w|
    ensures Sum(w, a, c) == Sum(w, a, b) + Sum(w, b, c)
  {
    if b < c { SumJoin(w, a, b, c - 1); }
  }

  lemma {:induction false} SumUpdate(w: seq<int>, j: nat, d: int, a: nat, b: nat)
    requires a <= b <= |w| && j < |w|
    ensures Sum(w[j := w[j] + d], a, b) == Sum(w, a, b) + if a <= j < b then d else 0
  {
    if a < b { SumUpdate(w, j, d, a, b - 1); }
  }

  lemma {:induction false} SumPad(w: seq<int>, v: seq<int>, a: nat, b: nat)
    requires a <= b <= |w| && w <= v
    ensures Sum(v, a, b) == Sum(w, a, b)
  {
    if a < b { SumPad(w, v, a, b - 1); }
  }

  lemma {:induction false} SumZeros(w: seq<int>, a: nat, b: nat)
    requires a <= b <= |w| && forall i :: a <= i < b ==> w[i] == 0
    ensures Sum(w, a, b) == 0
  {
    if a < b { SumZeros(w, a, b - 1); }
  }

  function Zeros(n: nat): seq<int> {
    seq(n, _ => 0)
  }

  /** Every cell holds the sum of the weights it answers for. */
  ghost predicate Holds(cells: seq<int>, w: seq<int>) {
    |cells| == |w| && forall i :: 0 <= i < |cells| ==> cells[i] == Sum(w, First(i), i + 1)
  }

  /** The cell that growth appends: what has been weighed from its first weight on. */
  lemma GrownHolds(cells: seq<int>, w: seq<int>, x: int)
    requires Holds(cells, w)
    requires x == Sum(w, 0, |w|) - Sum(w, 0, First(|w|))
    ensures Holds(cells + [x], w + [0])
  {
    var v, n := w + [0], |w|;
    SumPad(w, v, 0, n);
    SumPad(w, v, 0, First(n));
    SumJoin(v, 0, First(n), n);
    forall i | 0 <= i <= n ensures (cells + [x])[i] == Sum(v, First(i), i + 1) {
      if i < n { SumPad(w, v, First(i), i + 1); }
    }
  }

  class FenwickTree {
    var sum: seq<int>
    ghost var weights: seq<int>

    ghost predicate Valid()
      reads this
    {
      Holds(sum, weights)
    }

    constructor (size: nat)
      ensures Valid() && weights == Zeros(size)
    {
      sum, weights := Zeros(size), Zeros(size);
      new;
      ZerosHold(size);
    }

    lemma ZerosHold(size: nat)
      ensures Holds(Zeros(size), Zeros(size))
    {
      forall i | 0 <= i < size ensures Sum(Zeros(size), First(i), i + 1) == 0 {
        SumZeros(Zeros(size), First(i), i + 1);
      }
    }

    method Reset(size: nat)
      modifies this
      ensures Valid() && weights == Zeros(size)
    {
      sum, weights := Zeros(size), Zeros(size);
      ZerosHold(size);
    }

    /** `get_prefix_sum`: the weights up to and including i, or all of them. */
    method GetPrefixSum(i0: nat) returns (res: int)
      requires Valid()
      ensures res == Sum(weights, 0, if i0 < |weights| then i0 + 1 else |weights|)
    {
      var i := i0;
      ghost var n := if i0 < |weights| then i0 + 1 else |weights|;
      if i >= |sum| {
        i := |sum|;
        res := 0;
      } else {
        res := sum[i];
        i := i + 1;
        SumJoin(weights, 0, First(i0), n);
        i := i - LowBit(i);
      }
      while i > 0
        invariant 0 <= i <= |sum| && res + Sum(weights, 0, i) == Sum(weights, 0, n)
      {
        SumJoin(weights, 0, First(i - 1), i);
        res := res + sum[i - 1];
        i := i - LowBit(i);
      }
    }

    /** `set_size`: grow to the given size; never shrinks. */
    method SetSize(size: nat)
      requires Valid()
      modifies this
      ensures Valid() && weights == old(weights) + Zeros(if size < |old(weights)| then 0 else size - |old(weights)|)
    {
      var total := GetPrefixSum(|sum|);
      ghost var n := |sum|;
      while |sum| < size
        invariant Valid() && n <= |sum| && weights == old(weights) + Zeros(|sum| - n)
        invariant |sum| <= size || |sum| == n
        invariant total == Sum(weights, 0, |weights|)
      {
        GrowOne(total);
        assert weights == old(weights) + Zeros(|sum| - n);
      }
    }

    /** One more cell, for a weight of 0. */
    method GrowOne(total: int)
      requires Valid() && total == Sum(weights, 0, |weights|)
      modifies this
      ensures Valid() && weights == old(weights) + [0] && total == Sum(weights, 0, |weights|) && |sum| == |weights|
    {
      var low := |sum| + 1 - LowBit(|sum| + 1);
      var x := total;
      if low == 0 {
      } else if low < |sum| {
        var lower := GetPrefixSum(low - 1);
        x := total - lower;
      } else {
        x := 0;
      }
      GrownHolds(sum, weights, x);
      SumPad(weights, weights + [0], 0, |weights|);
      sum := sum + [x];
      weights := weights + [0];
    }

    /** `add_weight`: the walk adds to exactly the cells that cover i. */
    method AddWeight(i0: nat, dweight: int)
      requires Valid()
      modifies this
      ensures Valid()
      ensures var w := old(weights) + Zeros(if i0 < |old(weights)| then 0 else i0 + 1 - |old(weights)|);
              weights == w[i0 := w[i0] + dweight]
    {
      if i0 >= |sum| {
        SetSize(i0 + 1);
      } else {
        assert old(weights) + Zeros(0) == old(weights);
      }
      Walk(i0, dweight);
    }

    method Walk(i0: nat, dweight: int)
      requires Valid() && i0 < |sum|
      modifies this
      ensures Valid() && weights == old(weights)[i0 := old(weights)[i0] + dweight]
      ensures forall m :: 0 <= m < |sum| ==> sum[m] == old(sum)[m] + if Covers(m, i0) then dweight else 0
    {
      ghost var cells := sum;
      var i := i0;
      WalkStarts(i0);
      while i < |sum|
        invariant i0 <= i && |sum| == |cells| && Covers(i, i0) && weights == old(weights)
        invariant forall m :: 0 <= m < |sum| ==> sum[m] == cells[m] + if m < i && Covers(m, i0) then dweight else 0
      {
        hide First, LowBit;
        WalkIsExact(i, i0);
        sum := sum[i := sum[i] + dweight];
        i := i + LowBit(i + 1);
      }
      Weighed(cells, weights, sum, i0, dweight);
      weights := weights[i0 := weights[i0] + dweight];
    }
  }

  lemma Weighed(cells: seq<int>, w: seq<int>, cells': seq<int>, j: nat, d: int)
    requires Holds(cells, w) && |cells'| == |cells| && j < |w|
    requires forall m :: 0 <= m < |cells| ==> cells'[m] == cells[m] + if Covers(m, j) then d else 0
    ensures Holds(cells', w[j := w[j] + d])
  {
    hide First;
    forall i | 0 <= i < |cells'| ensures cells'[i] == Sum(w[j := w[j] + d], First(i), i + 1) {
      SumUpdate(w, j, d, First(i), i + 1);
    }
  }
}
