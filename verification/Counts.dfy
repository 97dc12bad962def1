/**
 Products as repeated addition: error accounts multiply a symbolic k with symbolic
 amounts, which the verifier handles far better through the three lemmas below.
 */
module Products {

  /** n charges of k each. */
  function Times(k: nat, n: nat): nat {
    if n == 0 then 0 else Times(k, n - 1) + k
  }

  lemma {:induction false} TimesAdd(k: nat, a: nat, b: nat)
    ensures Times(k, a + b) == Times(k, a) + Times(k, b)
  {
    if b > 0 { TimesAdd(k, a, b - 1); }
  }

  lemma {:induction false} TimesStep(k: nat, n: nat)
    ensures Times(k + 1, n) == Times(k, n) + n
  {
    if n > 0 { TimesStep(k, n - 1); }
  }

  lemma {:induction false} TimesIsProduct(k: nat, n: nat)
    ensures Times(k, n) == k * n
  {
    if n > 0 {
      TimesIsProduct(k, n - 1);
      assert k * n == k * (n - 1) + k;
    }
  }

  lemma TimesMonotone(k: nat, a: nat, b: nat)
    requires a <= b
    ensures Times(k, a) <= Times(k, b)
  {
    TimesAdd(k, a, b - a);
  }

  lemma {:induction false} TimesStrict(j: nat, k: nat, n: nat)
    requires j < k && 0 < n
    ensures Times(j, n) < Times(k, n)
  {
    if n > 1 { TimesStrict(j, k, n - 1); }
  }

  /** The largest b with 2^b <= n. */
  function FloorLog2(n: nat): nat {
    if n <= 1 then 0 else 1 + FloorLog2(n / 2)
  }

  function Pow2(b: nat): nat {
    if b == 0 then 1 else 2 * Pow2(b - 1)
  }

  lemma {:induction false} Pow2Rises(a: nat, b: nat)
    requires a <= b
    ensures Pow2(a) <= Pow2(b)
  {
    if a < b { Pow2Rises(a, b - 1); }
  }

  lemma {:induction false} FloorLog2Bounds(n: nat)
    requires 0 < n
    ensures Pow2(FloorLog2(n)) <= n < Pow2(FloorLog2(n) + 1)
  {
    if n > 1 { FloorLog2Bounds(n / 2); }
  }

  lemma {:induction false} FloorLog2Monotone(m: nat, n: nat)
    requires m <= n
    ensures FloorLog2(m) <= FloorLog2(n)
  {
    if m > 1 { FloorLog2Monotone(m / 2, n / 2); }
  }
}

/** Counter tables (`cnt_map_t`) and the arithmetic of their totals. */
module Counts {
  import opened Products

  type Key = nat
  type Table = map<Key, nat>

  /** A key without an entry counts zero. */
  function Get(t: Table, x: Key): nat {
    if x in t then t[x] else 0
  }

  ghost function Sum(t: Table): nat {
    if t == map[] then 0 else
      var x :| x in t;
      t[x] + Sum(t - {x})
  }

  function Excess(v: nat, d: nat): nat {
    if v > d then v - d else 0
  }

  /** Take d from every counter and drop those that do not exceed it. */
  function Subtract(t: Table, d: nat): Table {
    map x | x in t && t[x] > d :: Excess(Get(t, x), d)
  }

  function Add(a: Table, b: Table): Table {
    map x | x in a.Keys + b.Keys :: Get(a, x) + Get(b, x)
  }

  lemma {:induction false} SumRemove(t: Table, x: Key)
    requires x in t
    ensures Sum(t) == t[x] + Sum(t - {x})
  {
    var y :| y in t && Sum(t) == t[y] + Sum(t - {y});
    if y != x {
      SumRemove(t - {y}, x);
      SumRemove(t - {x}, y);
      assert t - {y} - {x} == t - {x} - {y};
    }
  }

  lemma SumUpdate(t: Table, x: Key, v: nat)
    ensures Sum(t[x := v]) == Sum(t) - Get(t, x) + v
    ensures Get(t, x) <= Sum(t)
  {
    SumRemove(t[x := v], x);
    assert t[x := v] - {x} == t - {x};
    if x in t { SumRemove(t, x); } else { assert t - {x} == t; }
  }

  lemma SubtractOne(t: Table, x: Key, d: nat)
    requires x in t && d <= t[x]
    ensures Sum(Subtract(t, d)) == Sum(Subtract(t - {x}, d)) + t[x] - d
  {
    var s, r := Subtract(t, d), Subtract(t - {x}, d);
    if t[x] > d {
      SumRemove(s, x);
      assert s - {x} == r;
    } else {
      assert s == r;
    }
  }

  lemma SizeRemove(t: Table, x: Key)
    requires x in t
    ensures |t| == |t - {x}| + 1
  {
    assert t.Keys == (t - {x}).Keys + {x};
    assert |t| == |t.Keys| && |t - {x}| == |(t - {x}).Keys|;
  }

  /** Subtracting an amount no counter falls short of costs it once per key. */
  lemma {:induction false} SumSubtract(t: Table, d: nat)
    requires forall x <- t :: d <= t[x]
    ensures Sum(t) == Sum(Subtract(t, d)) + Times(|t|, d)
  {
    if t == map[] {
      assert Subtract(t, d) == map[];
      TimesIsProduct(0, d);
    } else {
      var x :| x in t;
      var rest := t - {x};
      SumRemove(t, x);
      SumSubtract(rest, d);
      SubtractOne(t, x, d);
      SizeRemove(t, x);
      TimesStep(|rest|, d);
    }
  }

  lemma AddOne(a: Table, b: Table, x: Key)
    requires x in b
    ensures Add(a, b) == Add(a, b - {x})[x := Get(a, x) + b[x]]
    ensures Get(Add(a, b - {x}), x) == Get(a, x)
  {
    forall y <- Add(a, b) ensures Add(a, b)[y] == Add(a, b - {x})[x := Get(a, x) + b[x]][y] {
      if y != x { assert Get(b - {x}, y) == Get(b, y); }
    }
  }

  lemma {:induction false} SumAdd(a: Table, b: Table)
    ensures Sum(Add(a, b)) == Sum(a) + Sum(b)
  {
    if b == map[] {
      assert Add(a, b) == a;
    } else {
      var x :| x in b;
      SumAdd(a, b - {x});
      SumRemove(b, x);
      AddOne(a, b, x);
      SumUpdate(Add(a, b - {x}), x, Get(a, x) + b[x]);
    }
  }

  lemma {:induction false} SumMonotone(a: Table, b: Table)
    requires forall x :: Get(a, x) <= Get(b, x)
    ensures Sum(a) <= Sum(b)
  {
    if a == map[] {
    } else {
      var x :| x in a;
      var v := Get(a, x);
      assert Get(a, x) <= Get(b, x);
      SumRemove(a, x);
      if x in b {
        SumRemove(b, x);
        forall y ensures Get(a - {x}, y) <= Get(b - {x}, y) { assert Get(a, y) <= Get(b, y); }
        SumMonotone(a - {x}, b - {x});
      } else {
        forall y ensures Get(a - {x}, y) <= Get(b, y) { assert Get(a, y) <= Get(b, y); }
        SumMonotone(a - {x}, b);
      }
    }
  }
}
