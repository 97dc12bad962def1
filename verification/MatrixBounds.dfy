/** Real matrices as lists of rows: how much of one a smaller one keeps, and what halving by singular values keeps. */
module MatrixBounds {

  type Row = seq<real>

  /** The non-zero lines of the buffer. */
  type Matrix = seq<Row>

  function SquaredLength(row: Row): (r: real)
    ensures 0.0 <= r
  {
    if row == [] then 0.0 else SquaredLength(row[..|row| - 1]) + row[|row| - 1] * row[|row| - 1]
  }

  /** The sum of the rows' squared lengths. */
  function Mass(m: Matrix): (r: real)
    ensures 0.0 <= r
  {
    if m == [] then 0.0 else Mass(m[..|m| - 1]) + SquaredLength(m[|m| - 1])
  }

  function Dot(a: Row, b: Row): real {
    if a == [] || b == [] then 0.0 else Dot(a[..|a| - 1], b[..|b| - 1]) + a[|a| - 1] * b[|b| - 1]
  }

  function Squared(u: real): (r: real)
    ensures 0.0 <= r
  {
    u * u
  }

  /** The squared length of the matrix along x. */
  function Along(m: Matrix, x: Row): (r: real)
    ensures 0.0 <= r
  {
    if m == [] then 0.0 else Along(m[..|m| - 1], x) + Squared(Dot(m[|m| - 1], x))
  }

  lemma OneRow(m: Matrix, row: Row, x: Row)
    ensures Along(m + [row], x) == Along(m, x) + Squared(Dot(row, x))
    ensures Mass(m + [row]) == Mass(m) + SquaredLength(row)
  {
    assert (m + [row])[..|m|] == m;
  }

  lemma {:induction false} RowsAddUp(a: Matrix, b: Matrix, x: Row)
    ensures Along(a + b, x) == Along(a, x) + Along(b, x)
    ensures Mass(a + b) == Mass(a) + Mass(b)
    decreases |b|
  {
    hide Dot, SquaredLength, Squared;
    if b == [] {
      assert a + b == a;
    } else {
      var n := |b| - 1;
      RowsAddUp(a, b[..n], x);
      assert a + b == (a + b[..n]) + [b[n]] && b == b[..n] + [b[n]];
      OneRow(a + b[..n], b[n], x);
      OneRow(b[..n], b[n], x);
    }
  }

  // ----- the inequality of Cauchy and Schwarz

  lemma {:induction false} DotSelf(a: Row)
    ensures Dot(a, a) == SquaredLength(a)
  {
    if a != [] { DotSelf(a[..|a| - 1]); }
  }

  lemma {:induction false} DotIsSmall(a: Row, b: Row)
    ensures Squared(Dot(a, b)) <= SquaredLength(a) * SquaredLength(b)
  {
    hide *;
    if a == [] || b == [] {
      NoTerms(a, b);
      NoDot(SquaredLength(a), SquaredLength(b));
    } else {
      var u, v := a[..|a| - 1], b[..|b| - 1];
      DotIsSmall(u, v);
      LastTerm(a, b);
      OneMoreTerm(Dot(u, v), SquaredLength(u), SquaredLength(v), a[|a| - 1], b[|b| - 1],
        Dot(a, b), SquaredLength(a), SquaredLength(b));
    }
  }

  lemma NoTerms(a: Row, b: Row)
    ensures a == [] || b == [] ==> Dot(a, b) == 0.0
    ensures a == [] ==> SquaredLength(a) == 0.0
  {
  }

  lemma LastTerm(a: Row, b: Row)
    requires a != [] && b != []
    ensures var n, m := |a| - 1, |b| - 1;
            && Dot(a, b) == Dot(a[..n], b[..m]) + a[n] * b[m]
            && SquaredLength(a) == SquaredLength(a[..n]) + a[n] * a[n]
            && SquaredLength(b) == SquaredLength(b[..m]) + b[m] * b[m]
  {
  }

  lemma NoDot(a: real, b: real)
    requires 0.0 <= a && 0.0 <= b
    ensures Squared(0.0) == 0.0 <= a * b
  {
  }

  lemma OneMoreTerm(u: real, a: real, b: real, p: real, q: real, v: real, c: real, d: real)
    requires 0.0 <= a && 0.0 <= b && Squared(u) <= a * b
    requires v == u + p * q && c == a + p * p && d == b + q * q
    ensures Squared(v) <= c * d
  {
    var y, z := a * (q * q), b * (p * p);
    Products(u, a, b, p, q);
    MeanBound(y, z, u * (p * q));
    SquareOfSum(u, p * q);
    assert (a + p * p) * (b + q * q) == a * b + y + z + (p * p) * (q * q) by { Expand(a, p * p, b, q * q); }
    assert (p * p) * (q * q) == (p * q) * (p * q);
  }

  lemma Expand(a: real, b: real, c: real, d: real)
    ensures (a + b) * (c + d) == a * c + a * d + c * b + b * d
  {
  }

  lemma SquareOfSum(u: real, w: real)
    ensures Squared(u + w) == Squared(u) + 2.0 * (u * w) + w * w
  {
  }

  lemma Products(u: real, a: real, b: real, p: real, q: real)
    requires 0.0 <= a && 0.0 <= b && Squared(u) <= a * b
    ensures 0.0 <= a * (q * q) && 0.0 <= b * (p * p)
    ensures Squared(u * (p * q)) <= (a * (q * q)) * (b * (p * p))
  {
    var w := (p * q) * (p * q);
    Positive(q);
    Positive(p);
    Positive(p * q);
    TimesPositive(a, q * q);
    TimesPositive(b, p * p);
    TimesPositive(a * b - u * u, w);
    assert Squared(u * (p * q)) == (u * u) * w;
    assert (a * (q * q)) * (b * (p * p)) == (a * b) * w;
    assert (a * b - u * u) * w == (a * b) * w - (u * u) * w;
  }

  lemma Positive(u: real)
    ensures 0.0 <= u * u
  {
  }

  lemma TimesPositive(u: real, v: real)
    requires 0.0 <= u && 0.0 <= v
    ensures 0.0 <= u * v
  {
  }

  /** The geometric mean is at most the arithmetic one. */
  lemma MeanBound(y: real, z: real, w: real)
    requires 0.0 <= y && 0.0 <= z && Squared(w) <= y * z
    ensures 2.0 * w <= y + z
  {
    if y + z < 2.0 * w {
      var d := 2.0 * w;
      Positive(y - z);
      assert (y + z) * (y + z) == (y - z) * (y - z) + 4.0 * (y * z);
      assert d * d == 4.0 * Squared(w);
      LargerSquare(y + z, d);
      assert false;
    }
  }

  lemma LargerSquare(u: real, v: real)
    requires 0.0 <= u < v
    ensures u * u < v * v
  {
    assert v * v - u * u == (v - u) * (v + u);
    TimesStrict(v - u, v + u);
  }

  lemma TimesStrict(u: real, v: real)
    requires 0.0 < u && 0.0 < v
    ensures 0.0 < u * v
  {
  }

  // ----- keeping what a matrix measures

  /** What s lacks of m along x, taken l times, is at most the squared length it lacks in all. */
  ghost predicate KeepsAlong(l: nat, s: Matrix, m: Matrix, x: Row) {
    Along(s, x) <= Along(m, x) && l as real * (Along(m, x) - Along(s, x)) <= Mass(m) - Mass(s)
  }

  /** So it is in every direction. */
  ghost predicate Keeps(l: nat, s: Matrix, m: Matrix) {
    forall x: Row | SquaredLength(x) == 1.0 :: KeepsAlong(l, s, m, x)
  }

  lemma KeepsItself(l: nat, m: Matrix)
    ensures Keeps(l, m, m)
  {
  }

  lemma KeepsOn(l: nat, a: Matrix, b: Matrix, c: Matrix)
    requires Keeps(l, a, b) && Keeps(l, b, c)
    ensures Keeps(l, a, c)
  {
    hide Along, Mass, SquaredLength;
    forall x: Row | SquaredLength(x) == 1.0 ensures KeepsAlong(l, a, c, x) {
      assert KeepsAlong(l, a, b, x) && KeepsAlong(l, b, c, x);
      Distribute(l as real, Along(c, x) - Along(b, x), Along(b, x) - Along(a, x));
    }
  }

  lemma Distribute(l: real, u: real, v: real)
    ensures l * (u + v) == l * u + l * v
  {
  }

  /** The same rows before and behind. */
  lemma KeepsBetween(l: nat, p: Matrix, s: Matrix, m: Matrix, q: Matrix)
    requires Keeps(l, s, m)
    ensures Keeps(l, p + s + q, p + m + q)
  {
    hide Along, Mass, SquaredLength;
    forall x: Row | SquaredLength(x) == 1.0 ensures KeepsAlong(l, p + s + q, p + m + q, x) {
      assert KeepsAlong(l, s, m, x);
      RowsAddUp(p, s, x);
      RowsAddUp(p + s, q, x);
      RowsAddUp(p, m, x);
      RowsAddUp(p + m, q, x);
    }
  }

  /** What s lacks of m along x, taken l times, is at most twice the squared length of m less that of s. */
  ghost predicate RecallsAlong(l: nat, s: Matrix, m: Matrix, x: Row) {
    Along(s, x) <= Along(m, x) && l as real * (Along(m, x) - Along(s, x)) <= 2.0 * Mass(m) - Mass(s)
  }

  ghost predicate Recalls(l: nat, s: Matrix, m: Matrix) {
    forall x: Row | SquaredLength(x) == 1.0 :: RecallsAlong(l, s, m, x)
  }

  lemma RecallsOn(l: nat, a: Matrix, b: Matrix, c: Matrix)
    requires Keeps(l, a, b) && Recalls(l, b, c)
    ensures Recalls(l, a, c)
  {
    hide Along, Mass, SquaredLength;
    forall x: Row | SquaredLength(x) == 1.0 ensures RecallsAlong(l, a, c, x) {
      assert KeepsAlong(l, a, b, x) && RecallsAlong(l, b, c, x);
      Distribute(l as real, Along(c, x) - Along(b, x), Along(b, x) - Along(a, x));
    }
  }

  /** A part of what keeps m, where the rest measures at most an l-th of m in every direction, recalls m. */
  lemma RecallsMost(l: nat, p: Matrix, c: Matrix, m: Matrix)
    requires Keeps(l, p + c, m)
    requires forall x: Row | SquaredLength(x) == 1.0 :: l as real * Along(c, x) <= Mass(m)
    ensures Recalls(l, p, m)
  {
    hide Along, Mass, SquaredLength, RecallsAlong, KeepsAlong;
    forall x: Row | SquaredLength(x) == 1.0 ensures RecallsAlong(l, p, m, x) {
      assert KeepsAlong(l, p + c, m, x);
      MostAlong(l, p, c, m, x);
    }
  }

  lemma MostAlong(l: nat, p: Matrix, c: Matrix, m: Matrix, x: Row)
    requires KeepsAlong(l, p + c, m, x) && l as real * Along(c, x) <= Mass(m)
    ensures RecallsAlong(l, p, m, x)
  {
    hide Along, Mass, SquaredLength;
    RowsAddUp(p, c, x);
    NotNegative(c, x);
    MostOf(l as real, Along(m, x), Along(p, x), Along(c, x), Mass(m), Mass(p), Mass(c), Along(p + c, x), Mass(p + c));
  }

  lemma MostOf(l: real, m: real, p: real, c: real, mm: real, mp: real, mc: real, pc: real, mpc: real)
    requires pc == p + c && l * (m - pc) <= mm - mpc && mpc == mp + mc && l * c <= mm && 0.0 <= mc
    ensures l * (m - p) <= 2.0 * mm - mp
  {
    Distribute(l, m - pc, c);
  }

  /** Where all that came is nothing, so is all that is left of it. */
  lemma NoMassLeft(l: nat, p: Matrix, c: Matrix, m: Matrix, x: Row)
    requires Keeps(l, p + c, m) && Mass(m) <= 0.0 && SquaredLength(x) == 1.0
    ensures l as real * Along(c, x) <= Mass(m)
  {
    hide *;
    KeepsAt(l, p + c, m, x);
    RowsAddUp(p, c, x);
    NotNegative(p, x);
    NotNegative(c, x);
    NotNegative(m, x);
    AlongIsSmall(m, x);
    ZeroTimes(Mass(m), SquaredLength(x));
    ZeroTimes(Along(c, x), l as real);
  }

  lemma KeepsAt(l: nat, s: Matrix, m: Matrix, x: Row)
    requires Keeps(l, s, m) && SquaredLength(x) == 1.0
    ensures Along(s, x) <= Along(m, x)
  {
    hide Along, Mass, SquaredLength;
    assert KeepsAlong(l, s, m, x);
  }

  lemma ZeroTimes(a: real, b: real)
    requires a == 0.0
    ensures a * b == 0.0 == b * a
  {
  }

  lemma NotNegative(m: Matrix, x: Row)
    ensures 0.0 <= Along(m, x) && 0.0 <= Mass(m)
  {
  }

  // ----- halving by singular values

  /** The sum of the first n of the numbers, each weighted by what its row measures along x. */
  function Weighted(w: seq<real>, v: Matrix, x: Row, n: nat): real
    requires n <= |w| && n <= |v|
  {
    if n == 0 then 0.0 else Weighted(w, v, x, n - 1) + w[n - 1] * Squared(Dot(v[n - 1], x))
  }

  function Total(w: seq<real>, n: nat): real
    requires n <= |w|
  {
    if n == 0 then 0.0 else Total(w, n - 1) + w[n - 1]
  }

  /**
   A singular value decomposition of m, without its left factor: w are the squared singular values, falling,
   and v the right singular vectors, which have length 1 and measure no more along x than x itself.
   */
  ghost predicate Decomposes(m: Matrix, w: seq<real>, v: Matrix) {
    && |w| == |v| && Mass(m) == Total(w, |w|)
    && (forall i :: 0 <= i < |w| ==> 0.0 <= w[i])
    && (forall i, j :: 0 <= i <= j < |w| ==> w[j] <= w[i])
    && (forall i :: 0 <= i < |v| ==> SquaredLength(v[i]) == 1.0)
    && (forall x: Row :: Along(v, x) <= SquaredLength(x))
    && (forall x: Row :: Along(m, x) == Weighted(w, v, x, |w|))
  }

  function Scaled(g: real, row: Row): (r: Row)
    ensures |r| == |row|
  {
    if row == [] then [] else Scaled(g, row[..|row| - 1]) + [g * row[|row| - 1]]
  }

  /**
   What `FD::update` makes of a full buffer: the l-th squared singular value is taken off all, and the
   lines before the first that has nothing left are the scaled right singular vectors.
   */
  ghost predicate Halved(l: nat, w: seq<real>, v: Matrix, r: Matrix) {
    && 0 < l <= |w| == |v| && |r| < l
    && (forall i :: 0 <= i < |r| ==> w[l - 1] < w[i] && Root(w[i] - w[l - 1], v[i], r[i]))
    && (|r| < l - 1 ==> w[|r|] == w[l - 1])
  }

  /** The row, scaled by the square root of u. */
  ghost predicate Root(u: real, row: Row, r: Row) {
    exists g: real :: 0.0 <= g && Squared(g) == u && r == Scaled(g, row)
  }

  lemma {:induction false} ScaledLength(g: real, row: Row)
    ensures SquaredLength(Scaled(g, row)) == Squared(g) * SquaredLength(row)
  {
    hide *;
    if row == [] {
      NoTerms(row, row);
      NoTerms(Scaled(g, row), row);
      NoDot(Squared(g), 0.0);
    } else {
      var n := |row| - 1;
      ScaledLast(g, row);
      LastTerm(Scaled(g, row), row);
      ScaledLength(g, row[..n]);
      ScaledSquare(g, row[n], SquaredLength(row[..n]), SquaredLength(row), SquaredLength(Scaled(g, row)));
    }
  }

  lemma ScaledSquare(g: real, a: real, c: real, d: real, e: real)
    requires d == c + a * a && e == Squared(g) * c + (g * a) * (g * a)
    ensures e == Squared(g) * d
  {
    assert (g * a) * (g * a) == Squared(g) * (a * a);
    assert Squared(g) * d == Squared(g) * c + Squared(g) * (a * a);
  }

  lemma {:induction false} ScaledDot(g: real, row: Row, x: Row)
    ensures Dot(Scaled(g, row), x) == g * Dot(row, x)
    decreases |row|
  {
    hide Dot, Scaled;
    NoTerms(row, x);
    NoTerms(Scaled(g, row), x);
    if row != [] && x != [] {
      var n, m := |row| - 1, |x| - 1;
      ScaledLast(g, row);
      ScaledDot(g, row[..n], x[..m]);
      LastTerm(row, x);
      LastTerm(Scaled(g, row), x);
      ScaledTerm(g, row[n], x[m], Dot(row[..n], x[..m]), Dot(row, x));
    }
  }

  lemma ScaledLast(g: real, row: Row)
    requires row != []
    ensures var s, n := Scaled(g, row), |row| - 1; s[..n] == Scaled(g, row[..n]) && s[n] == g * row[n]
  {
  }

  lemma ScaledTerm(g: real, a: real, b: real, u: real, v: real)
    requires v == u + a * b
    ensures g * u + (g * a) * b == g * v
  {
  }

  /** A line of the halved buffer measures and weighs what is left of its singular value. */
  lemma RootMeasures(u: real, row: Row, r: Row, x: Row)
    requires Root(u, row, r)
    ensures Squared(Dot(r, x)) == u * Squared(Dot(row, x))
    ensures SquaredLength(r) == u * SquaredLength(row)
  {
    hide Dot, SquaredLength, Scaled;
    var g: real :| 0.0 <= g && Squared(g) == u && r == Scaled(g, row);
    ScaledDot(g, row, x);
    ScaledLength(g, row);
    SquareOfProduct(g, Dot(row, x), u);
  }

  lemma SquareOfProduct(g: real, d: real, u: real)
    requires u == Squared(g)
    ensures Squared(g * d) == u * Squared(d)
  {
  }

  // ----- what halving keeps

  lemma MeasureStep(w: seq<real>, v: Matrix, x: Row, n: nat)
    requires 0 < n <= |w| == |v|
    ensures var d := Squared(Dot(v[n - 1], x));
            && Weighted(w, v, x, n) == Weighted(w, v, x, n - 1) + w[n - 1] * d
            && Along(v[..n], x) == Along(v[..n - 1], x) + d
  {
    hide Squared, Dot;
    assert v[..n] == v[..n - 1] + [v[n - 1]];
    OneRow(v[..n - 1], v[n - 1], x);
  }

  lemma LineStep(u: real, v: Matrix, r: Matrix, x: Row, n: nat)
    requires 0 < n <= |r| && n <= |v| && Root(u, v[n - 1], r[n - 1])
    ensures Along(r[..n], x) == Along(r[..n - 1], x) + u * Squared(Dot(v[n - 1], x))
    ensures SquaredLength(v[n - 1]) == 1.0 ==> Mass(r[..n]) == Mass(r[..n - 1]) + u
  {
    hide Squared, Dot, Root, SquaredLength;
    RootMeasures(u, v[n - 1], r[n - 1], x);
    assert r[..n] == r[..n - 1] + [r[n - 1]];
    OneRow(r[..n - 1], r[n - 1], x);
  }

  /** One more line, whose squared singular value w was reduced by e or dropped. */
  lemma LossStep(w: real, e: real, d: real, loss: real, a: real, b: real, gone: real)
    requires 0.0 <= d && 0.0 <= e && b == a + d && 0.0 <= loss <= e * a
    requires gone == w * d - (w - e) * d || (0.0 <= w <= e && gone == w * d)
    ensures 0.0 <= loss + gone <= e * b
  {
    assert w * d - (w - e) * d == e * d;
    assert e * b == e * a + e * d;
    TimesPositive(e, d);
    if 0.0 <= w <= e {
      TimesPositive(w, d);
      TimesPositive(e - w, d);
      assert (e - w) * d == e * d - w * d;
    }
  }

  /** Of the first n lines no more than the threshold is lost, as often as the right singular vectors measure. */
  lemma {:induction false} LineLoss(w: seq<real>, v: Matrix, r: Matrix, e: real, x: Row, n: nat, k: nat)
    requires |r| <= |w| == |v| && n <= |w| && 0.0 <= e && k == if n < |r| then n else |r|
    requires forall i :: 0 <= i < |r| ==> e <= w[i] && Root(w[i] - e, v[i], r[i])
    requires forall i :: |r| <= i < |w| ==> 0.0 <= w[i] <= e
    ensures 0.0 <= Weighted(w, v, x, n) - Along(r[..k], x) <= e * Along(v[..n], x)
  {
    hide Squared, Dot, Root, Along, Weighted;
    if n == 0 {
      NoLines(w, v, r, x, e);
    } else {
      var d, was := Squared(Dot(v[n - 1], x)), Weighted(w, v, x, n - 1);
      MeasureStep(w, v, x, n);
      if n <= |r| {
        LineLoss(w, v, r, e, x, n - 1, k - 1);
        LineStep(w[n - 1] - e, v, r, x, n);
        LossStep(w[n - 1], e, d, was - Along(r[..k - 1], x), Along(v[..n - 1], x), Along(v[..n], x),
          w[n - 1] * d - (w[n - 1] - e) * d);
      } else {
        LineLoss(w, v, r, e, x, n - 1, k);
        LossStep(w[n - 1], e, d, was - Along(r[..k], x), Along(v[..n - 1], x), Along(v[..n], x), w[n - 1] * d);
      }
    }
  }

  lemma NoLines(w: seq<real>, v: Matrix, r: Matrix, x: Row, e: real)
    ensures Weighted(w, v, x, 0) == 0.0 == Along(r[..0], x) && Along(v[..0], x) == 0.0 == e * 0.0
    ensures Total(w, 0) == 0.0 == Mass(r[..0])
  {
  }

  function Multiple(e: real, c: nat): real {
    e * c as real
  }

  lemma OneMoreTime(e: real, c: nat)
    ensures Multiple(e, 0) == 0.0 && Multiple(e, c + 1) == Multiple(e, c) + e
  {
  }

  /** The first l lines lose the threshold at least, each. */
  lemma {:induction false} LineDrop(w: seq<real>, v: Matrix, r: Matrix, e: real, l: nat, n: nat, k: nat, c: nat)
    requires |r| < l <= |w| == |v| && n <= |w| && 0.0 <= e
    requires k == (if n < |r| then n else |r|) && c == if n < l then n else l
    requires forall i :: 0 <= i < |r| ==> Root(w[i] - e, v[i], r[i]) && SquaredLength(v[i]) == 1.0
    requires (forall i :: 0 <= i < l ==> e <= w[i]) && forall i :: 0 <= i < |w| ==> 0.0 <= w[i]
    ensures Total(w, n) - Mass(r[..k]) >= Multiple(e, c)
  {
    hide SquaredLength, Root, Mass, Multiple, Squared, Dot, Along;
    if n == 0 {
      NoLines(w, v, r, [], e);
      OneMoreTime(e, 0);
    } else if n <= l {
      OneMoreTime(e, c - 1);
      if n <= |r| {
        LineDrop(w, v, r, e, l, n - 1, k - 1, c - 1);
        LineStep(w[n - 1] - e, v, r, [], n);
      } else {
        LineDrop(w, v, r, e, l, n - 1, k, c - 1);
      }
    } else {
      LineDrop(w, v, r, e, l, n - 1, k, c);
    }
  }

  lemma DecomposedAt(m: Matrix, w: seq<real>, v: Matrix, x: Row)
    requires Decomposes(m, w, v)
    ensures |w| == |v| && Along(m, x) == Weighted(w, v, x, |w|) && Along(v, x) <= SquaredLength(x)
    ensures Mass(m) == Total(w, |w|)
  {
  }

  /** Halving a buffer keeps what it measures: what is lost along x, l times, is lost in all. */
  lemma HalvingKeeps(l: nat, m: Matrix, w: seq<real>, v: Matrix, r: Matrix)
    requires Decomposes(m, w, v) && Halved(l, w, v, r)
    ensures Keeps(l, r, m)
  {
    hide Along, Mass, SquaredLength, Weighted, Total, Root, Multiple, KeepsAlong;
    var e := w[l - 1];
    assert r[..|r|] == r && v[..|v|] == v;
    LineDrop(w, v, r, e, l, |w|, |r|, l);
    forall x: Row | SquaredLength(x) == 1.0 ensures KeepsAlong(l, r, m, x) {
      DecomposedAt(m, w, v, x);
      LineLoss(w, v, r, e, x, |w|, |r|);
      IsKept(l, r, m, x, e, Along(v, x));
    }
  }

  lemma IsKept(l: nat, s: Matrix, m: Matrix, x: Row, e: real, a: real)
    requires 0.0 <= e && a <= 1.0 && 0.0 <= Along(m, x) - Along(s, x) <= e * a
    requires Mass(m) - Mass(s) >= Multiple(e, l)
    ensures KeepsAlong(l, s, m, x)
  {
    hide Along, Mass;
    OnceAtMost(l as real, e, a, Along(m, x) - Along(s, x));
  }

  lemma OnceAtMost(l: real, e: real, a: real, u: real)
    requires 0.0 <= l && 0.0 <= e && a <= 1.0 && u <= e * a
    ensures l * u <= e * l
  {
    TimesPositive(e, 1.0 - a);
    assert e * (1.0 - a) == e - e * a;
    TimesPositive(l, e - u);
    assert l * (e - u) == l * e - l * u;
  }

  // ----- the largest singular value

  /** t is the largest squared singular value of m. */
  ghost predicate Largest(m: Matrix, t: real) {
    exists w: seq<real>, v: Matrix :: Decomposes(m, w, v) && t == if w == [] then 0.0 else w[0]
  }

  lemma {:induction false} WeightedBetween(w: seq<real>, v: Matrix, x: Row, n: nat)
    requires 0 < n <= |w| == |v| && forall i :: 0 <= i < |w| ==> 0.0 <= w[i] <= w[0]
    ensures w[0] * Squared(Dot(v[0], x)) <= Weighted(w, v, x, n) <= w[0] * Along(v[..n], x)
  {
    hide Squared, Dot, Along, Weighted;
    MeasureStep(w, v, x, n);
    if n == 1 {
      NoLines(w, v, [], x, w[0]);
    } else {
      WeightedBetween(w, v, x, n - 1);
      OneMoreWeight(w[n - 1], w[0], Squared(Dot(v[n - 1], x)), Along(v[..n - 1], x), Along(v[..n], x),
        Squared(Dot(v[0], x)), Weighted(w, v, x, n - 1), Weighted(w, v, x, n));
    }
  }

  lemma OneMoreWeight(w: real, t: real, d: real, a: real, b: real, d0: real, s: real, s': real)
    requires 0.0 <= w <= t && 0.0 <= d && b == a + d && s' == s + w * d && t * d0 <= s <= t * a
    ensures t * d0 <= s' <= t * b
  {
    TimesPositive(w, d);
    TimesPositive(t - w, d);
    assert (t - w) * d == t * d - w * d;
    assert t * b == t * a + t * d;
  }

  /** No direction measures more, and one does. */
  lemma LargestIs(m: Matrix, t: real) returns (u: Row)
    requires Largest(m, t)
    ensures 0.0 <= t && forall x: Row :: Along(m, x) <= t * SquaredLength(x)
    ensures t == 0.0 || (SquaredLength(u) == 1.0 && Along(m, u) == t)
  {
    hide Along, Mass, SquaredLength, Weighted, Total, Dot, Squared;
    var w: seq<real>, v: Matrix :| Decomposes(m, w, v) && t == if w == [] then 0.0 else w[0];
    u := if w == [] then [] else v[0];
    assert v[..|v|] == v;
    forall x: Row ensures Along(m, x) <= t * SquaredLength(x) {
      DecomposedAt(m, w, v, x);
      if w == [] {
        NoLines(w, v, [], x, t);
        NoLines(w, v, [], x, SquaredLength(x));
      } else {
        WeightedBetween(w, v, x, |w|);
        AtMostTimes(t, Along(v, x), SquaredLength(x));
      }
    }
    if w != [] {
      DecomposedAt(m, w, v, u);
      WeightedBetween(w, v, u, |w|);
      DotSelf(u);
      UnitSquared();
      assert Along(m, u) <= t * SquaredLength(u);
    }
  }

  lemma AtMostTimes(t: real, a: real, b: real)
    requires 0.0 <= t && a <= b
    ensures t * a <= t * b
  {
    TimesPositive(t, b - a);
    assert t * (b - a) == t * b - t * a;
  }

  lemma UnitSquared()
    ensures Squared(1.0) == 1.0
  {
  }

  lemma {:induction false} AlongIsSmall(m: Matrix, x: Row)
    ensures Along(m, x) <= Mass(m) * SquaredLength(x)
  {
    hide Squared, Dot, SquaredLength;
    if m != [] {
      var n := |m| - 1;
      AlongIsSmall(m[..n], x);
      DotIsSmall(m[n], x);
      SumTimes(Mass(m[..n]), SquaredLength(m[n]), SquaredLength(x), Mass(m));
    }
  }

  lemma SumTimes(a: real, b: real, c: real, d: real)
    requires d == a + b
    ensures d * c == a * c + b * c
  {
  }

  /** One more row raises the largest squared singular value by its squared length at most. */
  lemma LargestOfMore(m: Matrix, row: Row, t: real, t': real)
    requires Largest(m, t) && Largest(m + [row], t')
    ensures t' <= t + SquaredLength(row)
  {
    hide *;
    var _ := LargestIs(m, t);
    var u := LargestIs(m + [row], t');
    LengthIsPositive(row);
    if t' != 0.0 {
      OneRow(m, row, u);
      DotIsSmall(row, u);
      assert Along(m, u) <= t * SquaredLength(u);
    }
  }

  lemma LengthIsPositive(row: Row)
    ensures 0.0 <= SquaredLength(row)
  {
  }

  lemma LargestOfNone(t: real)
    requires Largest([], t)
    ensures t == 0.0
  {
    hide Largest;
    var u := LargestIs([], t);
  }

  lemma LargestOfOne(row: Row, t: real)
    requires Largest([row], t)
    ensures t == SquaredLength(row)
  {
    hide Largest, Squared, Dot, SquaredLength;
    var u := LargestIs([row], t);
    var a := SquaredLength(row);
    assert [] + [row] == [row];
    OneRow([], row, row);
    DotSelf(row);
    assert Along([row], row) <= t * a;
    if t != 0.0 {
      OneRow([], row, u);
      DotIsSmall(row, u);
    }
    if a != 0.0 { Divide(a, t); }
  }

  lemma Divide(a: real, t: real)
    requires 0.0 <= a && a != 0.0 && Squared(a) <= t * a
    ensures a <= t
  {
    if t < a { LessTimes(t, a); }
  }

  lemma LessTimes(t: real, a: real)
    requires t < a && 0.0 < a
    ensures t * a < Squared(a)
  {
    TimesStrict(a - t, a);
    assert (a - t) * a == a * a - t * a;
  }

  /** What keeps less along every direction has no larger singular value. */
  lemma LargestOfLess(l: nat, s: Matrix, m: Matrix, t: real, t': real)
    requires Keeps(l, s, m) && Largest(m, t) && Largest(s, t')
    ensures t' <= t
  {
    hide Largest, Along, Mass, SquaredLength;
    var _ := LargestIs(m, t);
    var u := LargestIs(s, t');
    if t' != 0.0 {
      assert KeepsAlong(l, s, m, u);
      assert Along(m, u) <= t * SquaredLength(u);
    }
  }
}
