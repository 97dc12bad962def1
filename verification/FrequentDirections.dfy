/** The checkpoint log of FD_ATTP in fd.cpp, over an abstract frequent-directions sketch. */
module FrequentDirections {

  import opened MatrixBounds

  /** The linear algebra: `shrink` halves a full buffer, `top` is the squared largest singular value. */
  datatype Numerics = Numerics(l: nat, shrink: Matrix -> Matrix, top: Matrix -> real) {

    /** One more row raises the largest singular value by the row's length at most, shrinking never raises it. */
    ghost predicate Lawful() {
      && 0 < l
      && top([]) == 0.0
      && (forall m: Matrix :: 0.0 <= top(m))
      && (forall m :: |m| == 2 * l ==> |shrink(m)| < l && top(shrink(m)) <= top(m))
      && (forall m: Matrix, row: Row :: top(m + [row]) <= top(m) + SquaredLength(row))
      && (forall row: Row :: top([row]) == SquaredLength(row))
    }

    /**
     What halving a full buffer takes off along any direction, l times, it takes off in all; and no
     direction measures more than the largest squared singular value.
     */
    ghost predicate Faithful() {
      && (forall m: Matrix | |m| == 2 * l :: Keeps(l, shrink(m), m))
      && (forall m: Matrix, x: Row | SquaredLength(x) == 1.0 :: Along(m, x) <= top(m))
    }

    lemma TopBounds(m: Matrix, x: Row)
      requires Faithful() && SquaredLength(x) == 1.0
      ensures Along(m, x) <= top(m)
    {
      hide Keeps, Along, SquaredLength;
    }

    /** The linear algebra is done by singular value decompositions, as the code does it. */
    ghost predicate BySingularValues() {
      && 0 < l && (forall m: Matrix :: Largest(m, top(m)))
      && (forall m: Matrix | |m| == 2 * l :: HalvedBy(m))
    }

    ghost predicate HalvedBy(m: Matrix) {
      exists w: seq<real>, v: Matrix :: Decomposes(m, w, v) && Halved(l, w, v, shrink(m))
    }

    /** So done, it obeys the laws. */
    lemma SingularValuesAreLawful()
      requires BySingularValues()
      ensures Lawful() && Faithful()
    {
      hide Largest, Decomposes, Halved, Keeps, Along, SquaredLength;
      LargestOfNone(top([]));
      forall m: Matrix ensures 0.0 <= top(m) { var _ := LargestIs(m, top(m)); }
      forall m: Matrix | |m| == 2 * l ensures Keeps(l, shrink(m), m) && |shrink(m)| < l && top(shrink(m)) <= top(m) {
        HalvingIs(m);
        LargestOfLess(l, shrink(m), m, top(m), top(shrink(m)));
      }
      forall m: Matrix, row: Row ensures top(m + [row]) <= top(m) + SquaredLength(row) {
        LargestOfMore(m, row, top(m), top(m + [row]));
      }
      forall row: Row ensures top([row]) == SquaredLength(row) { LargestOfOne(row, top([row])); }
      forall m: Matrix, x: Row | SquaredLength(x) == 1.0 ensures Along(m, x) <= top(m) {
        var _ := LargestIs(m, top(m));
        assert Along(m, x) <= top(m) * SquaredLength(x);
      }
    }

    lemma HalvingIs(m: Matrix)
      requires |m| == 2 * l && HalvedBy(m)
      ensures Keeps(l, shrink(m), m) && |shrink(m)| < l
    {
      hide Decomposes, Keeps;
      var w: seq<real>, v: Matrix :| Decomposes(m, w, v) && Halved(l, w, v, shrink(m));
      HalvingKeeps(l, m, w, v, shrink(m));
    }

    /** `FD::update` */
    function Push(m: Matrix, row: Row): Matrix {
      (if |m| == 2 * l then shrink(m) else m) + [row]
    }

    lemma SingleTop(row: Row)
      requires Lawful()
      ensures 0 < l && top([]) == 0.0 && top([row]) == SquaredLength(row) && Push([], row) == [row]
    {
    }

    lemma NotNegative(m: Matrix)
      requires Lawful()
      ensures 0.0 <= top(m)
    {
    }

    lemma PushRaises(m: Matrix, row: Row)
      requires Lawful()
      ensures top(Push(m, row)) <= top(m) + SquaredLength(row)
      ensures |m| <= 2 * l ==> |Push(m, row)| <= 2 * l
    {
      var base := if |m| == 2 * l then shrink(m) else m;
      assert top(base + [row]) <= top(base) + SquaredLength(row);
    }
  }

  datatype Stamped = Stamped(ts: nat, row: Row)

  function Lines(rows: seq<Stamped>): (m: Matrix)
    ensures |m| == |rows|
  {
    seq(|rows|, i requires 0 <= i < |rows| => rows[i].row)
  }

  lemma LinesMore(rows: seq<Stamped>, r: Stamped)
    ensures Lines(rows + [r]) == Lines(rows) + [r.row]
  {
  }

  datatype Full = Full(ts: nat, fd: Matrix, next: nat)

  /** The sketch that absorbed the rows in order. */
  function Fold(num: Numerics, s: Matrix, rows: seq<Stamped>): Matrix {
    if rows == [] then s else num.Push(Fold(num, s, rows[..|rows| - 1]), rows[|rows| - 1].row)
  }

  /** The rows stamped t or earlier. */
  function UpTo(rows: seq<Stamped>, t: nat): seq<Stamped> {
    if rows == [] then []
    else
      var before := UpTo(rows[..|rows| - 1], t);
      if rows[|rows| - 1].ts <= t then before + [rows[|rows| - 1]] else before
  }

  predicate Sorted(rows: seq<Stamped>) {
    forall i, j :: 0 <= i <= j < |rows| ==> rows[i].ts <= rows[j].ts
  }

  lemma {:induction false} UpToIsPrefix(rows: seq<Stamped>, t: nat, n: nat)
    requires n <= |rows| && Sorted(rows)
    requires n == 0 || rows[n - 1].ts <= t
    requires n == |rows| || t < rows[n].ts
    ensures UpTo(rows, t) == rows[..n]
    decreases |rows|
  {
    if rows != [] {
      var init := rows[..|rows| - 1];
      assert forall i :: 0 <= i < |init| ==> init[i] == rows[i];
      if n == |rows| {
        UpToIsPrefix(init, t, n - 1);
        assert rows[..n] == init[..n - 1] + [rows[n - 1]];
      } else {
        assert t < rows[n].ts <= rows[|rows| - 1].ts;
        UpToIsPrefix(init, t, n);
        assert rows[..n] == init[..n];
      }
    }
  }

  lemma PushKeeps(num: Numerics, p: Matrix, m: Matrix, row: Row)
    requires num.Faithful()
    ensures Keeps(num.l, p + num.Push(m, row), p + m + [row])
  {
    hide Keeps, Along, Mass, SquaredLength;
    KeepsItself(num.l, m);
    var base := if |m| == 2 * num.l then num.shrink(m) else m;
    KeepsBetween(num.l, p, base, m, [row]);
    assert p + num.Push(m, row) == p + base + [row];
  }

  /** Absorbing rows keeps what they measure. */
  lemma {:induction false} FoldKeeps(num: Numerics, rows: seq<Stamped>)
    requires num.Faithful()
    ensures Keeps(num.l, Fold(num, [], rows), Lines(rows))
  {
    hide Keeps, num.Faithful;
    if rows == [] {
      assert Lines(rows) == [];
      KeepsItself(num.l, []);
    } else {
      var n := |rows| - 1;
      var f, r := Fold(num, [], rows[..n]), rows[n].row;
      FoldKeeps(num, rows[..n]);
      PushKeeps(num, [], f, r);
      KeepsBetween(num.l, [], f, Lines(rows[..n]), [r]);
      LinesMore(rows[..n], rows[n]);
      assert rows[..n] + [rows[n]] == rows;
      assert [] + f + [r] == f + [r] && [] + Lines(rows[..n]) + [r] == Lines(rows);
      assert [] + num.Push(f, r) == num.Push(f, r);
      KeepsOn(num.l, num.Push(f, r), f + [r], Lines(rows));
    }
  }

  // ----- the log

  /** Where the partial checkpoints after the i-th full one begin. */
  function Next(full: seq<Full>, i: nat): nat
    requires i <= |full|
  {
    if i == 0 then 0 else full[i - 1].next
  }

  /** The i-th full checkpoint holds every row popped up to then, l - 1 kept ones after the one before. */
  ghost predicate FullAt(num: Numerics, popped: seq<Stamped>, full: seq<Full>, i: nat)
    requires i < |full|
  {
    var f := full[i];
    && f.next == Next(full, i) + num.l - 1 && f.next + i < |popped|
    && f.ts == popped[f.next + i].ts
    && f.fd == Fold(num, [], popped[..f.next + i + 1])
  }

  /** A kept row is a popped row, moved by the number of full checkpoints before it. */
  ghost predicate KeptAt(popped: seq<Stamped>, partial: seq<Stamped>, i: nat, j: nat)
    requires j < |partial|
  {
    j + i < |popped| && partial[j] == popped[j + i]
  }

  /** Every l-th popped row makes a full checkpoint of all rows popped so far, the others are kept. */
  ghost predicate Logged(num: Numerics, popped: seq<Stamped>, partial: seq<Stamped>, full: seq<Full>) {
    && |popped| == |partial| + |full|
    && (forall i :: 0 <= i < |full| ==> FullAt(num, popped, full, i))
    && (forall i :: 0 <= i < |full| ==> full[i].next <= |partial|)
    && (forall i, j :: 0 <= i < |full| && Next(full, i) <= j < full[i].next ==> KeptAt(popped, partial, i, j))
    && Next(full, |full|) <= |partial| < Next(full, |full|) + num.l
    && (forall j :: Next(full, |full|) <= j < |partial| ==> KeptAt(popped, partial, |full|, j))
  }

  lemma LogStarts(num: Numerics)
    requires 0 < num.l
    ensures Logged(num, [], [], [])
  {
  }

  lemma FullStays(num: Numerics, popped: seq<Stamped>, full: seq<Full>, r: Stamped, f: seq<Full>, i: nat)
    requires i < |full| && FullAt(num, popped, full, i)
    ensures FullAt(num, popped + [r], full + f, i)
  {
    assert (popped + [r])[..full[i].next + i + 1] == popped[..full[i].next + i + 1];
  }

  lemma LogPartial(num: Numerics, popped: seq<Stamped>, partial: seq<Stamped>, full: seq<Full>, r: Stamped)
    requires Logged(num, popped, partial, full) && |partial| - Next(full, |full|) + 1 < num.l
    ensures Logged(num, popped + [r], partial + [r], full)
  {
    hide Fold, FullAt;
    assert full + [] == full;
    forall i | 0 <= i < |full| ensures FullAt(num, popped + [r], full, i) { FullStays(num, popped, full, r, [], i); }
    forall i, j | 0 <= i < |full| && Next(full, i) <= j < full[i].next
      ensures KeptAt(popped + [r], partial + [r], i, j) {
      assert KeptAt(popped, partial, i, j);
    }
    forall j | Next(full, |full|) <= j <= |partial| ensures KeptAt(popped + [r], partial + [r], |full|, j) {
      if j < |partial| { assert KeptAt(popped, partial, |full|, j); }
    }
  }

  lemma LogFull(num: Numerics, popped: seq<Stamped>, partial: seq<Stamped>, full: seq<Full>, r: Stamped, s: Matrix)
    requires Logged(num, popped, partial, full) && |partial| - Next(full, |full|) + 1 >= num.l
    requires s == Fold(num, [], popped + [r])
    ensures Logged(num, popped + [r], partial, full + [Full(r.ts, s, |partial|)])
  {
    hide Fold, FullAt;
    var popped', full' := popped + [r], full + [Full(r.ts, s, |partial|)];
    forall i | 0 <= i < |full| ensures FullAt(num, popped', full', i) {
      FullStays(num, popped, full, r, [full'[|full|]], i);
    }
    LastFull(num, popped', full', |full|, r, s, |partial|);
    forall i, j | 0 <= i < |full'| && Next(full', i) <= j < full'[i].next ensures KeptAt(popped', partial, i, j) {
      if i < |full| { assert Next(full, i) == Next(full', i); }
      assert KeptAt(popped, partial, i, j);
    }
  }

  lemma LastFull(num: Numerics, popped: seq<Stamped>, full: seq<Full>, i: nat, r: Stamped, s: Matrix, p: nat)
    requires |full| == i + 1 && full[i] == Full(r.ts, s, p) && p == Next(full, i) + num.l - 1
    requires |popped| == p + i + 1 && popped[p + i] == r && s == Fold(num, [], popped)
    ensures FullAt(num, popped, full, i)
  {
    assert popped[..p + i + 1] == popped;
  }

  /** A full checkpoint holds every row popped before it. */
  lemma FullHolds(num: Numerics, popped: seq<Stamped>, partial: seq<Stamped>, full: seq<Full>, i: nat)
    requires Logged(num, popped, partial, full) && i <= |full|
    ensures Next(full, i) + i <= |popped| && Next(full, i) <= |partial|
    ensures (if i == 0 then [] else full[i - 1].fd) == Fold(num, [], popped[..Next(full, i) + i])
    ensures 0 < i ==> full[i - 1].ts == popped[Next(full, i) + i - 1].ts
    ensures i < |full| ==>
        && full[i].next == Next(full, i) + num.l - 1 <= |partial| && full[i].next + i < |popped|
        && full[i].ts == popped[full[i].next + i].ts
    ensures |partial| < Next(full, |full|) + num.l && |popped| == |partial| + |full|
  {
    if 0 < i { assert FullAt(num, popped, full, i - 1); }
    if i < |full| { assert FullAt(num, popped, full, i); }
  }

  lemma KeptIn(num: Numerics, popped: seq<Stamped>, partial: seq<Stamped>, full: seq<Full>, i: nat, j: nat)
    requires Logged(num, popped, partial, full) && i <= |full| && Next(full, i) <= j < |partial|
    requires i < |full| ==> j < full[i].next
    ensures j + i < |popped| && partial[j] == popped[j + i]
  {
    hide FullAt;
    assert KeptAt(popped, partial, i, j);
  }

  /** Which full checkpoint a kept row comes after. */
  lemma {:induction false} KeptIsPopped(num: Numerics, popped: seq<Stamped>, partial: seq<Stamped>, full: seq<Full>,
                                        i: nat, j: nat)
    returns (k: nat)
    requires Logged(num, popped, partial, full) && i <= |full| && Next(full, i) <= j < |partial|
    ensures i <= k <= |full| && j + k < |popped| && partial[j] == popped[j + k]
    ensures i < |full| && full[i].next <= j ==> i < k
    decreases |full| - i
  {
    hide FullAt, KeptAt, Logged;
    if i == |full| || j < full[i].next {
      k := i;
      KeptIn(num, popped, partial, full, i, j);
    } else {
      assert Next(full, i + 1) == full[i].next;
      k := KeptIsPopped(num, popped, partial, full, i + 1, j);
    }
  }

  // ----- the target

  /** The test that lets `update` skip the decomposition. */
  predicate Quiet(af2: real, l: nat, target: real)
    requires 0 < l
  {
    af2 * (l - 1) as real / l as real < target
  }

  /** The part not yet popped stays below the l-th part of all there was. */
  ghost predicate Settled(num: Numerics, c: Matrix, af2: real, target: real)
    requires 0 < num.l
  {
    && num.top(c) <= af2 - target
    && (0.0 < af2 ==> num.top(c) < af2 / num.l as real)
  }

  lemma QuietArithmetic(af2: real, l: nat, target: real, top: real)
    requires 0 < l && Quiet(af2, l, target) && top <= af2 - target
    ensures top < af2 / l as real
  {
    var d := l as real;
    assert af2 * (l - 1) as real == af2 * d - af2;
    assert (af2 * d - af2) / d == af2 - af2 / d by { Spread(af2, d); }
  }

  lemma Spread(a: real, d: real)
    requires d > 0.0
    ensures (a * d - a) / d == a - a / d
  {
    var q := a / d;
    assert (a - q) * d == a * d - a;
  }

  /** Skipping is sound: without the decomposition the residue is still known to be small. */
  lemma QuietIsSettled(num: Numerics, c: Matrix, af2: real, target: real, row: Row)
    requires num.Lawful() && num.top(c) <= af2 - target
    requires Quiet(af2 + SquaredLength(row), num.l, target)
    ensures Settled(num, num.Push(c, row), af2 + SquaredLength(row), target)
  {
    hide Quiet, SquaredLength, num.Lawful, num.Push;
    num.SingleTop(row);
    num.PushRaises(c, row);
    QuietArithmetic(af2 + SquaredLength(row), num.l, target, num.top(num.Push(c, row)));
  }

  /** With a target left over from before a clear, a first row that is skipped is not small at all. */
  lemma StaleTargetMisses(num: Numerics, row: Row)
    requires num.Lawful() && 0.0 < SquaredLength(row)
    ensures forall target :: !Settled(num, num.Push([], row), SquaredLength(row), target)
  {
    hide SquaredLength;
    assert [] + [row] == [row];
    num.SingleTop(row);
    Share(SquaredLength(row), num.l);
  }

  lemma Share(a: real, l: nat)
    requires 0.0 < a && 0 < l
    ensures 0.0 < a / l as real <= a
  {
    var d := l as real;
    var q := a / d;
    assert q * d == a;
    AtLeastOnce(q, d, a);
  }

  lemma BoundIs(a: real, l: nat)
    requires 0.0 <= a && 0 < l
    ensures 0.0 <= a / l as real && (0.0 < a / l as real <==> 0.0 < a)
  {
    if 0.0 < a { Share(a, l); }
  }

  lemma AtLeastOnce(q: real, d: real, a: real)
    requires 0.0 < a && 1.0 <= d && q * d == a
    ensures 0.0 < q <= a
  {
    assert q <= 0.0 ==> q * d <= 0.0;
    assert q * d == q + q * (d - 1.0);
  }

  /** Rows were popped off the front, stamped ts, for just as long as the residue was not below the bound. */
  ghost predicate Drained(num: Numerics, c: Matrix, bound: real, ts: nat, popped: seq<Stamped>, c': Matrix,
                          popped': seq<Stamped>)
  {
    var k := |popped'| - |popped|;
    && 0 <= k <= |c| && popped <= popped' && c' == c[k..]
    && (forall i :: 0 <= i < k ==> num.top(c[i..]) >= bound)
    && (forall i :: 0 <= i < k ==> popped'[|popped| + i] == Stamped(ts, c[i]))
  }

  lemma DrainStart(num: Numerics, c: Matrix, bound: real, ts: nat, popped: seq<Stamped>)
    ensures Drained(num, c, bound, ts, popped, c, popped)
  {
  }

  lemma DrainStep(num: Numerics, c: Matrix, bound: real, ts: nat, popped: seq<Stamped>, b: Matrix,
                  popped': seq<Stamped>)
    requires Drained(num, c, bound, ts, popped, b, popped') && num.top(b) >= bound && b != []
    ensures Drained(num, c, bound, ts, popped, b[1..], popped' + [Stamped(ts, b[0])])
  {
  }

  /** Only rows stamped ts came on top of what had been popped. */
  ghost predicate Pops(before: seq<Stamped>, after: seq<Stamped>, ts: nat) {
    && |before| <= |after| && after[..|before|] == before
    && forall i :: |before| <= i < |after| ==> after[i].ts == ts
  }

  lemma NothingPops(popped: seq<Stamped>, ts: nat)
    ensures Pops(popped, popped, ts)
  {
  }

  lemma DrainPops(num: Numerics, c: Matrix, bound: real, ts: nat, popped: seq<Stamped>, c': Matrix,
                  popped': seq<Stamped>)
    requires Drained(num, c, bound, ts, popped, c', popped')
    ensures Pops(popped, popped', ts)
  {
    forall i | |popped| <= i < |popped'| ensures popped'[i].ts == ts {
      assert popped'[|popped| + (i - |popped|)] == Stamped(ts, c[i - |popped|]);
    }
  }

  lemma LastIs(before: seq<Stamped>, after: seq<Stamped>, r: Stamped)
    requires after == before + [r]
    ensures after != [] && after[..|after| - 1] == before && after[|after| - 1] == r
  {
  }

  lemma SettledIs(num: Numerics, c: Matrix, af2: real, target: real)
    requires 0 < num.l && num.top(c) < af2 / num.l as real && target == af2 - num.top(c)
    ensures Settled(num, c, af2, target)
  {
  }

  lemma SettledTop(num: Numerics, c: Matrix, af2: real, target: real)
    requires 0 < num.l && Settled(num, c, af2, target)
    ensures num.top(c) <= af2 - target
  {
  }

  lemma SettledSmall(num: Numerics, c: Matrix, af2: real, target: real)
    requires 0 < num.l && Settled(num, c, af2, target) && 0.0 < af2
    ensures num.top(c) <= af2 / num.l as real
  {
  }

  lemma SortedEnds(rows: seq<Stamped>, last: nat)
    requires Sorted(rows) && (rows != [] ==> rows[|rows| - 1].ts <= last)
    ensures forall r <- rows :: r.ts <= last
  {
  }

  class FD_ATTP {
    const num: Numerics
    var af2: real
    var target: real
    var c: Matrix
    var partial: seq<Stamped>
    var full: seq<Full>
    ghost var popped: seq<Stamped>
    ghost var last: nat
    ghost var fed: seq<Stamped>
    ghost var since: nat

    /** The log holds the rows popped, and they and the residue keep what was fed. */
    ghost predicate Logging()
      reads `af2, `c, `partial, `full, `popped, `last, `fed
    {
      && num.Lawful() && 0.0 <= af2 == Mass(Lines(fed)) && |c| <= 2 * num.l
      && Sorted(popped) && (popped != [] ==> popped[|popped| - 1].ts <= last)
      && Logged(num, popped, partial, full)
      && (forall r <- fed :: r.ts <= last)
      && (num.Faithful() ==> Keeps(num.l, Lines(popped) + c, Lines(fed)))
    }

    /** What was popped by time t recalls what was fed by then. */
    ghost predicate Recalled(t: nat)
      reads `popped, `fed
    {
      Recalls(num.l, Lines(UpTo(popped, t)), Lines(UpTo(fed, t)))
    }

    /** So it is from time `since` on, but for the last time while the residue is not small. */
    ghost predicate Valid()
      reads this
    {
      && Logging()
      && (num.Faithful() ==>
            forall t: nat | since <= t && (t < last || Settled(num, c, af2, target)) :: Recalled(t))
    }

    constructor (num: Numerics)
      requires num.Lawful()
      ensures Valid() && popped == [] && af2 == 0.0 && c == [] && target == 0.0 && last == 0 && this.num == num
      ensures Settled(num, c, af2, target) && fed == [] && since == 0
    {
      this.num := num;
      af2, target, c, partial, full := 0.0, 0.0, [], [], [];
      popped, fed, last, since := [], [], 0, 0;
      new;
      LogStarts(num);
      NothingFed();
    }

    lemma NothingFed()
      requires num.Lawful() && popped == fed == [] && c == [] && af2 == 0.0 && Logged(num, popped, partial, full)
      ensures Valid()
    {
      assert Lines([]) == [] && Lines([]) + [] == [];
      KeepsItself(num.l, []);
    }

    /** `clear` leaves the target as it was. */
    method Clear()
      requires Valid()
      modifies this
      ensures Valid() && popped == [] && af2 == 0.0 && c == [] && target == old(target)
      ensures last == 0 && (Settled(num, c, af2, target) <==> old(target) <= 0.0) && fed == [] && since == 0
    {
      af2, c, partial, full := 0.0, [], [], [];
      popped, fed, last, since := [], [], 0, 0;
      LogStarts(num);
      NothingFed();
    }

    /**
     `update`. It fails, by taking a row from an empty sketch, exactly if all rows so far are zero and the
     target does not silence them. After a small residue what can be recalled stays so.
     */
    method Update(ts: nat, a: Row) returns (ok: bool)
      requires Valid() && last <= ts
      modifies this
      ensures Valid() && last == ts && af2 == old(af2) + SquaredLength(a)
      ensures ok <==> 0.0 < af2 || Quiet(af2, num.l, old(target))
      ensures !ok ==> c == []
      ensures Quiet(af2, num.l, old(target)) ==>
                popped == old(popped) && c == num.Push(old(c), a) && target == old(target)
      ensures ok && (!Quiet(af2, num.l, old(target)) || Settled(num, old(c), old(af2), old(target))) ==>
                Settled(num, c, af2, target)
      ensures !Quiet(af2, num.l, old(target)) ==>
                Drained(num, num.Push(old(c), a), af2 / num.l as real, ts, old(popped), c, popped)
      ensures ok && !Quiet(af2, num.l, old(target)) ==> target == af2 - num.top(c)
      ensures fed == old(fed) + [Stamped(ts, a)]
      ensures since == if Settled(num, old(c), old(af2), old(target)) then old(since) else ts
    {
      hide *;
      LoggingOf();
      LoggingParts();
      if num.Faithful() { WasRecalled(ts); }
      num.PushRaises(c, a);
      ghost var wasSettled := Settled(num, c, af2, target);
      Feed(ts, a);
      LoggingParts();
      NothingPops(popped, ts);
      LastIs(old(fed), fed, Stamped(ts, a));
      if Quiet(af2, num.l, target) {
        if Settled(num, old(c), old(af2), old(target)) {
          SettledTop(num, old(c), old(af2), target);
          QuietIsSettled(num, old(c), old(af2), target, a);
        }
        ok := true;
      } else {
        BoundIs(af2, num.l);
        ok := Drain(ts);
        DrainPops(num, num.Push(old(c), a), af2 / num.l as real, ts, old(popped), c, popped);
        if ok { target := af2 - num.top(c); }
        if ok { SettledIs(num, c, af2, target); }
      }
      if !wasSettled { since := ts; }
      StillRecalled(ts, old(popped), old(fed));
    }

    lemma LoggingOf()
      requires Valid()
      ensures Logging()
    {
      hide Logging;
    }

    /** The row goes to the sketch. */
    method Feed(ts: nat, a: Row)
      requires Logging() && last <= ts
      modifies `c, `af2, `last, `fed
      ensures Logging() && last == ts && fed == old(fed) + [Stamped(ts, a)]
      ensures c == num.Push(old(c), a) && af2 == old(af2) + SquaredLength(a)
    {
      hide Logged, Sorted, SquaredLength, Keeps, num.Faithful, Mass;
      ghost var r := Stamped(ts, a);
      FedMore(r);
      num.PushRaises(c, a);
      c := num.Push(c, a);
      af2 := af2 + SquaredLength(a);
      last := ts;
      fed := fed + [r];
    }

    lemma FedMore(r: Stamped)
      requires Logging() && last <= r.ts
      ensures Mass(Lines(fed + [r])) == Mass(Lines(fed)) + SquaredLength(r.row)
      ensures num.Faithful() ==> Keeps(num.l, Lines(popped) + num.Push(c, r.row), Lines(fed + [r]))
    {
      hide Logged, Sorted, SquaredLength, Keeps, num.Faithful, Mass, num.Lawful;
      LinesMore(fed, r);
      OneRow(Lines(fed), r.row, []);
      if num.Faithful() {
        var p := Lines(popped);
        PushKeeps(num, p, c, r.row);
        KeepsBetween(num.l, [], p + c, Lines(fed), [r.row]);
        assert [] + (p + c) + [r.row] == p + c + [r.row] && [] + Lines(fed) + [r.row] == Lines(fed + [r]);
        KeepsOn(num.l, p + num.Push(c, r.row), p + c + [r.row], Lines(fed + [r]));
      }
    }

    lemma LoggingParts()
      requires Logging()
      ensures num.Lawful() && 0 < num.l && 0.0 <= af2 == Mass(Lines(fed)) && |c| <= 2 * num.l
      ensures Sorted(popped) && (popped != [] ==> popped[|popped| - 1].ts <= last)
      ensures Logged(num, popped, partial, full) && forall r <- fed :: r.ts <= last
      ensures num.Faithful() ==> Keeps(num.l, Lines(popped) + c, Lines(fed))
    {
      hide Logged, Sorted, num.Faithful, Keeps, Mass, Lines;
    }

    /** Up to time ts what was popped recalls what was fed. */
    ghost predicate RecallsTo(from: nat, ts: nat, popped: seq<Stamped>, fed: seq<Stamped>) {
      forall t: nat | from <= t < ts :: Recalls(num.l, Lines(UpTo(popped, t)), Lines(UpTo(fed, t)))
    }

    lemma WasRecalled(ts: nat)
      requires Valid() && last <= ts && num.Faithful()
      ensures 0 < num.l && RecallsTo(if Settled(num, c, af2, target) then since else ts, ts, popped, fed)
    {
      hide Logging, Recalls, Settled, num.Faithful, Lines, UpTo;
      LoggingParts();
      if Settled(num, c, af2, target) {
        forall t: nat | since <= t < ts ensures Recalls(num.l, Lines(UpTo(popped, t)), Lines(UpTo(fed, t))) {
          assert Recalled(t);
        }
      }
    }

    /** Answers for times before ts are as they were, from then on they are as good as the residue is small. */
    lemma StillRecalled(ts: nat, popped0: seq<Stamped>, fed0: seq<Stamped>)
      requires Logging() && last == ts && (num.Faithful() ==> RecallsTo(since, ts, popped0, fed0))
      requires fed != [] && fed[..|fed| - 1] == fed0 && fed[|fed| - 1].ts == ts
      requires Pops(popped0, popped, ts)
      ensures Valid()
    {
      hide *;
      LoggingParts();
      if num.Faithful() {
        forall t: nat | since <= t && (t < last || Settled(num, c, af2, target)) ensures Recalled(t) {
          if t < ts {
            RecalledBefore(t, ts, popped0, fed0);
          } else {
            NowRecalled(t);
          }
        }
      }
      ValidIs();
    }

    lemma RecalledBefore(t: nat, ts: nat, popped0: seq<Stamped>, fed0: seq<Stamped>)
      requires RecallsTo(since, ts, popped0, fed0) && since <= t < ts && Pops(popped0, popped, ts)
      requires fed != [] && fed[..|fed| - 1] == fed0 && fed[|fed| - 1].ts == ts
      ensures Recalled(t)
    {
      hide Recalls, Lines, UpTo;
      assert Pops(fed0, fed, ts);
      UpToEarlier(fed0, fed, ts, t);
      UpToEarlier(popped0, popped, ts, t);
    }

    lemma ValidIs()
      requires Logging() && 0 < num.l
      requires num.Faithful() ==>
          forall t: nat | since <= t && (t < last || Settled(num, c, af2, target)) :: Recalled(t)
      ensures Valid()
    {
      hide Logging, Recalled, Settled, num.Faithful;
    }

    lemma NowRecalled(t: nat)
      requires Logging() && num.Faithful() && 0 < num.l && Settled(num, c, af2, target) && last <= t
      ensures Recalled(t)
    {
      hide *;
      LoggingParts();
      UpToEverything(fed, t);
      SortedEnds(popped, last);
      UpToEverything(popped, t);
      ResidueIsSmall();
      RecallsMost(num.l, Lines(popped), c, Lines(fed));
      RecalledIs(t);
    }

    lemma RecalledIs(t: nat)
      requires Recalls(num.l, Lines(UpTo(popped, t)), Lines(UpTo(fed, t)))
      ensures Recalled(t)
    {
      hide Recalls, Lines, UpTo;
    }

    /** In no direction the residue measures more than an l-th of all there was. */
    lemma ResidueIsSmall()
      requires Logging() && num.Faithful() && Settled(num, c, af2, target)
      ensures forall x: Row | SquaredLength(x) == 1.0 :: num.l as real * Along(c, x) <= Mass(Lines(fed))
    {
      hide *;
      LoggingParts();
      forall x: Row | SquaredLength(x) == 1.0 ensures num.l as real * Along(c, x) <= Mass(Lines(fed)) {
        num.TopBounds(c, x);
        if 0.0 < af2 {
          SettledSmall(num, c, af2, target);
          TimesShare(num.l, af2, Along(c, x));
        } else {
          NoMassLeft(num.l, Lines(popped), c, Lines(fed), x);
        }
      }
    }

    /**
     * The first non-zero row after a clear: its residue is small exactly if the target left over does not
     * silence it.
     */
    method ClearThenUpdate(ts: nat, a: Row)
      requires Valid() && 0.0 < SquaredLength(a)
      modifies this
      ensures Valid() && af2 == SquaredLength(a)
      ensures Settled(num, c, af2, target) <==> !Quiet(SquaredLength(a), num.l, old(target))
      ensures Quiet(SquaredLength(a), num.l, old(target)) ==> c == [a]
    {
      hide Logged, Sorted, SquaredLength, num.Lawful, Quiet, Settled;
      Clear();
      var ok := Update(ts, a);
      num.SingleTop(a);
      StaleTargetMisses(num, a);
    }

    /** Pops rows until the residue is small, which an empty sketch is only below a positive bound. */
    method Drain(ts: nat) returns (ok: bool)
      requires Logging() && last == ts && 0.0 <= af2 / num.l as real
      modifies `c, `popped, `partial, `full
      ensures Logging() && (ok <==> 0.0 < af2 / num.l as real)
      ensures ok ==> num.top(c) < af2 / num.l as real
      ensures !ok ==> c == []
      ensures Drained(num, old(c), af2 / num.l as real, ts, old(popped), c, popped)
    {
      hide Logged, Sorted, num.Lawful, num.Faithful, SquaredLength, Drained, Keeps, Mass;
      num.SingleTop([]);
      var bound := af2 / num.l as real;
      DrainStart(num, c, bound, ts, popped);
      while num.top(c) >= bound
        invariant Logging() && last == ts
        invariant Drained(num, old(c), bound, ts, old(popped), c, popped)
        decreases |c|
      {
        if c == [] { return false; }
        var row := c[0];
        DrainStep(num, old(c), bound, ts, old(popped), c, popped);
        Record(ts, row);
      }
      num.NotNegative(c);
      ok := true;
    }

    /** A popped row goes to the log, whole or as part of a full checkpoint. */
    method Record(ts: nat, row: Row)
      requires Logging() && last == ts && c != [] && row == c[0]
      modifies `c, `popped, `partial, `full
      ensures Logging() && popped == old(popped) + [Stamped(ts, row)] && c == old(c)[1..]
    {
      hide Logged, Sorted, Fold, Keeps, Mass, num.Faithful, num.Lawful;
      var count := if full == [] then |partial| else |partial| - full[|full| - 1].next;
      FullHolds(num, popped, partial, full, |full|);
      var r := Stamped(ts, row);
      if count + 1 >= num.l {
        var fd := if full == [] then [] else full[|full| - 1].fd;
        fd := Absorb(fd);
        fd := num.Push(fd, row);
        FoldOne(num, popped, r);
        LogFull(num, popped, partial, full, r, fd);
        full := full + [Full(ts, fd, |partial|)];
      } else {
        LogPartial(num, popped, partial, full, r);
        partial := partial + [r];
      }
      LinesMore(popped, r);
      assert Lines(popped) + c == Lines(popped + [r]) + c[1..];
      c := c[1..];
      popped := popped + [r];
      SortedMore(old(popped), r);
    }

    /** The copied sketch takes in the partial checkpoints since. */
    method Absorb(from: Matrix) returns (fd: Matrix)
      requires Logging() && from == if full == [] then [] else full[|full| - 1].fd
      ensures fd == Fold(num, [], popped)
    {
      hide Sorted, Fold, Logged, Lines, Keeps, Mass, SquaredLength, num.Lawful, num.Faithful;
      FullHolds(num, popped, partial, full, |full|);
      fd := from;
      ghost var n := |full|;
      var start := if full == [] then 0 else full[|full| - 1].next;
      var i := start;
      while i < |partial|
        invariant start <= i <= |partial|
        invariant fd == Fold(num, [], popped[..i + n])
      {
        assert popped[..i + n + 1] == popped[..i + n] + [popped[i + n]];
        FoldOne(num, popped[..i + n], popped[i + n]);
        KeptIn(num, popped, partial, full, n, i);
        fd := num.Push(fd, partial[i].row);
        i := i + 1;
      }
      assert popped[..i + n] == popped;
    }

    /** std::upper_bound over the full checkpoints */
    method FullsBefore(t: nat) returns (i: nat)
      requires Valid()
      ensures i <= |full| && (0 < i ==> full[i - 1].ts <= t) && (i < |full| ==> t < full[i].ts)
    {
      hide Logged, Fold, Sorted;
      var hi: nat;
      i, hi := 0, |full|;
      while i < hi
        invariant i <= hi <= |full|
        invariant (0 < i ==> full[i - 1].ts <= t) && (hi < |full| ==> t < full[hi].ts)
      {
        var mid := (i + hi) / 2;
        if t < full[mid].ts { hi := mid; } else { i := mid + 1; }
      }
    }

    /** The sketch holds all rows popped before the p-th kept one, none of them later than t. */
    ghost predicate Replaying(i: nat, p: nat, t: nat, fd: Matrix)
      reads this
    {
      && i <= |full| && Next(full, i) <= p <= |partial| && p + i <= |popped|
      && fd == Fold(num, [], popped[..p + i])
      && (0 < p + i ==> popped[p + i - 1].ts <= t)
      && (i < |full| ==> p <= full[i].next && t < full[i].ts)
    }

    lemma ReplayStarts(i: nat, t: nat)
      requires Valid() && i <= |full| && (0 < i ==> full[i - 1].ts <= t) && (i < |full| ==> t < full[i].ts)
      ensures Next(full, i) <= |partial| && Replaying(i, Next(full, i), t, if i == 0 then [] else full[i - 1].fd)
    {
      hide Logged, Fold, Sorted;
      FullHolds(num, popped, partial, full, i);
    }

    lemma ReplayStep(i: nat, p: nat, t: nat, fd: Matrix)
      requires Valid() && Replaying(i, p, t, fd) && p < |partial| && partial[p].ts <= t
      ensures Replaying(i, p + 1, t, num.Push(fd, partial[p].row))
    {
      hide Logged, Fold, Sorted, num.Push;
      Kept(i, p, t);
      assert popped[..p + i + 1] == popped[..p + i] + [popped[p + i]];
      FoldOne(num, popped[..p + i], popped[p + i]);
    }

    lemma ReplayStops(i: nat, p: nat, t: nat, fd: Matrix)
      requires Valid() && Replaying(i, p, t, fd) && (p == |partial| || t < partial[p].ts)
      ensures fd == Fold(num, [], UpTo(popped, t)) && p - Next(full, i) < num.l
    {
      hide Logged, Fold, Sorted;
      StopsInTime(i, p, t);
      UpToIsPrefix(popped, t, p + i);
    }

    /** `get_covariance_matrix`, up to the matrix product: all rows popped by t, in order */
    method SketchAt(t: nat) returns (fd: Matrix, ghost replayed: nat)
      requires Valid()
      ensures fd == Fold(num, [], UpTo(popped, t))
      ensures replayed < num.l
      ensures num.Faithful() ==> Keeps(num.l, fd, Lines(UpTo(popped, t)))
      ensures num.Faithful() && since <= t && (t < last || Settled(num, c, af2, target)) ==>
                Recalls(num.l, fd, Lines(UpTo(fed, t)))
    {
      hide Valid, Replaying, Fold, num.Faithful, Keeps, Recalls;
      var i := FullsBefore(t);
      ReplayStarts(i, t);
      fd := if i == 0 then [] else full[i - 1].fd;
      var p := if i == 0 then 0 else full[i - 1].next;
      ghost var start := p;
      while p < |partial| && partial[p].ts <= t
        invariant start <= p <= |partial| && Replaying(i, p, t, fd)
      {
        ReplayStep(i, p, t, fd);
        fd := num.Push(fd, partial[p].row);
        p := p + 1;
      }
      ReplayStops(i, p, t, fd);
      replayed := p - start;
      if num.Faithful() {
        FoldKeeps(num, UpTo(popped, t));
        if since <= t && (t < last || Settled(num, c, af2, target)) {
          RecalledAt(t);
          RecallsOn(num.l, fd, Lines(UpTo(popped, t)), Lines(UpTo(fed, t)));
        }
      }
    }

    lemma RecalledAt(t: nat)
      requires Valid() && num.Faithful() && since <= t && (t < last || Settled(num, c, af2, target))
      ensures Recalls(num.l, Lines(UpTo(popped, t)), Lines(UpTo(fed, t)))
    {
      hide Recalls, Logged, Settled, num.Faithful;
      assert Recalled(t);
    }

    /** While the replay goes on it has not reached the next full checkpoint. */
    lemma Kept(i: nat, p: nat, t: nat)
      requires Valid() && i <= |full| && Next(full, i) <= p < |partial| && partial[p].ts <= t
      requires i < |full| ==> t < full[i].ts
      ensures p + i < |popped| && partial[p] == popped[p + i] && (i < |full| ==> p < full[i].next)
    {
      hide Logged, Fold, Sorted;
      FullHolds(num, popped, partial, full, i);
      ghost var k := KeptIsPopped(num, popped, partial, full, i, p);
      if i < |full| { Later(full[i].next + i, p + k); }
      KeptIn(num, popped, partial, full, i, p);
    }

    lemma Later(a: nat, b: nat)
      requires Valid() && a < |popped| && b < |popped|
      ensures a <= b ==> popped[a].ts <= popped[b].ts
    {
    }

    lemma StopsInTime(i: nat, p: nat, t: nat)
      requires Valid() && i <= |full| && Next(full, i) <= p <= |partial| && p + i <= |popped|
      requires i < |full| ==> p <= full[i].next && t < full[i].ts
      requires p == |partial| || t < partial[p].ts
      ensures p + i == |popped| || t < popped[p + i].ts
      ensures p - Next(full, i) < num.l
      ensures Sorted(popped)
    {
      hide Logged, Fold, Sorted;
      FullHolds(num, popped, partial, full, i);
      if p < |partial| && (i < |full| ==> p < full[i].next) { KeptIn(num, popped, partial, full, i, p); }
    }
  }

  /** Rows stamped ts are not seen before. */
  lemma {:induction false} UpToEarlier(before: seq<Stamped>, after: seq<Stamped>, ts: nat, t: nat)
    requires Pops(before, after, ts) && t < ts
    ensures UpTo(after, t) == UpTo(before, t)
  {
    if |before| < |after| {
      var n := |after| - 1;
      assert after[..n][..|before|] == before;
      UpToEarlier(before, after[..n], ts, t);
    } else {
      assert after == before;
    }
  }

  lemma {:induction false} UpToEverything(rows: seq<Stamped>, t: nat)
    requires forall r <- rows :: r.ts <= t
    ensures UpTo(rows, t) == rows
  {
    if rows != [] {
      var n := |rows| - 1;
      assert rows == rows[..n] + [rows[n]];
      UpToEverything(rows[..n], t);
    }
  }

  lemma TimesShare(l: nat, a: real, u: real)
    requires 0 < l && u <= a / l as real
    ensures l as real * u <= a
  {
    var d, q := l as real, a / l as real;
    assert q * d == a;
    assert d * u <= d * q by { AtMostTimes(d, u, q); }
  }

  lemma FoldOne(num: Numerics, rows: seq<Stamped>, r: Stamped)
    ensures Fold(num, [], rows + [r]) == num.Push(Fold(num, [], rows), r.row)
  {
    assert (rows + [r])[..|rows|] == rows;
  }

  lemma SortedMore(rows: seq<Stamped>, r: Stamped)
    requires Sorted(rows) && (rows != [] ==> rows[|rows| - 1].ts <= r.ts)
    ensures Sorted(rows + [r])
  {
  }

  // ----- runs

  /** The sum of the squared lengths obeys the laws as the largest singular value does. */
  lemma LawsCanHold(l: nat)
    requires 0 < l
    ensures Numerics(l, m => [], m => Mass(m)).Lawful()
  {
    hide SquaredLength;
    forall m: Matrix, row: Row ensures Mass(m + [row]) <= Mass(m) + SquaredLength(row) {
      assert (m + [row])[..|m|] == m;
    }
    forall row: Row ensures Mass([row]) == SquaredLength(row) {
      assert [row][..0] == [];
    }
  }

  /** Buffers of two rows may be emptied: that takes off no more along any direction than in all. */
  lemma FaithfulCanHold()
    ensures var num := Numerics(1, m => [], m => Mass(m)); num.Lawful() && num.Faithful()
  {
    hide SquaredLength, Mass, Along;
    LawsCanHold(1);
    forall m: Matrix, x: Row | SquaredLength(x) == 1.0 ensures Along(m, x) <= Mass(m) && KeepsAlong(1, [], m, x) {
      AlongIsSmall(m, x);
      NotNegative(m, x);
      Emptied(x);
    }
  }

  lemma Emptied(x: Row)
    ensures Along([], x) == 0.0 == Mass([])
  {
  }

  /** The first non-zero row is popped at once and becomes the target. */
  lemma FirstTarget(num: Numerics, a: Row, bound: real, af2: real, target: real, c: Matrix, popped: seq<Stamped>)
    requires num.Lawful() && 0.0 < SquaredLength(a) == af2 && bound == af2 / num.l as real
    requires Drained(num, num.Push([], a), bound, 1, [], c, popped)
    requires Settled(num, c, af2, target) && target == af2 - num.top(c)
    ensures target == af2
  {
    hide SquaredLength;
    num.SingleTop(a);
    Share(af2, num.l);
    assert c == [a] || c == [] by { assert [a][0..] == [a] && [a][1..] == []; }
  }

  lemma StillQuiet(a: real, l: nat)
    requires 0.0 < a && 0 < l
    ensures Quiet(a, l, a) && !Quiet(a, l, 0.0)
  {
    var d := l as real;
    assert (l - 1) as real == d - 1.0;
    assert a * (l - 1) as real == a * d - a;
    Spread(a, d);
    Share(a, l);
    assert a / d <= a;
  }

  /** The same non-zero row before and after a clear: the second time the residue is the whole row. */
  method StaleRun(num: Numerics, a: Row) returns (fd: FD_ATTP)
    requires num.Lawful() && 0.0 < SquaredLength(a)
    ensures fd.Valid() && fd.num == num && fd.af2 == SquaredLength(a) && fd.c == [a]
    ensures !Settled(num, fd.c, fd.af2, fd.target)
  {
    hide *;
    num.SingleTop(a);
    fd := new FD_ATTP(num);
    StillQuiet(SquaredLength(a), num.l);
    var ok := fd.Update(1, a);
    FirstTarget(num, a, fd.af2 / num.l as real, fd.af2, fd.target, fd.c, fd.popped);
    fd.ClearThenUpdate(2, a);
  }

  /** A first row of zeroes: the loop asks an empty sketch for a row. */
  method ZeroRun(num: Numerics, a: Row) returns (fd: FD_ATTP, ok: bool)
    requires num.Lawful() && SquaredLength(a) == 0.0
    ensures fd.num == num && !ok && fd.c == []
  {
    hide *;
    num.SingleTop(a);
    fd := new FD_ATTP(num);
    NothingQuiet(num.l);
    ok := fd.Update(1, a);
  }

  lemma NothingQuiet(l: nat)
    requires 0 < l
    ensures !Quiet(0.0, l, 0.0)
  {
  }
}
