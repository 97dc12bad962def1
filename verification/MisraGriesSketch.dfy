/** The `MisraGries` object of misra_gries.cpp, proved against `MisraGriesSpec`. */
module MisraGriesSketch {
  import opened Counts
  import opened MisraGriesSpec
  import opened Products
  import opened Timeline

  /** Every hit makes up a (frac - eps) share of the occurrences h, and every key with a frac share is hit. */
  ghost predicate FoundIn(hits: map<Key, nat>, h: multiset<Key>, frac: real, eps: real) {
    && (forall x <- hits :: h[x] as real >= |h| as real * (frac - eps))
    && (0 < |h| && eps < frac ==> forall x: Key | h[x] as real >= |h| as real * frac :: x in hits)
  }

  /** The answer is right for whatever occurrences, total in number, the sketch stands for. */
  ghost predicate Answers(s: Summary, hits: map<Key, nat>, total: nat, frac: real, eps: real) {
    forall h | StandsFor(s, h) && |h| == total :: FoundIn(hits, h, frac, eps)
  }

  lemma HitsAnswer(s: Summary, hits: map<Key, nat>, total: nat, frac: real, eps: real)
    requires 0 < s.k && 1.0 / s.k as real <= eps
    requires forall x :: x in hits <==> x in s.cnt && s.cnt[x] >= Ceil(total as real * (frac - eps))
    ensures Answers(s, hits, total, frac, eps)
  {
    hide FoundIn, StandsFor, Ceil;
    forall h | StandsFor(s, h) && |h| == total ensures FoundIn(hits, h, frac, eps) {
      HitsFoundIn(s, hits, h, frac, eps, total as real * (frac - eps));
    }
  }

  lemma HitsFoundIn(s: Summary, hits: map<Key, nat>, h: multiset<Key>, frac: real, eps: real, threshold: real)
    requires StandsFor(s, h) && 1.0 / s.k as real <= eps && threshold == |h| as real * (frac - eps)
    requires forall x :: x in hits <==> x in s.cnt && s.cnt[x] >= Ceil(threshold)
    ensures FoundIn(hits, h, frac, eps)
  {
    hide *;
    forall x <- hits ensures h[x] as real >= threshold {
      HitOccurs(s, h, x, threshold);
    }
    if 0 < |h| && eps < frac {
      PositiveProduct(|h| as real, frac - eps, threshold);
      var share := |h| as real * frac;
      forall x: Key | h[x] as real >= share ensures x in hits {
        ShareIsHit(s, h, x, frac, eps, threshold, share);
      }
    }
    AreFound(hits, h, frac, eps, threshold, |h| as real * frac);
  }

  lemma AreFound(hits: map<Key, nat>, h: multiset<Key>, frac: real, eps: real, threshold: real, share: real)
    requires threshold == |h| as real * (frac - eps) && share == |h| as real * frac
    requires forall x <- hits :: h[x] as real >= threshold
    requires 0 < |h| && eps < frac ==> forall x: Key | h[x] as real >= share :: x in hits
    ensures FoundIn(hits, h, frac, eps)
  {
  }

  lemma ShareIsHit(s: Summary, h: multiset<Key>, x: Key, frac: real, eps: real, threshold: real, share: real)
    requires StandsFor(s, h) && 1.0 / s.k as real <= eps && share <= h[x] as real
    requires threshold == |h| as real * (frac - eps) && share == |h| as real * frac && 0.0 < threshold
    ensures x in s.cnt && s.cnt[x] >= Ceil(threshold)
  {
    hide *;
    StandsForCredit(s, h);
    var loss := |h| as real * (1.0 / s.k as real);
    CreditLoss(s, h, x, loss);
    LossWithin(1.0 / s.k as real, eps, |h| as real, loss);
    Reaches(|h| as real, frac, eps, h[x] as real, Get(s.cnt, x) as real, threshold);
    IsHit(s, x, threshold);
  }

  lemma PositiveProduct(a: real, b: real, p: real)
    requires 0.0 < a && 0.0 < b && p == a * b
    ensures 0.0 < p
  {
  }

  lemma LossWithin(a: real, eps: real, n: real, loss: real)
    requires a <= eps && 0.0 <= n && loss == n * a
    ensures loss <= n * eps
  {
    Scaled(a, eps, n);
  }

  lemma Reaches(n: real, frac: real, eps: real, f: real, c: real, threshold: real)
    requires n * frac <= f <= c + n * eps && threshold == n * (frac - eps)
    ensures threshold <= c
  {
    assert n * (frac - eps) == n * frac - n * eps;
  }

  lemma HitOccurs(s: Summary, h: multiset<Key>, x: Key, threshold: real)
    requires StandsFor(s, h) && x in s.cnt && s.cnt[x] >= Ceil(threshold)
    ensures h[x] as real >= threshold
  {
    hide Credit;
  }

  lemma IsHit(s: Summary, x: Key, threshold: real)
    requires 0.0 < threshold <= Get(s.cnt, x) as real
    ensures x in s.cnt && s.cnt[x] >= Ceil(threshold)
  {
  }

  lemma CreditLoss(s: Summary, h: multiset<Key>, x: Key, loss: real)
    requires StandsFor(s, h) && loss == |h| as real * (1.0 / s.k as real)
    ensures h[x] as real <= Get(s.cnt, x) as real + loss
  {
    hide *;
    StandsForCredit(s, h);
    CreditOwed(s.k, s.Effective(), h, x);
    EffectiveIsLess(s, x);
    LossShare(s.k, h[x] - Get(s.Effective(), x), |h|, loss);
  }

  lemma LossShare(k: nat, u: nat, n: nat, loss: real)
    requires 0 < k && Times(k, u) <= n && loss == n as real * (1.0 / k as real)
    ensures u as real <= loss
  {
    hide Times;
    TimesIsProduct(k, u);
    assert (k * u) as real == k as real * u as real;
    Share(k as real, u as real, n as real);
  }

  lemma StandsForCredit(s: Summary, h: multiset<Key>)
    requires StandsFor(s, h)
    ensures 0 < s.k && Credit(s.k, s.Effective(), h)
  {
  }

  lemma CreditOwed(k: nat, e: Table, h: multiset<Key>, x: Key)
    requires Credit(k, e, h)
    ensures Get(e, x) <= h[x] && Times(k, h[x] - Get(e, x)) <= |h|
  {
    assert Owed(k, e, h, x);
  }

  lemma CeilOf(epsilon: real, k: nat)
    requires 0.0 < epsilon && 0 < k && Ceil(1.0 / epsilon) <= k
    ensures 1.0 / k as real <= epsilon
  {
    var q := 1.0 / epsilon;
    assert q * epsilon == 1.0;
    Scaled(q, k as real, epsilon);
    Scaled(1.0, k as real * epsilon, 1.0 / k as real);
    Cancelled(k as real, epsilon);
  }

  lemma Cancelled(k: real, e: real)
    requires k > 0.0
    ensures k * e * (1.0 / k) == e
  {
    assert k * (1.0 / k) == 1.0;
    assert k * e * (1.0 / k) == e * (k * (1.0 / k));
  }

  class MisraGries {
    const k: nat
    const eps: real
    var cnt: Table
    var minCnt: Min
    var delta: nat

    ghost function State(): Summary
      reads this
    {
      Summary(k, cnt, minCnt, delta)
    }

    /** What merging needs of both sides; the minimum may be stale. */
    ghost predicate Mergeable()
      reads this
    {
      forall x <- cnt :: cnt[x] > delta
    }

    constructor (k: nat)
      requires 0 < k
      ensures State() == Empty(k) && eps == 1.0 / k as real
      ensures Mergeable()
    {
      this.k, eps := k, 1.0 / k as real;
      cnt, minCnt, delta := map[], Infinite, 0;
    }

    constructor ForError(epsilon: real)
      requires 0.0 < epsilon
      ensures 2 <= k && State() == Empty(k) && eps == epsilon && 1.0 / k as real <= eps
      ensures Mergeable()
    {
      var wanted := Ceil(1.0 / epsilon);
      var room: nat := if wanted < 2 then 2 else wanted;
      CeilOf(epsilon, room);
      k, eps := room, epsilon;
      cnt, minCnt, delta := map[], Infinite, 0;
    }

    constructor Clone(other: MisraGries)
      ensures State() == other.State() && eps == other.eps
    {
      k, eps := other.k, other.eps;
      cnt, minCnt, delta := other.cnt, other.minCnt, other.delta;
    }

    constructor Holding(k: nat, t: Table)
      requires Positive(t)
      ensures this.k == k && cnt == t && delta == 0 && Mergeable()
    {
      this.k, eps := k, if k == 0 then 0.0 else 1.0 / k as real;
      cnt, minCnt, delta := t, Infinite, 0;
    }

    lemma MergeableIsRaw()
      requires Mergeable() && delta == 0
      ensures State().Effective() == cnt && State().k == k
    {
      EffectiveIsRaw(State());
    }

    method Clear()
      modifies this
      ensures State() == Empty(k)
    {
      cnt, minCnt, delta := map[], Infinite, 0;
    }

    /** Take amount from every counter, erase those it empties, and recompute the minimum. */
    method Pass(amount: nat) returns (deleted: seq<Key>)
      requires forall x <- cnt :: amount <= cnt[x]
      modifies this`cnt, this`minCnt
      ensures cnt == Subtract(old(cnt), amount) && minCnt == MinOf(cnt)
      ensures forall x :: x in deleted <==> x in old(cnt) && x !in cnt
      ensures forall i, j :: 0 <= i < j < |deleted| ==> deleted[i] != deleted[j]
    {
      hide MinOf, Erased, Passing, Subtract;
      var newMin := Infinite;
      var todo := cnt.Keys;
      ghost var before := cnt;
      deleted := [];
      NoneErased(cnt);
      NonePassed(cnt, amount);
      while todo != {}
        invariant todo <= cnt.Keys && (forall x <- todo :: amount <= cnt[x])
        invariant Passing(before, cnt, todo, amount, newMin) && Erased(deleted, before, cnt)
      {
        var x :| x in todo;
        var v := cnt[x] - amount;
        OnePassed(before, cnt, todo, amount, newMin, x);
        OneErased(deleted, before, cnt, x, v);
        todo := todo - {x};
        if v != 0 {
          cnt := cnt[x := v];
          newMin := Least(v, newMin);
        } else {
          deleted := deleted + [x];
          cnt := cnt - {x};
        }
      }
      AllPassed(before, cnt, amount, newMin);
      MinOfUnique(newMin, cnt);
      minCnt := newMin;
      AreErased(deleted, before, cnt);
    }

    /** All counters but those still to do have given the amount, and m is the least that is left of them. */
    static ghost predicate Passing(before: Table, now: Table, todo: set<Key>, amount: nat, m: Min) {
      && todo <= now.Keys <= before.Keys
      && (forall x <- todo :: now[x] == before[x])
      && (forall x <- before.Keys - todo :: x in now <==> before[x] > amount)
      && (forall x <- now.Keys - todo :: now[x] == before[x] - amount && m.Finite? && m.n <= now[x])
      && (m.Finite? ==> exists x :: x in now.Keys - todo && now[x] == m.n)
    }

    static lemma NonePassed(t: Table, amount: nat)
      ensures Passing(t, t, t.Keys, amount, Infinite)
    {
    }

    static lemma OnePassed(before: Table, now: Table, todo: set<Key>, amount: nat, m: Min, x: Key)
      requires Passing(before, now, todo, amount, m) && x in todo && x in now && amount <= now[x]
      ensures now[x] > amount ==> Passing(before, now[x := now[x] - amount], todo - {x}, amount,
          Least(now[x] - amount, m))
      ensures now[x] == amount ==> Passing(before, now - {x}, todo - {x}, amount, m)
    {
      if now[x] > amount {
        var now' := now[x := now[x] - amount];
        assert x in now'.Keys - (todo - {x}) && now'[x] == now[x] - amount;
        if m.Finite? {
          var y :| y in now.Keys - todo && now[y] == m.n;
          assert y in now'.Keys - (todo - {x}) && now'[y] == m.n;
        }
      } else if m.Finite? {
        var y :| y in now.Keys - todo && now[y] == m.n;
        assert y in (now - {x}).Keys - (todo - {x}) && (now - {x})[y] == m.n;
      }
    }

    static lemma AllPassed(before: Table, now: Table, amount: nat, m: Min)
      requires Passing(before, now, {}, amount, m)
      ensures now == Subtract(before, amount) && IsMinOf(m, now)
    {
    }

    /** The keys erased so far, each once. */
    static ghost predicate Erased(deleted: seq<Key>, before: Table, now: Table) {
      && (forall x :: x in deleted <==> x in before && x !in now)
      && (forall i, j :: 0 <= i < j < |deleted| ==> deleted[i] != deleted[j])
    }

    static lemma NoneErased(t: Table)
      ensures Erased([], t, t)
    {
    }

    static lemma OneErased(deleted: seq<Key>, before: Table, now: Table, x: Key, v: nat)
      requires Erased(deleted, before, now) && x in before && x in now
      ensures Erased(deleted + [x], before, now - {x}) && Erased(deleted, before, now[x := v])
    {
    }

    static lemma AreErased(deleted: seq<Key>, before: Table, now: Table)
      requires Erased(deleted, before, now)
      ensures forall x :: x in deleted <==> x in before && x !in now
      ensures forall i, j :: 0 <= i < j < |deleted| ==> deleted[i] != deleted[j]
    {
    }

    /** `update_impl`; the keys erased on the way are returned in the order they went. */
    method UpdateImpl(element: Key, w: nat) returns (deleted: seq<Key>)
      requires State().Valid() && w > 0
      modifies this
      ensures State() == Step(old(State()), element, w, false)
      ensures forall x :: x in deleted && x != element ==> x in old(cnt) && x !in cnt
      ensures forall x :: x in old(cnt) && x !in cnt ==> x in deleted
      ensures element !in deleted
      ensures forall i, j :: 0 <= i < j < |deleted| ==> deleted[i] != deleted[j]
    {
      hide MinOf, Settle;
      deleted := [];
      if element in cnt {
        cnt := cnt[element := cnt[element] + w];
        return;
      }
      if |cnt| < k - 1 {
        cnt := cnt[element := w];
        minCnt := Least(w, minCnt);
        return;
      }
      delta := delta + w;
      if !Below(delta, minCnt) {
        delta := delta - minCnt.n;
        deleted := Pass(minCnt.n);
        ghost var left := cnt;
        var more := SettlePending(element);
        assert forall x <- deleted :: x !in left;
        AppendDistinct(deleted, more);
        deleted := deleted + more;
      }
    }

    static lemma AppendDistinct(a: seq<Key>, b: seq<Key>)
      requires forall i, j :: 0 <= i < j < |a| ==> a[i] != a[j]
      requires forall i, j :: 0 <= i < j < |b| ==> b[i] != b[j]
      requires forall x <- a :: x !in b
      ensures forall i, j :: 0 <= i < j < |a + b| ==> (a + b)[i] != (a + b)[j]
    {
      var s := a + b;
      forall i, j | 0 <= i < j < |s| ensures s[i] != s[j] {
        if i < |a| <= j { assert s[i] in a && s[j] in b; }
      }
    }

    /** What `update_impl` does after its first pass. */
    method SettlePending(element: Key) returns (deleted: seq<Key>)
      requires minCnt == MinOf(cnt) && k > 0 && element !in cnt
      modifies this
      ensures State() == Settle(k, old(cnt), old(delta), element, false)
      ensures cnt.Keys <= old(cnt.Keys) + {element}
      ensures forall x :: x in deleted ==> x in old(cnt)
      ensures forall x :: x in deleted ==> x !in cnt
      ensures forall x :: x in old(cnt) && x !in cnt ==> x in deleted
      ensures forall i, j :: 0 <= i < j < |deleted| ==> deleted[i] != deleted[j]
    {
      hide MinOf;
      deleted := [];
      if delta == 0 { return; }
      if !Below(delta, minCnt) {
        var m := minCnt.n;
        deleted := Pass(m);
        delta := delta - m;
      }
      if delta == 0 { return; }
      cnt := cnt[element := delta];
      minCnt := Least(delta, minCnt);
      delta := 0;
    }

    method ResetDelta()
      requires Mergeable()
      modifies this
      ensures State() == Summary(k, old(State().Effective()), MinOf(cnt), 0)
    {
      var _ := Pass(delta);
      delta := 0;
    }

    /** `update` with a single occurrence, h being what the sketch stands for so far. */
    method Update(element: Key, ghost h: multiset<Key>)
      requires State().Valid() && Credit(k, State().Effective(), h) && NoOvercount(cnt, h)
      modifies this
      ensures State().Valid()
      ensures Credit(k, State().Effective(), Occurs(h, element, 1))
      ensures NoOvercount(cnt, Occurs(h, element, 1))
      ensures State() == Step(old(State()), element, 1, false)
    {
      hide Step, Credit, Occurs, NoOvercount;
      StepNeverOvercounts(State(), element, 1, h);
      StepIsValid(State(), element, 1);
      StepKeepsCredit(State(), element, 1, h);
      UnitStepIsGuarded(State(), element);
      var _ := UpdateImpl(element, 1);
    }

    /** `update_impl` of a new key into a free slot. */
    method Store(element: Key, w: nat)
      requires State().Valid() && w > 0 && element !in cnt && |cnt| < k - 1
      modifies this
      ensures State().Valid() && delta == old(delta) && cnt == old(cnt)[element := w]
    {
      hide MinOf;
      ghost var s := State();
      var _ := UpdateImpl(element, w);
      InsertIsValid(k, s.cnt, s.minCnt, element, w);
    }

    /** Apply the pending subtraction, if there is one. */
    method Settled()
      requires State().Valid()
      modifies this
      ensures State().Valid() && delta == 0 && Positive(cnt)
      ensures cnt == State().Effective() == old(State().Effective())
      ensures forall x <- cnt :: x in old(cnt) && cnt[x] <= old(cnt[x])
      ensures old(delta) == 0 ==> State() == old(State())
      ensures old(delta) != 0 ==> minCnt == MinOf(cnt)
    {
      hide MinOf;
      ghost var s := State();
      if delta != 0 {
        ResetDelta();
        ResetIsValid(s, State());
      } else {
        EffectiveIsRaw(s);
      }
    }

    /** Applying a pending subtraction, if there is one, before a merge. */
    method Applied()
      requires Mergeable()
      modifies this
      ensures delta == 0 && cnt == old(State().Effective()) && Mergeable()
    {
      if delta != 0 { ResetDelta(); }
    }

    method Merge(other: MisraGries)
      requires this != other && Mergeable() && other.Mergeable()
      modifies this, other
      ensures Merged(k, old(State().Effective()), old(other.State().Effective()), cnt)
      ensures Trimmed(k, Add(old(State().Effective()), old(other.State().Effective())), cnt)
      ensures delta == 0 && other.delta == 0 && other.cnt == old(other.State().Effective())
      ensures Mergeable() && other.Mergeable()
    {
      hide Add, Subtract, IsKthLargest, Trimmed;
      Applied();
      other.Applied();
      AddAll(other);
      AddIsPositive(old(State().Effective()), old(other.State().Effective()));
      if |cnt| > k {
        var d := NthElement(cnt, k);
        SubtractIsPositive(cnt, d);
        Truncate(d);
      }
      MergedExactly(k, old(State().Effective()), old(other.State().Effective()), cnt);
    }

    /** The first loop of `merge`. */
    method AddAll(other: MisraGries)
      requires this != other
      modifies this`cnt
      ensures cnt == Add(old(cnt), other.cnt)
    {
      ghost var a := cnt;
      var todo := other.cnt.Keys;
      while todo != {}
        invariant todo <= other.cnt.Keys
        invariant cnt == Add(a, other.cnt - todo)
      {
        var x :| x in todo;
        todo := todo - {x};
        cnt := cnt[x := Get(cnt, x) + other.cnt[x]];
        AddOne(a, other.cnt - todo, x);
        assert other.cnt - todo - {x} == other.cnt - (todo + {x});
      }
      assert other.cnt - todo == other.cnt;
    }

    /** The closing loop of `merge`. */
    method Truncate(d: nat)
      modifies this`cnt
      ensures cnt == Subtract(old(cnt), d)
    {
      ghost var before := cnt;
      var todo := cnt.Keys;
      while todo != {}
        invariant todo <= cnt.Keys <= before.Keys
        invariant forall x <- todo :: cnt[x] == before[x]
        invariant forall x <- before.Keys - todo :: x in cnt <==> before[x] > d
        invariant forall x <- cnt.Keys - todo :: cnt[x] == before[x] - d
      {
        var x :| x in todo;
        todo := todo - {x};
        cnt := if cnt[x] <= d then cnt - {x} else cnt[x := cnt[x] - d];
      }
      assert cnt == Subtract(before, d);
    }

    /** `estimate_heavy_hitters`; total is the number of occurrences the sketch stands for */
    method EstimateHeavyHitters(frac: real, total: nat) returns (hits: map<Key, nat>)
      requires eps <= frac
      ensures forall x :: x in hits <==> x in cnt && cnt[x] >= Ceil(total as real * (frac - eps))
      ensures forall x <- hits :: hits[x] == cnt[x]
      ensures 0 < k && 1.0 / k as real <= eps ==> Answers(State(), hits, total, frac, eps)
    {
      hide Ceil, Answers;
      var threshold := Ceil(total as real * (frac - eps));
      hits := map x | x in cnt && cnt[x] >= threshold :: cnt[x];
      if 0 < k && 1.0 / k as real <= eps {
        HitsAnswer(State(), hits, total, frac, eps);
      }
    }
  }

  /** The value at position k of the counters in falling order, as `std::nth_element` finds it. */
  method NthElement(t: Table, k: nat) returns (d: nat)
    requires k < |t|
    ensures IsKthLargest(t, k, d)
  {
    hide IsKthLargest, Above, AtLeast;
    var rest, taken := t, 0;
    ghost var out: set<Key> := {};
    d := 0;
    while taken <= k
      invariant 0 <= taken <= k + 1 && Taken(t, rest, out, taken, d)
      decreases k + 1 - taken
    {
      TakeOne(t, rest, out, taken, d);
      d := MaxOf(rest);
      var x :| x in rest && rest[x] == d;
      TakenOne(t, rest, out, taken, d, x);
      rest := rest - {x};
      out := out + {x};
      taken := taken + 1;
    }
    TakenAll(t, rest, out, k, d);
  }

  /** The keys `out`, taken in number, carry the largest counters of t, none below d. */
  ghost predicate Taken(t: Table, rest: Table, out: set<Key>, taken: nat, d: nat) {
    && rest.Keys == t.Keys - out && out <= t.Keys && |out| == taken
    && (forall x <- rest :: rest[x] == t[x])
    && (taken > 0 ==> forall x <- rest :: t[x] <= d)
    && (taken > 0 ==> (exists x :: x in out && t[x] == d) && forall x <- out :: d <= t[x])
    && (taken > 0 ==> |Above(t, d)| < taken)
  }

  lemma TakeOne(t: Table, rest: Table, out: set<Key>, taken: nat, d: nat)
    requires Taken(t, rest, out, taken, d) && taken < |t|
    ensures rest != map[]
  {
    hide Above;
    Subset(t.Keys, t.Keys);
    assert t.Keys == rest.Keys + out;
  }

  lemma TakenOne(t: Table, rest: Table, out: set<Key>, taken: nat, d: nat, x: Key)
    requires x in rest && rest[x] == d && (forall y <- rest :: rest[y] <= d)
    requires exists d0: nat :: Taken(t, rest, out, taken, d0)
    ensures Taken(t, rest - {x}, out + {x}, taken + 1, d)
  {
    assert Above(t, d) <= out;
    Subset(Above(t, d), out);
    assert x in out + {x} && t[x] == d;
  }

  lemma TakenAll(t: Table, rest: Table, out: set<Key>, k: nat, d: nat)
    requires Taken(t, rest, out, k + 1, d)
    ensures IsKthLargest(t, k, d)
  {
    Subset(out, AtLeast(t, d));
  }

  method MaxOf(t: Table) returns (d: nat)
    requires t != map[]
    ensures (exists x :: x in t && t[x] == d) && forall x <- t :: t[x] <= d
  {
    var todo := t.Keys;
    var x :| x in todo;
    d := t[x];
    while todo != {}
      invariant todo <= t.Keys
      invariant (exists x :: x in t && t[x] == d) && forall x <- t.Keys - todo :: t[x] <= d
    {
      var y :| y in todo;
      todo := todo - {y};
      if t[y] > d { d := t[y]; }
    }
  }
}
