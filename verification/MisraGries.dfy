/**
 The Misra-Gries summary (misra_gries.cpp). `Summary` is the specification state,
 `MisraGries` the object whose loops compute it.
 */
module MisraGriesSpec {
  import opened Products
  import opened Counts

  /** `m_min_cnt`, whose sentinel `~0ul` stands for "no counter". */
  datatype Min = Infinite | Finite(n: nat)

  predicate Below(v: nat, m: Min) {
    m.Infinite? || v < m.n
  }

  function Least(v: nat, m: Min): Min {
    if Below(v, m) then Finite(v) else m
  }

  ghost predicate LowerBound(m: Min, t: Table) {
    forall x <- t :: m.Finite? && m.n <= t[x]
  }

  ghost predicate IsMinOf(m: Min, t: Table) {
    && LowerBound(m, t)
    && (m.Finite? ==> exists x :: x in t && t[x] == m.n)
  }

  ghost function MinOf(t: Table): (m: Min)
    ensures IsMinOf(m, t)
  {
    if t == map[] then Infinite else
      var x :| x in t;
      var rest := MinOf(t - {x});
      assert forall y <- t :: y == x || y in t - {x};
      Least(t[x], rest)
  }

  lemma MinOfUnique(m: Min, t: Table)
    requires IsMinOf(m, t)
    ensures m == MinOf(t)
  {
  }

  datatype Summary = Summary(k: nat, cnt: Table, minCnt: Min, delta: nat) {

    ghost predicate Valid() {
      && 0 < k
      && |cnt| <= k - 1
      && LowerBound(minCnt, cnt)
      && Below(delta, minCnt)
      && (cnt == map[] ==> minCnt == Infinite)
      && (delta > 0 ==> |cnt| == k - 1)
    }

    /** The counters with the pending subtraction applied. */
    function Effective(): Table {
      Subtract(cnt, delta)
    }
  }

  function Empty(k: nat): Summary {
    Summary(k, map[], Infinite, 0)
  }

  function Insert(k: nat, t: Table, m: Min, x: Key, w: nat): Summary {
    Summary(k, t[x := w], Least(w, m), 0)
  }

  /**
   What follows the first pass, which left counters t and d pending. The source runs the
   second pass whenever d reaches the new minimum; `guarded` runs it only while the table
   is still full and otherwise leaves d pending, as unit tests 3, 6 and 8 expect.
   */
  ghost function Settle(k: nat, t: Table, d: nat, x: Key, guarded: bool): Summary
    requires 0 < k
  {
    var m := MinOf(t);
    var full := |t| == k - 1;
    if d == 0 then Summary(k, t, m, 0)
    else if guarded && full && Below(d, m) then Summary(k, t, m, d)
    else if (!guarded || full) && !Below(d, m) then
      var t2 := Subtract(t, m.n);
      if d == m.n then Summary(k, t2, MinOf(t2), 0) else Insert(k, t2, MinOf(t2), x, d - m.n)
    else Insert(k, t, m, x, d)
  }

  /** One call of `update_impl`. */
  ghost function Step(s: Summary, x: Key, w: nat, guarded: bool): Summary
    requires s.Valid() && w > 0
  {
    if x in s.cnt then s.(cnt := s.cnt[x := s.cnt[x] + w])
    else if |s.cnt| < s.k - 1 then s.(cnt := s.cnt[x := w], minCnt := Least(w, s.minCnt))
    else if Below(s.delta + w, s.minCnt) then s.(delta := s.delta + w)
    else Settle(s.k, Subtract(s.cnt, s.minCnt.n), s.delta + w - s.minCnt.n, x, guarded)
  }

  // ----- sizes and repeated subtraction

  lemma SubtractSize(t: Table, d: nat)
    ensures |Subtract(t, d)| <= |t|
    ensures (exists x :: x in t && t[x] <= d) ==> |Subtract(t, d)| < |t|
    ensures |Subtract(t, d)| == |t| ==> Subtract(t, d).Keys == t.Keys
  {
    var s := Subtract(t, d);
    assert s.Keys <= t.Keys;
    Subset(s.Keys, t.Keys);
    if x :| x in t && t[x] <= d { assert x !in s.Keys; }
  }

  lemma Subset<T>(a: set<T>, b: set<T>)
    requires a <= b
    ensures |a| <= |b|
    ensures |a| == |b| ==> a == b
    ensures a != b ==> |a| < |b|
  {
    assert b == a + (b - a);
  }

  lemma SubtractTwice(t: Table, a: nat, b: nat)
    ensures Subtract(Subtract(t, a), b) == Subtract(t, a + b)
  {
  }

  // ----- the guarded step keeps the representation invariant

  ghost predicate Positive(t: Table) {
    forall x <- t :: t[x] > 0
  }

  lemma InsertIsValid(k: nat, t: Table, m: Min, x: Key, w: nat)
    requires x !in t && |t| < k - 1 && w > 0 && LowerBound(m, t)
    requires t == map[] ==> m == Infinite
    requires m.Finite? ==> m.n > 0
    ensures Insert(k, t, m, x, w).Valid()
  {
    Grown(t, x, w);
  }

  lemma MinOfEmpty(t: Table)
    requires Positive(t)
    ensures t == map[] <==> MinOf(t) == Infinite
    ensures MinOf(t).Finite? ==> MinOf(t).n > 0
  {
    var m := MinOf(t);
    if t != map[] { var x :| x in t; assert m.Finite?; }
  }

  lemma SettleIsValid(k: nat, t: Table, d: nat, x: Key)
    requires 0 < k && |t| <= k - 1 && x !in t && Positive(t)
    ensures Settle(k, t, d, x, true).Valid() && Settle(k, t, d, x, true).k == k
  {
    var m := MinOf(t);
    MinOfEmpty(t);
    if d == 0 || (|t| == k - 1 && Below(d, m)) {
    } else if |t| < k - 1 {
      InsertIsValid(k, t, m, x, d);
    } else {
      var t2 := Subtract(t, m.n);
      SubtractSize(t, m.n);
      MinOfEmpty(t2);
      if d != m.n { InsertIsValid(k, t2, MinOf(t2), x, d - m.n); }
    }
  }

  lemma StepIsValid(s: Summary, x: Key, w: nat)
    requires s.Valid() && w > 0
    ensures Step(s, x, w, true).Valid() && Step(s, x, w, true).k == s.k
  {
    hide Settle, MinOf;
    if x in s.cnt {
      assert s.cnt[x := s.cnt[x] + w].Keys == s.cnt.Keys;
    } else if |s.cnt| < s.k - 1 {
      InsertIsValid(s.k, s.cnt, s.minCnt, x, w);
    } else if !Below(s.delta + w, s.minCnt) {
      SubtractSize(s.cnt, s.minCnt.n);
      SettleIsValid(s.k, Subtract(s.cnt, s.minCnt.n), s.delta + w - s.minCnt.n, x);
    }
  }

  lemma Grown(t: Table, x: Key, w: nat)
    ensures |t[x := w]| <= |t| + 1
    ensures x !in t ==> |t[x := w]| == |t| + 1
  {
    assert t[x := w].Keys == t.Keys + {x};
  }

  lemma UnitStepIsGuarded(s: Summary, x: Key)
    requires s.Valid()
    ensures Step(s, x, 1, false) == Step(s, x, 1, true)
  {
  }

  /** The state after feeding a stream of single occurrences with the code as written. */
  ghost function Run(k: nat, s: seq<Key>): (r: Summary)
    requires 0 < k
    ensures r.k == k && r.Valid()
    decreases |s|
  {
    if s == [] then Empty(k) else
      var before := Run(k, s[..|s| - 1]);
      StepIsValid(before, s[|s| - 1], 1);
      UnitStepIsGuarded(before, s[|s| - 1]);
      Step(before, s[|s| - 1], 1, false)
  }

  // ----- error accounting

  /**
   Table e summarises the history h: it never overcounts, and k times any undercount
   is paid for by the occurrences it dropped.
   */
  ghost predicate Credit(k: nat, e: Table, h: multiset<Key>) {
    forall x: Key :: Owed(k, e, h, x)
  }

  ghost predicate Owed(k: nat, e: Table, h: multiset<Key>, x: Key) {
    Get(e, x) <= h[x] && Times(k, h[x] - Get(e, x)) <= |h| - Sum(e)
  }

  function Occurs(h: multiset<Key>, x: Key, w: nat): multiset<Key> {
    h[x := h[x] + w]
  }

  lemma CreditAdd(k: nat, e: Table, h: multiset<Key>, x: Key, w: nat)
    requires Credit(k, e, h)
    ensures Credit(k, e[x := Get(e, x) + w], Occurs(h, x, w))
  {
    SumUpdate(e, x, Get(e, x) + w);
    var e', h' := e[x := Get(e, x) + w], Occurs(h, x, w);
    forall y: Key ensures Owed(k, e', h', y) {
      assert Owed(k, e, h, y);
    }
  }

  /** A full table pays for an occurrence of an absent key with one unit per counter. */
  lemma CreditDrop(k: nat, e: Table, h: multiset<Key>, x: Key, a: nat)
    requires Credit(k, e, h) && x !in e && |e| == k - 1 && forall y <- e :: a <= e[y]
    ensures Credit(k, Subtract(e, a), Occurs(h, x, a))
  {
    hide Owed, Sum, Times;
    var e', h' := Subtract(e, a), Occurs(h, x, a);
    forall y: Key ensures Owed(k, e', h', y) {
      DropKeepsOwed(k, e, h, x, a, y);
    }
  }

  lemma DropKeepsOwed(k: nat, e: Table, h: multiset<Key>, x: Key, a: nat, y: Key)
    requires Owed(k, e, h, y) && x !in e && |e| == k - 1 && forall y <- e :: a <= e[y]
    ensures Owed(k, Subtract(e, a), Occurs(h, x, a), y)
  {
    hide Sum, Times, Subtract;
    SumSubtract(e, a);
    TimesStep(k - 1, a);
    DropAt(e, h, x, a, y);
    var u, u' := h[y] - Get(e, y), Occurs(h, x, a)[y] - Get(Subtract(e, a), y);
    TimesMonotone(k, u', u + a);
    TimesAdd(k, u, a);
  }

  lemma DropAt(e: Table, h: multiset<Key>, x: Key, a: nat, y: Key)
    requires Get(e, y) <= h[y] && x !in e && forall z <- e :: a <= e[z]
    ensures Get(Subtract(e, a), y) <= Occurs(h, x, a)[y] <= Get(Subtract(e, a), y) + h[y] - Get(e, y) + a
    ensures |Occurs(h, x, a)| == |h| + a
  {
  }

  lemma EffectiveIsRaw(s: Summary)
    requires s.delta == 0 && Positive(s.cnt)
    ensures s.Effective() == s.cnt
  {
  }

  lemma AddIsPositive(a: Table, b: Table)
    requires Positive(a) && Positive(b)
    ensures Positive(Add(a, b))
  {
  }

  lemma SubtractIsPositive(t: Table, d: nat)
    ensures Positive(Subtract(t, d))
  {
  }

  lemma EffectiveIsLess(s: Summary, x: Key)
    ensures Get(s.Effective(), x) <= Get(s.cnt, x)
  {
  }

  lemma SettleKeepsCredit(k: nat, t: Table, d: nat, x: Key, h: multiset<Key>)
    requires 0 < k && |t| <= k - 1 && x !in t && Positive(t) && Credit(k, t, h)
    ensures Credit(k, Settle(k, t, d, x, true).Effective(), Occurs(h, x, d))
  {
    hide Credit, MinOf;
    var s', m := Settle(k, t, d, x, true), MinOf(t);
    if d == 0 {
      assert Occurs(h, x, 0) == h;
      EffectiveIsRaw(s');
    } else if |t| < k - 1 {
      CreditAdd(k, t, h, x, d);
      EffectiveIsRaw(s');
    } else if Below(d, m) {
      CreditDrop(k, t, h, x, d);
    } else {
      CreditDrop(k, t, h, x, m.n);
      var t2, h2 := Subtract(t, m.n), Occurs(h, x, m.n);
      CreditAdd(k, t2, h2, x, d - m.n);
      assert Occurs(h2, x, d - m.n) == Occurs(h, x, d);
      if d == m.n { assert t2[x := 0] - {x} == t2; assert Occurs(h2, x, 0) == h2; }
      EffectiveIsRaw(s');
    }
  }

  lemma PendingKeepsCredit(s: Summary, x: Key, a: nat, h: multiset<Key>)
    requires s.Valid() && Credit(s.k, s.Effective(), h)
    requires x !in s.cnt && |s.cnt| == s.k - 1 && forall y <- s.cnt :: s.delta + a <= s.cnt[y]
    ensures Credit(s.k, Subtract(s.cnt, s.delta + a), Occurs(h, x, a))
  {
    var e := s.Effective();
    assert e.Keys == s.cnt.Keys;
    assert |e| == |e.Keys| && |s.cnt| == |s.cnt.Keys|;
    CreditDrop(s.k, e, h, x, a);
    SubtractTwice(s.cnt, s.delta, a);
  }

  lemma RoomKeepsCredit(s: Summary, x: Key, w: nat, h: multiset<Key>)
    requires s.Valid() && w > 0 && Credit(s.k, s.Effective(), h)
    requires x in s.cnt || |s.cnt| < s.k - 1
    ensures Credit(s.k, Step(s, x, w, true).Effective(), Occurs(h, x, w))
  {
    hide Credit, Occurs;
    CreditAdd(s.k, s.Effective(), h, x, w);
    RoomEffective(s, x, w);
  }

  lemma RoomEffective(s: Summary, x: Key, w: nat)
    requires s.Valid() && w > 0 && (x in s.cnt || |s.cnt| < s.k - 1)
    ensures Step(s, x, w, true).Effective() == s.Effective()[x := Get(s.Effective(), x) + w]
  {
    hide Settle, MinOf;
  }

  lemma PassKeepsCredit(s: Summary, x: Key, w: nat, h: multiset<Key>)
    requires s.Valid() && w > 0 && Credit(s.k, s.Effective(), h)
    requires x !in s.cnt && |s.cnt| == s.k - 1 && !Below(s.delta + w, s.minCnt)
    ensures Credit(s.k, Settle(s.k, Subtract(s.cnt, s.minCnt.n), s.delta + w - s.minCnt.n, x, true).Effective(),
                   Occurs(h, x, w))
  {
    hide Credit, Settle, MinOf;
    var a := s.minCnt.n - s.delta;
    PendingKeepsCredit(s, x, a, h);
    SubtractSize(s.cnt, s.minCnt.n);
    var d, h1 := s.delta + w - s.minCnt.n, Occurs(h, x, a);
    assert Occurs(h1, x, d) == Occurs(h, x, w);
    SettleKeepsCredit(s.k, Subtract(s.cnt, s.minCnt.n), d, x, h1);
  }

  lemma StepKeepsCredit(s: Summary, x: Key, w: nat, h: multiset<Key>)
    requires s.Valid() && w > 0 && Credit(s.k, s.Effective(), h)
    ensures Credit(s.k, Step(s, x, w, true).Effective(), Occurs(h, x, w))
  {
    hide Credit, Occurs, Settle;
    if x in s.cnt || |s.cnt| < s.k - 1 {
      RoomKeepsCredit(s, x, w, h);
    } else if Below(s.delta + w, s.minCnt) {
      PendingKeepsCredit(s, x, w, h);
    } else {
      PassKeepsCredit(s, x, w, h);
    }
  }

  // ----- whole runs

  lemma {:induction false} RunKeepsCredit(k: nat, s: seq<Key>)
    requires 0 < k
    ensures Credit(k, Run(k, s).Effective(), multiset(s))
    ensures forall x <- Run(k, s).cnt :: Run(k, s).cnt[x] <= multiset(s)[x]
    decreases |s|
  {
    if s != [] {
      var p, x := s[..|s| - 1], s[|s| - 1];
      RunKeepsCredit(k, p);
      StepKeepsCredit(Run(k, p), x, 1, multiset(p));
      UnitStepIsGuarded(Run(k, p), x);
      assert s == p + [x];
      assert Occurs(multiset(p), x, 1) == multiset(s);
    }
  }

  /**
   The promise of the summary: after any stream of single occurrences every estimate
   lies within [f - N/k, f], with the pending subtraction applied or not, fewer than k
   keys are stored, and the lazily kept minimum stays a bound above the pending amount.
   */
  lemma StreamBound(k: nat, s: seq<Key>, x: Key)
    requires 0 < k
    ensures var r := Run(k, s);
            && r.Valid()
            && Get(r.Effective(), x) <= Get(r.cnt, x) <= multiset(s)[x]
            && k * (multiset(s)[x] - Get(r.Effective(), x)) <= |s|
  {
    hide Run, Sum, Times;
    RunKeepsCredit(k, s);
    assert Owed(k, Run(k, s).Effective(), multiset(s), x);
    TimesIsProduct(k, multiset(s)[x] - Get(Run(k, s).Effective(), x));
  }

  /** Applying the pending subtraction changes nothing but the representation. */
  lemma ResetIsValid(s: Summary, r: Summary)
    requires s.Valid() && r == Summary(s.k, s.Effective(), MinOf(s.Effective()), 0)
    ensures r.Valid() && r.Effective() == s.Effective() && r.cnt == s.Effective()
  {
    hide MinOf;
    SubtractSize(s.cnt, s.delta);
    MinOfEmpty(r.cnt);
    EffectiveIsRaw(r);
  }

  ghost predicate NoOvercount(t: Table, h: multiset<Key>) {
    forall x <- t :: t[x] <= h[x]
  }

  /** The state is that of a proper summary of history h. */
  ghost predicate StandsFor(s: Summary, h: multiset<Key>) {
    s.Valid() && Credit(s.k, s.Effective(), h) && NoOvercount(s.cnt, h)
  }

  lemma EmptyStands(k: nat)
    requires 0 < k
    ensures StandsFor(Empty(k), multiset{})
  {
  }

  lemma CreditNeverOvercounts(k: nat, e: Table, h: multiset<Key>)
    requires Credit(k, e, h)
    ensures NoOvercount(e, h)
  {
    forall x <- e ensures e[x] <= h[x] { assert Owed(k, e, h, x); }
  }

  /** Counters do not overcount even before the pending subtraction. */
  lemma StepNeverOvercounts(s: Summary, x: Key, w: nat, h: multiset<Key>)
    requires s.Valid() && w > 0 && NoOvercount(s.cnt, h)
    ensures NoOvercount(Step(s, x, w, true).cnt, Occurs(h, x, w))
  {
    hide MinOf;
  }

  // ----- weighted occurrences

  /**
   The weights for which the code as written does what its unit tests ask: the first
   pass leaves nothing pending, or the table is still full exactly when the amount left
   reaches the new minimum.
   */
  ghost predicate WeightFits(s: Summary, x: Key, w: nat)
    requires s.Valid()
  {
    x in s.cnt || |s.cnt| < s.k - 1 || Below(s.delta + w, s.minCnt) ||
    var d, t := s.delta + w - s.minCnt.n, Subtract(s.cnt, s.minCnt.n);
    d == 0 || (|t| == s.k - 1 <==> !Below(d, MinOf(t)))
  }

  /** w further occurrences of a key, reported by one call. */
  datatype Weighted = Weighted(key: Key, w: nat)

  /** The occurrences a list of calls reports. */
  ghost function Came(items: seq<Weighted>): multiset<Key> {
    if items == [] then multiset{} else
      var last := items[|items| - 1];
      Occurs(Came(items[..|items| - 1]), last.key, last.w)
  }

  lemma CameLast(items: seq<Weighted>)
    requires items != []
    ensures Came(items) == Occurs(Came(items[..|items| - 1]), items[|items| - 1].key, items[|items| - 1].w)
  {
  }

  ghost predicate Weighty(items: seq<Weighted>) {
    forall i <- items :: i.w > 0
  }

  /** The state after feeding items with the second pass guarded. */
  ghost function RunGuarded(k: nat, items: seq<Weighted>): (r: Summary)
    requires 0 < k && Weighty(items)
    ensures r.k == k && r.Valid()
  {
    if items == [] then Empty(k) else
      var n := |items| - 1;
      var before := RunGuarded(k, items[..n]);
      StepIsValid(before, items[n].key, items[n].w);
      Step(before, items[n].key, items[n].w, true)
  }

  lemma {:induction false} GuardedKeepsCredit(k: nat, items: seq<Weighted>)
    requires 0 < k && Weighty(items)
    ensures StandsFor(RunGuarded(k, items), Came(items))
  {
    hide Credit, NoOvercount, Occurs, Step;
    if items == [] {
      EmptyStands(k);
    } else {
      var n := |items| - 1;
      var before, last := RunGuarded(k, items[..n]), items[n];
      GuardedKeepsCredit(k, items[..n]);
      StepKeepsCredit(before, last.key, last.w, Came(items[..n]));
      StepNeverOvercounts(before, last.key, last.w, Came(items[..n]));
    }
  }

  /**
   What the unit tests ask for keeps the promise on every weighted stream: estimates lie
   within [f - N/k, f], N being the total weight.
   */
  lemma GuardedBound(k: nat, items: seq<Weighted>, x: Key)
    requires 0 < k && Weighty(items)
    ensures var r, h := RunGuarded(k, items), Came(items);
            && r.Valid()
            && Get(r.Effective(), x) <= Get(r.cnt, x) <= h[x]
            && k * (h[x] - Get(r.Effective(), x)) <= |h| - Sum(r.Effective())
  {
    hide RunGuarded, Came, Sum, Times;
    GuardedKeepsCredit(k, items);
    var r, h := RunGuarded(k, items), Came(items);
    assert Owed(k, r.Effective(), h, x);
    TimesIsProduct(k, h[x] - Get(r.Effective(), x));
  }

  /** The code as written, fed items whose weights all fit, arrives in s. */
  ghost predicate Leads(k: nat, items: seq<Weighted>, s: Summary)
    requires 0 < k
  {
    if items == [] then s == Empty(k) else
      var n := |items| - 1;
      exists s0: Summary | s0.Valid() && items[n].w > 0 && Leads(k, items[..n], s0) ::
        WeightFits(s0, items[n].key, items[n].w) && s == Step(s0, items[n].key, items[n].w, false)
  }

  lemma FittingIsGuarded(s: Summary, x: Key, w: nat)
    requires s.Valid() && w > 0 && WeightFits(s, x, w)
    ensures Step(s, x, w, false) == Step(s, x, w, true)
  {
  }

  lemma {:induction false} LeadsIsGuarded(k: nat, items: seq<Weighted>, s: Summary)
    requires 0 < k && Leads(k, items, s)
    ensures Weighty(items) && s == RunGuarded(k, items)
  {
    hide WeightFits, Step;
    if items != [] {
      var n := |items| - 1;
      var s0: Summary :| s0.Valid() && items[n].w > 0 && Leads(k, items[..n], s0)
        && WeightFits(s0, items[n].key, items[n].w) && s == Step(s0, items[n].key, items[n].w, false);
      LeadsIsGuarded(k, items[..n], s0);
      FittingIsGuarded(s0, items[n].key, items[n].w);
      assert items == items[..n] + [items[n]];
    }
  }

  lemma LeadsOn(k: nat, items: seq<Weighted>, s: Summary, x: Key, w: nat, more: seq<Weighted>, s': Summary)
    requires 0 < k && s.Valid() && w > 0 && Leads(k, items, s) && WeightFits(s, x, w)
    requires more == items + [Weighted(x, w)] && s' == Step(s, x, w, false)
    ensures Leads(k, more, s') && Came(more) == Occurs(Came(items), x, w)
  {
    hide WeightFits, Step, Occurs;
    assert more[..|more| - 1] == items;
  }

  /** The history in which nothing has been undercounted yet. */
  ghost function Exactly(t: Table): (h: multiset<Key>)
    ensures forall x :: h[x] == Get(t, x)
    ensures |h| == Sum(t)
  {
    if t == map[] then multiset{} else
      var x :| x in t && Sum(t) == t[x] + Sum(t - {x});
      Exactly(t - {x})[x := t[x]]
  }

  lemma ExactlyHasCredit(k: nat, t: Table)
    ensures Credit(k, t, Exactly(t))
  {
    forall x ensures Owed(k, t, Exactly(t), x) {}
  }

  /** A run that stores the counters of t one after the other, the first with the least amount m. */
  lemma {:induction false} Filled(k: nat, t: Table, m: nat) returns (items: seq<Weighted>)
    requires t != map[] && |t| < k && 0 < m && forall x <- t :: m <= t[x]
    ensures Leads(k, items, Summary(k, t, Finite(m), 0))
    ensures Came(items) == Exactly(t)
    decreases |t|
  {
    hide Exactly, Came, Leads;
    var x :| x in t;
    var rest := t - {x};
    SizeRemove(t, x);
    if rest == map[] {
      items := FilledOne(k, t, x, m);
    } else {
      items := Filled(k, rest, m);
      assert rest[x := t[x]] == t;
      LeadsOn(k, items, Summary(k, rest, Finite(m), 0), x, t[x], items + [Weighted(x, t[x])],
        Summary(k, t, Finite(m), 0));
      items := items + [Weighted(x, t[x])];
      assert Came(items) == Exactly(t);
    }
  }

  lemma FilledOne(k: nat, t: Table, x: Key, m: nat) returns (items: seq<Weighted>)
    requires t == map[x := Get(t, x)] && 1 < k && 0 < m <= Get(t, x)
    ensures Leads(k, items, Summary(k, t, Finite(m), 0))
    ensures Came(items) == Exactly(t)
  {
    hide Exactly, Leads, Came;
    LeadsNowhere(k);
    items := [Weighted(x, m)];
    var one := Summary(k, map[x := m], Finite(m), 0);
    assert |one.cnt| == |one.cnt.Keys|;
    LeadsOn(k, [], Empty(k), x, m, items, one);
    if m < t[x] {
      LeadsOn(k, items, one, x, t[x] - m, items + [Weighted(x, t[x] - m)], Summary(k, t, Finite(m), 0));
      items := items + [Weighted(x, t[x] - m)];
    }
    assert Came(items) == multiset{}[x := t[x]];
    assert Came(items) == Exactly(t);
  }

  /**
   * Every state the invariant allows is reached, by a run that overcounted and undercounted nothing before
   * its last call.
   */
  lemma Reached(s: Summary, x: Key) returns (items: seq<Weighted>)
    requires s.Valid() && (s.delta > 0 ==> x !in s.cnt)
    ensures Leads(s.k, items, s)
    ensures Came(items) == Occurs(Exactly(s.cnt), x, s.delta)
  {
    hide Exactly, Leads;
    var full := s.(delta := 0);
    if s.cnt == map[] {
      items := [];
      assert Leads(s.k, [], full) by { LeadsNowhere(s.k); }
      assert Came([]) == Exactly(map[]);
    } else {
      items := Filled(s.k, s.cnt, s.minCnt.n);
    }
    if s.delta > 0 {
      LeadsOn(s.k, items, full, x, s.delta, items + [Weighted(x, s.delta)], s);
      items := items + [Weighted(x, s.delta)];
    }
  }

  lemma LeadsNowhere(k: nat)
    requires 0 < k
    ensures Leads(k, [], Empty(k)) && Came([]) == multiset{}
  {
  }

  /** The reachable states are exactly those of the invariant, the lazily kept minimum included. */
  lemma ReachableExactly(s: Summary)
    ensures s.Valid() <==> 0 < s.k && exists items :: Leads(s.k, items, s)
  {
    hide Leads;
    if s.Valid() {
      var x := Absent(s.cnt);
      var items := Reached(s, x);
    } else if 0 < s.k && exists items :: Leads(s.k, items, s) {
      var items :| Leads(s.k, items, s);
      LeadsIsGuarded(s.k, items, s);
    }
  }

  /** Some key beyond all those stored. */
  lemma {:induction false} Absent(t: Table) returns (x: Key)
    ensures x !in t && forall y <- t :: y < x
    decreases |t|
  {
    if t == map[] { x := 0; } else {
      var y :| y in t;
      SizeRemove(t, y);
      var z := Absent(t - {y});
      x := if y < z then z else y + 1;
      assert forall u <- t :: u == y || u in t - {y};
    }
  }

  /**
   A second pass over the counters t charges each of them m more, but with a free slot
   they and the new key are fewer than k: key y then owes more than has been paid.
   */
  lemma SecondPassOwes(k: nat, e: Table, a: nat, m: nat, d2: nat, x: Key, y: Key, final: Table)
    requires |e| == k - 1 && x !in e && forall z <- e :: a <= e[z]
    requires var t := Subtract(e, a);
             && |t| < k - 1 && y in t && t[y] == m && m > 0 && (forall z <- t :: m <= t[z])
             && final == if d2 == 0 then Subtract(t, m) else Subtract(t, m)[x := d2]
    ensures !Owed(k, final, Occurs(Exactly(e), x, a + m + d2), y)
  {
    hide Times, Sum, Exactly;
    var t := Subtract(e, a);
    var h, h' := Exactly(e), Occurs(Exactly(e), x, a + m + d2);
    assert |h'| - Sum(final) == Times(k - 1, a) + Times(|t|, m) + a + m by {
      SumSubtract(e, a);
      SumSubtract(t, m);
      SumUpdate(Subtract(t, m), x, d2);
    }
    Shortfall(k, |t|, a, m);
    assert h'[y] - Get(final, y) == a + m;
  }

  lemma Shortfall(k: nat, n: nat, a: nat, m: nat)
    requires n + 1 < k && 0 < m
    ensures Times(k - 1, a) + Times(n, m) + a + m < Times(k, a + m)
  {
    TimesStep(k - 1, a);
    TimesStep(n, m);
    TimesStrict(n + 1, k, m);
    TimesAdd(k, a, m);
  }

  lemma SecondPassResult(s: Summary, x: Key, w: nat)
    requires s.Valid() && w > 0 && x !in s.cnt && |s.cnt| == s.k - 1 && !Below(s.delta + w, s.minCnt)
    requires s.delta + w > s.minCnt.n
    requires !Below(s.delta + w - s.minCnt.n, MinOf(Subtract(s.cnt, s.minCnt.n)))
    ensures var d, t := s.delta + w - s.minCnt.n, Subtract(s.cnt, s.minCnt.n);
            var m := MinOf(t).n;
            Step(s, x, w, false).Effective() ==
            if d == m then Subtract(t, m) else Subtract(t, m)[x := d - m]
  {
    EffectiveIsRaw(Step(s, x, w, false));
  }

  lemma MinAttained(t: Table) returns (y: Key)
    requires MinOf(t).Finite?
    ensures y in t && t[y] == MinOf(t).n && forall z <- t :: t[y] <= t[z]
  {
    y :| y in t && t[y] == MinOf(t).n;
  }

  lemma SecondPassBreaks(s: Summary, x: Key, w: nat)
    requires s.Valid() && w > 0 && x !in s.cnt && |s.cnt| == s.k - 1 && !Below(s.delta + w, s.minCnt)
    requires var d, t := s.delta + w - s.minCnt.n, Subtract(s.cnt, s.minCnt.n);
             d > 0 && |t| < s.k - 1 && !Below(d, MinOf(t))
    ensures !Credit(s.k, Step(s, x, w, false).Effective(), Occurs(Occurs(Exactly(s.cnt), x, s.delta), x, w))
  {
    hide Step, Settle, Sum, Exactly, Owed, Times, MinOf, IsMinOf;
    SecondPassResult(s, x, w);
    var final := Step(s, x, w, false).Effective();
    var m := MinOf(Subtract(s.cnt, s.minCnt.n)).n;
    var y := MinAttained(Subtract(s.cnt, s.minCnt.n));
    SecondPassOwes(s.k, s.cnt, s.minCnt.n, m, s.delta + w - s.minCnt.n - m, x, y, final);
    assert Occurs(Occurs(Exactly(s.cnt), x, s.delta), x, w) == Occurs(Exactly(s.cnt), x, s.delta + w);
    assert !Owed(s.k, final, Occurs(Exactly(s.cnt), x, s.delta + w), y);
  }

  /**
   From s to s' by w occurrences of x: s' meets the invariant and, whatever run led to s,
   the error bound of that run's occurrences and the new ones.
   */
  ghost predicate KeepsPromise(s: Summary, s': Summary, x: Key, w: nat)
    requires 0 < s.k
  {
    s'.Valid() && forall items | Leads(s.k, items, s) :: Credit(s.k, s'.Effective(), Occurs(Came(items), x, w))
  }

  /** A weighted update keeps size and error bound if and only if its weight fits. */
  lemma WeightedExactly(s: Summary, x: Key, w: nat)
    requires s.Valid() && w > 0
    ensures WeightFits(s, x, w) <==> KeepsPromise(s, Step(s, x, w, false), x, w)
  {
    hide Leads, Came, Credit, NoOvercount;
    if WeightFits(s, x, w) {
      FittingIsGuarded(s, x, w);
      StepIsValid(s, x, w);
      forall items | Leads(s.k, items, s)
        ensures Credit(s.k, Step(s, x, w, false).Effective(), Occurs(Came(items), x, w))
      {
        LeadsIsGuarded(s.k, items, s);
        GuardedKeepsCredit(s.k, items);
        StepKeepsCredit(s, x, w, Came(items));
      }
    } else {
      var t := Subtract(s.cnt, s.minCnt.n);
      SubtractSize(s.cnt, s.minCnt.n);
      if |t| == s.k - 1 {
        Grown(t, x, s.delta + w - s.minCnt.n);
      } else {
        SecondPassBreaks(s, x, w);
        var items := Reached(s, x);
      }
    }
  }

  /** The first three calls of unit test 3 and where they lead. */
  function Test3Calls(): seq<Weighted> {
    [Weighted(1, 1), Weighted(2, 1), Weighted(3, 10)]
  }

  function Test3State(): Summary {
    Summary(4, map[1 := 1, 2 := 1, 3 := 10], Finite(1), 0)
  }

  lemma Test3Leads()
    ensures Leads(4, Test3Calls(), Test3State())
    ensures Came(Test3Calls()) == multiset{}[1 := 1][2 := 1][3 := 10]
  {
    hide Leads, Came;
    var a, b, c := Weighted(1, 1), Weighted(2, 1), Weighted(3, 10);
    var s1, s2 := Summary(4, map[1 := 1], Finite(1), 0), Summary(4, map[1 := 1, 2 := 1], Finite(1), 0);
    LeadsNowhere(4);
    assert |s1.cnt| == |s1.cnt.Keys| && |s2.cnt| == |s2.cnt.Keys|;
    LeadsOn(4, [], Empty(4), 1, 1, [a], s1);
    LeadsOn(4, [a], s1, 2, 1, [a, b], s2);
    LeadsOn(4, [a, b], s2, 3, 10, Test3Calls(), Test3State());
  }

  lemma Test3Passes(cnt: Table, t: Table)
    requires cnt == map[1 := 1, 2 := 1, 3 := 10] && t == Subtract(cnt, 1)
    ensures t == map[3 := 9] && MinOf(t) == Finite(9) && |t| == 1 && |cnt| == 3
    ensures Subtract(t, 9) == map[]
  {
    hide MinOf;
    assert |cnt| == |cnt.Keys| && cnt.Keys == {1, 2, 3};
    assert t == map[3 := 9];
    assert |t| == |t.Keys|;
    MinOfUnique(Finite(9), t);
    assert Subtract(t, 9) == map[];
  }

  lemma Test3Steps(s: Summary)
    requires s == Test3State()
    ensures s.Valid()
    ensures Step(s, 4, 16, true) == Summary(4, map[3 := 9, 4 := 15], Finite(9), 0)
    ensures Step(s, 4, 16, false) == Summary(4, map[4 := 6], Finite(6), 0)
  {
    hide MinOf, IsMinOf, Subtract;
    Test3Passes(s.cnt, Subtract(s.cnt, 1));
    MinOfUnique(Infinite, map[]) by { EmptyMin(); }
  }

  lemma EmptyMin()
    ensures IsMinOf(Infinite, map[])
  {
  }

  /**
   Unit test 3 of the source, from the empty sketch: the fourth call as written ends in
   another state than the test asks for, and misses key 3 ten times, where 28 occurrences
   of which 6 are still counted pay for at most five misses.
   */
  lemma UnitTest3Fails()
    ensures Leads(4, Test3Calls(), Test3State()) && Test3State().Valid()
    ensures Step(Test3State(), 4, 16, true) == Summary(4, map[3 := 9, 4 := 15], Finite(9), 0)
    ensures Step(Test3State(), 4, 16, false) == Summary(4, map[4 := 6], Finite(6), 0)
    ensures var h := Came(Test3Calls() + [Weighted(4, 16)]);
            |h| == 28 && h[3] == 10 && !Credit(4, Step(Test3State(), 4, 16, false).Effective(), h)
  {
    hide *;
    Test3Leads();
    Test3Steps(Test3State());
    var calls := Test3Calls() + [Weighted(4, 16)];
    Test3Came(calls);
    Test3Misses(Step(Test3State(), 4, 16, false), Came(calls));
  }

  lemma Test3Came(calls: seq<Weighted>)
    requires calls == Test3Calls() + [Weighted(4, 16)]
    ensures |Came(calls)| == 28 && Came(calls)[3] == 10
  {
    hide Came, Leads;
    Test3Leads();
    CameLast(calls);
    assert calls[..3] == Test3Calls();
  }

  lemma Test3Misses(s: Summary, h: multiset<Key>)
    requires s == Summary(4, map[4 := 6], Finite(6), 0) && h[3] == 10 && |h| == 28
    ensures !Credit(4, s.Effective(), h)
  {
    hide Sum, Times;
    var e := s.Effective();
    assert e == map[4 := 6];
    SumUpdate(map[], 4, 6);
    TimesIsProduct(4, 10);
    assert !Owed(4, e, h, 3);
  }

  /** No count is too high, and undercounts stay below an N/k share. */
  ghost predicate Near(k: nat, r: Table, h: multiset<Key>) {
    forall x: Key :: Get(r, x) <= h[x] && Times(k, h[x] - Get(r, x)) <= |h|
  }

  // ----- merging

  ghost function AtLeast(t: Table, d: nat): set<Key> {
    set x | x in t && d <= t[x]
  }

  ghost function Above(t: Table, d: nat): set<Key> {
    set x | x in t && d < t[x]
  }

  /** d is the value `nth_element` puts at position k of the counters in falling order. */
  ghost predicate IsKthLargest(t: Table, k: nat, d: nat) {
    && |Above(t, d)| <= k < |AtLeast(t, d)|
    && exists x :: x in t && t[x] == d
  }

  lemma KthLargestUnique(t: Table, k: nat, d: nat, d': nat)
    requires IsKthLargest(t, k, d) && IsKthLargest(t, k, d')
    ensures d == d'
  {
    if d < d' { Subset(AtLeast(t, d'), Above(t, d)); }
    if d' < d { Subset(AtLeast(t, d), Above(t, d')); }
  }

  /** The table two effective tables merge into. */
  ghost predicate Merged(k: nat, a: Table, b: Table, r: Table) {
    var t := Add(a, b);
    if |t| <= k then r == t else exists d :: IsKthLargest(t, k, d) && r == Subtract(t, d)
  }

  /** No more than is needed has been taken off all counters for at most k keys to be left. */
  ghost predicate Trimmed(k: nat, t: Table, r: Table) {
    if |t| <= k then r == t
    else exists d: nat :: r == Subtract(t, d) && |r| <= k && forall e: nat | e < d :: k < |Subtract(t, e)|
  }

  lemma LeftAbove(t: Table, d: nat)
    ensures |Subtract(t, d)| == |Above(t, d)|
  {
    assert Subtract(t, d).Keys == Above(t, d);
    assert |Subtract(t, d)| == |Subtract(t, d).Keys|;
  }

  lemma AllAbove(t: Table)
    requires Positive(t)
    ensures |Above(t, 0)| == |t|
  {
    assert Above(t, 0) == t.Keys;
    assert |t| == |t.Keys|;
  }

  lemma SomeAt(t: Table, d: nat)
    requires |Above(t, d)| < |AtLeast(t, d)|
    ensures exists x :: x in t && t[x] == d
  {
    assert AtLeast(t, d) != Above(t, d) && Above(t, d) <= AtLeast(t, d);
    var x :| x in AtLeast(t, d) && x !in Above(t, d);
  }

  lemma AboveLess(t: Table, d: nat)
    requires 0 < d
    ensures Above(t, d - 1) == AtLeast(t, d)
  {
  }

  /** The counter at position k is the least amount that leaves at most k keys. */
  lemma KthIsLeast(k: nat, t: Table, d: nat)
    requires Positive(t) && k < |t|
    ensures IsKthLargest(t, k, d) <==> |Subtract(t, d)| <= k && forall e: nat | e < d :: k < |Subtract(t, e)|
  {
    hide Subtract;
    LeftAbove(t, d);
    AllAbove(t);
    forall e: nat | e < d && IsKthLargest(t, k, d) ensures k < |Subtract(t, e)| {
      LeftAbove(t, e);
      Subset(AtLeast(t, d), Above(t, e));
    }
    if 0 < d {
      LeftAbove(t, d - 1);
      AboveLess(t, d);
      if |Above(t, d)| < |AtLeast(t, d)| { SomeAt(t, d); }
    }
  }

  /** A merge takes off the least amount that leaves at most k keys, and nothing if there are no more. */
  lemma MergedExactly(k: nat, a: Table, b: Table, r: Table)
    requires Positive(a) && Positive(b)
    ensures Merged(k, a, b, r) <==> Trimmed(k, Add(a, b), r)
  {
    hide IsKthLargest, Subtract, Add;
    var t := Add(a, b);
    AddIsPositive(a, b);
    if |t| > k {
      forall d: nat
        ensures IsKthLargest(t, k, d) <==> |Subtract(t, d)| <= k && forall e: nat | e < d :: k < |Subtract(t, e)|
      {
        KthIsLeast(k, t, d);
      }
    }
  }

  lemma {:induction false} SumDrop(t: Table, d: nat, keys: set<Key>)
    requires forall x <- keys :: x in t && d <= t[x]
    ensures Sum(t) >= Sum(Subtract(t, d)) + Times(|keys|, d)
  {
    if keys == {} {
      TimesIsProduct(0, d);
      forall x ensures Get(Subtract(t, d), x) <= Get(t, x) {}
      SumMonotone(Subtract(t, d), t);
    } else {
      var x :| x in keys;
      SumDrop(t - {x}, d, keys - {x});
      SumRemove(t, x);
      SubtractOne(t, x, d);
      TimesStep(|keys| - 1, d);
    }
  }

  lemma AddKeepsOwed(k: nat, a: Table, b: Table, ha: multiset<Key>, hb: multiset<Key>, x: Key)
    requires Owed(k, a, ha, x) && Owed(k, b, hb, x)
    ensures Owed(k, Add(a, b), ha + hb, x)
  {
    hide Sum, Times;
    SumAdd(a, b);
    TimesAdd(k, ha[x] - Get(a, x), hb[x] - Get(b, x));
  }

  /** Merging keeps the error bound and at most k keys, however often it is repeated. */
  lemma MergeKeepsCredit(k: nat, a: Table, b: Table, r: Table, ha: multiset<Key>, hb: multiset<Key>)
    requires Positive(a) && Positive(b) && Credit(k, a, ha) && Credit(k, b, hb) && Merged(k, a, b, r)
    ensures Credit(k, r, ha + hb) && Positive(r) && |r| <= k
  {
    hide Sum, IsKthLargest, Times, Owed;
    var t := Add(a, b);
    forall x ensures Owed(k, t, ha + hb, x) {
      AddKeepsOwed(k, a, b, ha, hb, x);
    }
    if |t| > k {
      var d :| IsKthLargest(t, k, d) && r == Subtract(t, d);
      TruncateKeepsCredit(k, t, d, ha + hb);
    }
  }

  lemma TruncateKeepsCredit(k: nat, t: Table, d: nat, h: multiset<Key>)
    requires Credit(k, t, h) && IsKthLargest(t, k, d)
    ensures Credit(k, Subtract(t, d), h) && |Subtract(t, d)| <= k
  {
    hide Sum, Times;
    var r := Subtract(t, d);
    SumDrop(t, d, AtLeast(t, d));
    TimesMonotoneLeft(k, |AtLeast(t, d)|, d);
    forall x ensures Owed(k, r, h, x) {
      assert Owed(k, t, h, x);
      TimesMonotone(k, h[x] - Get(r, x), h[x] - Get(t, x) + d);
      TimesAdd(k, h[x] - Get(t, x), d);
    }
    assert r.Keys == Above(t, d);
    assert |r| == |r.Keys|;
  }

  lemma TimesMonotoneLeft(j: nat, k: nat, n: nat)
    requires j <= k
    ensures Times(j, n) <= Times(k, n)
  {
    if j < k && n > 0 { TimesStrict(j, k, n); }
  }

  /** A tree of merges over streamed sketches. */
  datatype Plan = Stream(items: seq<Key>) | Merge(left: Plan, right: Plan)

  ghost function History(p: Plan): multiset<Key> {
    match p
    case Stream(s) => multiset(s)
    case Merge(l, r) => History(l) + History(r)
  }

  /** t is a table the sketches of plan p may end with. */
  ghost predicate Yields(k: nat, p: Plan, t: Table)
    requires 0 < k
  {
    match p
    case Stream(s) => t == Run(k, s).Effective()
    case Merge(l, r) => exists a, b :: Yields(k, l, a) && Yields(k, r, b) && Merged(k, a, b, t)
  }

  lemma {:induction false} PlanKeepsCredit(k: nat, p: Plan, t: Table)
    requires 0 < k && Yields(k, p, t)
    ensures Credit(k, t, History(p)) && Positive(t) && |t| <= k
  {
    match p
    case Stream(s) =>
      RunKeepsCredit(k, s);
      SubtractSize(Run(k, s).cnt, Run(k, s).delta);
    case Merge(l, r) =>
      var a, b :| Yields(k, l, a) && Yields(k, r, b) && Merged(k, a, b, t);
      PlanKeepsCredit(k, l, a);
      PlanKeepsCredit(k, r, b);
      MergeKeepsCredit(k, a, b, t, History(l), History(r));
  }

  /** Mergeability: however the merges are nested, estimates lie within [f - N/k, f]. */
  lemma MergeBound(k: nat, p: Plan, t: Table, x: Key)
    requires 0 < k && Yields(k, p, t)
    ensures |t| <= k && Get(t, x) <= History(p)[x]
    ensures k * (History(p)[x] - Get(t, x)) <= |History(p)| - Sum(t)
  {
    hide Yields, History, Sum, Times;
    PlanKeepsCredit(k, p, t);
    assert Owed(k, t, History(p), x);
    TimesIsProduct(k, History(p)[x] - Get(t, x));
  }
}
