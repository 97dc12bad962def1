/**
 `ChainMisraGries` in its new, default update mode (pmmg.cpp): counters that have drifted too
 far from their records are found through two heaps instead of by a scan of the whole sketch.
 */
module ChainCounterSketch {
  import opened Products
  import opened Counts
  import opened MisraGriesSpec
  import opened MisraGriesSketch
  import opened ChainLog
  import opened ChainQuery
  import opened ChainCounters
  import opened CounterHeaps
  import opened Timeline

  /** How many deltas a checkpoint may carry when `total` have come. */
  function Capacity(third: Third, total: nat): nat {
    CapacityIsNat(third, total);
    (FloorLog2(total) as real / third).Floor
  }

  lemma CapacityIsNat(third: Third, total: nat)
    ensures 0 <= (FloorLog2(total) as real / third).Floor
  {
  }

  /** A list of n deltas fits exactly if a third of the tolerance of n is within the logarithm of the total. */
  lemma CapacityIs(third: Third, total: nat, n: nat)
    ensures n <= Capacity(third, total) <==> third * n as real <= FloorLog2(total) as real
  {
    hide FloorLog2;
    Quotient(FloorLog2(total) as real, third, n as real);
  }

  lemma Quotient(a: real, d: real, x: real)
    requires d > 0.0
    ensures x <= a / d <==> d * x <= a
  {
    var q := a / d;
    assert d * q == a;
    if x <= q { assert d * x <= d * q; } else { assert d * x > d * q; }
  }

  lemma CapacityGrows(third: Third, m: nat, n: nat)
    requires m <= n
    ensures Capacity(third, m) <= Capacity(third, n)
  {
    FloorLog2Monotone(m, n);
    Divided(FloorLog2(m) as real, FloorLog2(n) as real, third);
  }

  lemma Divided(a: real, b: real, d: real)
    requires a <= b && d > 0.0
    ensures a / d <= b / d
  {
    var p, q := a / d, b / d;
    assert p * d == a && q * d == b;
    assert q < p ==> q * d < p * d;
  }

  /** What the log and what is to be logged are at some moment. */
  datatype Moment = Moment(sorted: bool, checkpoints: seq<Checkpoint>, numDeltas: nat,
                           snapshot: map<Key, SnapshotCounter>, counts: Table, ts: nat, total: nat)

  /** The two heaps look at a changed counter only where it changed. */
  lemma PoolKeys(pool: Pool, i: nat, c: Counter, items: set<nat>)
    requires i < |pool|
    ensures Agree(MaxKey(pool), MaxKey(pool[i := c]), items, i) && Agree(MinKey(pool), MinKey(pool[i := c]), items, i)
    ensures MaxKey(pool)(i) == -(pool[i].c1 as real) && MinKey(pool)(i) == pool[i].c2 as real
    ensures MaxKey(pool[i := c])(i) == -(c.c1 as real) && MinKey(pool[i := c])(i) == c.c2 as real
    ensures i !in items ==> forall j <- items ::
        MaxKey(pool)(j) == MaxKey(pool[i := c])(j) && MinKey(pool)(j) == MinKey(pool[i := c])(j)
  {
  }

  /** The counters that have risen above, and fallen below, the amount d. */
  function Risen(pool: Pool, items: set<nat>, d: int): set<nat> {
    set i | i in items && i < |pool| && pool[i].c1 > d
  }

  function Fallen(pool: Pool, items: set<nat>, d: int): set<nat> {
    set i | i in items && i < |pool| && pool[i].c2 < d
  }

  lemma OneFewer(pool: Pool, items: set<nat>, d: int, i: nat, c: Counter)
    requires i in items && i < |pool| && c.c1 <= d <= c.c2
    ensures pool[i].c1 > d ==> |Risen(pool[i := c], items, d)| < |Risen(pool, items, d)|
    ensures pool[i].c2 < d ==> |Fallen(pool[i := c], items, d)| < |Fallen(pool, items, d)|
    ensures Risen(pool, items, d) == {} ==> Risen(pool[i := c], items, d) == {}
  {
    var pool' := pool[i := c];
    assert Risen(pool', items, d) == Risen(pool, items, d) - {i};
    assert Fallen(pool', items, d) == Fallen(pool, items, d) - {i};
    Subset(Risen(pool', items, d), Risen(pool, items, d));
    Subset(Fallen(pool', items, d), Fallen(pool, items, d));
  }

  /** Raised by one, the c2 of counter i is not above those of its children in heap h. */
  ghost predicate RaisedFits(pool: Pool, h: seq<nat>, n: nat, i: nat) {
    n <= |h| && i < |pool| &&
    forall p, j | 0 <= p < n && h[p] == i && 0 < j < n && MinHeap.Up(j) == p :: h[j] < |pool|
      && pool[i].c2 + 1 <= pool[h[j]].c2
  }

  lemma RaisedHere(was: Pool, pool: Pool, h: seq<nat>, n: nat, i: nat, at: nat)
    requires i < |was| == |pool| && pool == was[i := pool[i]] && pool[i].c2 == was[i].c2 + 1
    requires n <= |h| && at < n && h[at] == i && (forall j | 0 <= j < n :: h[j] < |pool|)
        && forall p, q :: 0 <= p < q < n ==> h[p] != h[q]
    ensures RaisedFits(was, h, n, i) <==>
              forall j :: 0 < j < n && MinHeap.Up(j) == at ==> MinKey(pool)(h[at]) <= MinKey(pool)(h[j])
  {
    hide MinHeap.Up;
    forall j | 0 < j < n && MinHeap.Up(j) == at ensures h[j] != i { UpIsLess(j); }
  }

  lemma UpIsLess(j: nat)
    requires 0 < j
    ensures MinHeap.Up(j) < j
  {
  }

  /** The checkpoints are from before time ts, which has come. */
  ghost predicate Earlier(cps: seq<Checkpoint>, events: seq<Event>, ts: nat) {
    && (forall i, j :: 0 <= i < j < |cps| ==> cps[i].ts < cps[j].ts)
    && (forall c <- cps :: c.ts < ts && Started(events, c.ts)) && Started(events, ts) && ts > 0
  }

  function FreshPool(k: nat): Pool
    requires 0 < k
  {
    seq(2 * (k - 1), i => Counter(0, false, FromCheckpoint, 0, 0))
  }

  function FreshFree(k: nat): seq<nat>
    requires 0 < k
  {
    seq(2 * (k - 1), i => i)
  }

  lemma PoolStarts(k: nat)
    requires 2 <= k
    ensures Staffed(k, FreshPool(k), FreshFree(k), map[], map[])
  {
    var none: map<Key, nat> := map[];
    assert none.Values == {};
  }

  class ChainMisraGries {
    const third: Third
    const k: nat
    const sketch: MisraGries
    const c1Heap: CounterHeap
    const c2Heap: CounterHeap
    var total: nat
    var lastTs: nat
    var checkpoints: seq<Checkpoint>
    var numDeltas: nat
    var sub: nat
    var pool: Pool
    var free: seq<nat>
    var keyTo: map<Key, nat>
    var deleted: map<Key, nat>
    ghost var events: seq<Event>
    ghost var snapshot: map<Key, SnapshotCounter>

    function Last(): Checkpoint
      requires checkpoints != []
      reads `checkpoints
    {
      checkpoints[|checkpoints| - 1]
    }

    /** The sketch summarises everything that came. */
    ghost predicate SketchValid()
      reads `total, `events, `lastTs, sketch
    {
      && sketch.k == k && 2 <= k && k as real * third >= 1.0
      && sketch.State().Valid()
      && Credit(k, sketch.State().Effective(), Keys(events))
      && NoOvercount(sketch.cnt, Keys(events))
      && total == |events| && EndsAt(events, lastTs)
    }

    /** What is recorded is what the log amounts to, and never above the truth. */
    ghost predicate LogValid()
      reads `checkpoints, `snapshot, `total, `numDeltas, `events
    {
      && (checkpoints == [] ==> snapshot == map[])
      && (checkpoints != [] ==>
            && Matches(third, ChainLog.Full(third, checkpoints), snapshot)
            && Last().total <= total
            && |Last().deltas| == numDeltas <= Capacity(third, total))
      && TotalsUpTo(snapshot, total) && RecordedUpTo(snapshot, Keys(events)) && |snapshot| <= k - 1
    }

    ghost predicate Ordered()
      reads `checkpoints, `events, `lastTs
    {
      && (forall i, j :: 0 <= i < j < |checkpoints| ==> checkpoints[i].ts < checkpoints[j].ts)
      && (forall c <- checkpoints :: Started(events, c.ts))
      && (lastTs > 0 ==> Started(events, lastTs))
    }

    ghost predicate GoodBefore(ts: nat)
      reads `checkpoints, `events
    {
      forall t: nat | t < ts && Started(events, t) ::
        Within(third, EstimateAt(third, checkpoints, t), Seen(events, t))
    }

    ghost predicate LoggedBefore(ts: nat)
      reads `checkpoints
    {
      checkpoints != [] ==> ts > 0 && DatedUpTo(checkpoints, ts - 1)
    }

    /** Both heaps hold just these counters. */
    ghost predicate Heaps(items: set<nat>)
      reads c1Heap, c1Heap.heap, c1Heap.place, c2Heap, c2Heap.heap, c2Heap.place
    {
      && c1Heap != c2Heap && c1Heap.heap != c2Heap.heap && c1Heap.heap != c2Heap.place
      && c1Heap.place != c2Heap.heap && c1Heap.place != c2Heap.place
      && c1Heap.Valid() && c2Heap.Valid() && c1Heap.items == items && c2Heap.items == items
      && c1Heap.heap.Length == c2Heap.heap.Length == k - 1
      && c1Heap.place.Length == c2Heap.place.Length == 2 * (k - 1)
    }

    /** Every counter in the pool is live, kept or free; the heaps hold the live ones. */
    ghost predicate PoolValid()
      reads `pool, `free, `keyTo, `deleted, c1Heap, c1Heap.heap, c1Heap.place, c2Heap, c2Heap.heap, c2Heap.place
    {
      Staffed(k, pool, free, keyTo, deleted) && Heaps(keyTo.Values)
    }

    /** The counters are in tune with counts cnt, of which s has been subtracted. */
    ghost predicate InTune(cnt: Table, s: nat)
      reads `checkpoints, `snapshot, `pool, `keyTo, `deleted
    {
      && Tuned(third, checkpoints, snapshot, pool, keyTo, cnt, s)
      && Linked(checkpoints, snapshot, pool, keyTo, deleted)
    }

    ghost predicate Valid()
      reads this, sketch, c1Heap, c1Heap.heap, c1Heap.place, c2Heap, c2Heap.heap, c2Heap.place
    {
      && SketchValid() && LogValid() && Ordered() && LoggedBefore(lastTs) && GoodBefore(lastTs)
      && PoolValid() && keyTo.Keys == sketch.cnt.Keys && InTune(sketch.cnt, sub)
      && c1Heap.Sorted(MaxKey(pool))
    }

    lemma NothingYet()
      requires events == [] && checkpoints == [] && snapshot == map[] && total == 0 && lastTs == 0 && sketch.k == k
          && sketch.State() == Empty(k)
      requires k as real * third >= 1.0 && 2 <= k
      ensures SketchValid() && LogValid() && Ordered() && LoggedBefore(lastTs) && GoodBefore(lastTs)
    {
      hide Capacity;
      EmptyStands(k);
    }

    /** Whether the min heap is in order, too. */
    ghost predicate MinSorted()
      reads `pool, c2Heap, c2Heap.heap
    {
      c2Heap.Sorted(MinKey(pool))
    }

    /** For a third of 1 or more there would be no counters at all, and the last of none is written to. */
    constructor (third: Third)
      requires third < 1.0
      ensures Valid() && events == [] && lastTs == 0 && checkpoints == [] && snapshot == map[] && sub == 0
          && sketch.cnt == map[] && MinSorted()
      ensures this.third == third && k == Ceil(1.0 / third) && fresh(sketch)
      ensures fresh(c1Heap) && fresh(c1Heap.heap) && fresh(c1Heap.place) && fresh(c2Heap) && fresh(c2Heap.heap)
          && fresh(c2Heap.place)
    {
      hide Staffed, CounterHeap.Valid, CounterHeap.Sorted, Ceil, SketchValid, LogValid, Ordered, LoggedBefore,
          GoodBefore;
      CeilCovers(third);
      MoreThanOne(third);
      PoolStarts(Ceil(1.0 / third));
      var k := Ceil(1.0 / third);
      this.third := third;
      this.k := k;
      sketch := new MisraGries(k);
      c1Heap := new CounterHeap(k - 1, 2 * (k - 1));
      c2Heap := new CounterHeap(k - 1, 2 * (k - 1));
      total, lastTs, checkpoints, numDeltas, sub := 0, 0, [], 0, 0;
      pool, free := FreshPool(k), FreshFree(k);
      keyTo, deleted := map[], map[];
      events, snapshot := [], map[];
      new;
      c1Heap.AlikeIsSorted(MaxKey(pool), 0.0);
      c2Heap.AlikeIsSorted(MinKey(pool), 0.0);
      NothingYet();
    }

    // ----- the end of a timestamp

    ghost predicate Recording(news: seq<Delta>)
      reads `checkpoints, `snapshot, `total, `lastTs, `events
    {
      && checkpoints != []
      && Matches(third, ChainLog.Full(third, Log(checkpoints, news)), snapshot)
      && TotalsUpTo(snapshot, total) && RecordedUpTo(snapshot, Keys(events))
      && (forall d <- news :: d.ts == lastTs)
    }

    /** The count of a stored key, less what is pending, is a fair one to record. */
    lemma PrimeIsFair(x: Key)
      requires SketchValid() && x in sketch.cnt
      ensures sketch.cnt[x] > sketch.delta && sketch.cnt[x] - sketch.delta <= Keys(events)[x]
    {
      assert Owed(k, sketch.State().Effective(), Keys(events), x);
    }

    lemma RecordingGrows(news: seq<Delta>, x: Key, v: nat)
      requires Recording(news) && v <= Keys(events)[x]
      ensures var d, snap := Delta(lastTs, total, x, v), snapshot[x := SnapshotCounter(v, total)];
              && Matches(third, Full(third, Log(checkpoints, news + [d])), snap)
              && TotalsUpTo(snap, total) && RecordedUpTo(snap, Keys(events))
              && (forall e <- news + [d] :: e.ts == lastTs) && checkpoints != []
    {
      hide Matches, Full, Apply, Keys;
      var d := Delta(lastTs, total, x, v);
      LogOne(third, checkpoints, news, d);
      RecordMatches(third, Full(third, Log(checkpoints, news)), snapshot, d);
    }

    lemma RecordingShrinks(news: seq<Delta>, x: Key)
      requires Recording(news)
      ensures var d, snap := Delta(lastTs, total, x, 0), Without(snapshot, x);
              && Matches(third, Full(third, Log(checkpoints, news + [d])), snap)
              && TotalsUpTo(snap, total) && RecordedUpTo(snap, Keys(events))
              && (forall e <- news + [d] :: e.ts == lastTs) && checkpoints != []
    {
      hide Matches, Full, Apply, Keys;
      var d := Delta(lastTs, total, x, 0);
      LogOne(third, checkpoints, news, d);
      RecordMatches(third, Full(third, Log(checkpoints, news)), snapshot, d);
    }

    lemma IsRecording(news: seq<Delta>)
      requires checkpoints != [] && Matches(third, Full(third, Log(checkpoints, news)), snapshot)
      requires TotalsUpTo(snapshot, total) && RecordedUpTo(snapshot, Keys(events)) && forall d <- news :: d.ts == lastTs
      ensures Recording(news)
    {
    }

    lemma TuneParts(cnt: Table, s: nat)
      requires InTune(cnt, s)
      ensures Tuned(third, checkpoints, snapshot, pool, keyTo, cnt, s)
          && Linked(checkpoints, snapshot, pool, keyTo, deleted)
    {
    }

    lemma TuneIs(cnt: Table, s: nat)
      requires Tuned(third, checkpoints, snapshot, pool, keyTo, cnt, s)
          && Linked(checkpoints, snapshot, pool, keyTo, deleted)
      ensures InTune(cnt, s)
    {
    }

    lemma RecordKeepsTune(i: nat, v: nat, c: Counter)
      requires SketchValid() && i in keyTo.Values && i < |pool| && pool[i].key in sketch.cnt
          && v + sketch.delta == sketch.cnt[pool[i].key]
      requires c == Counter(pool[i].key, true, FromDelta(v, total), sub + sketch.delta - Allow(third, total),
          sub + sketch.delta + Allow(third, total))
      requires Staffed(k, pool, free, keyTo, deleted) && InTune(sketch.cnt, sub)
      ensures Staffed(k, pool[i := c], free, keyTo, deleted)
      ensures Tuned(third, checkpoints, snapshot[c.key := SnapshotCounter(v, total)], pool[i := c], keyTo, sketch.cnt,
          sub)
      ensures Linked(checkpoints, snapshot[c.key := SnapshotCounter(v, total)], pool[i := c], keyTo, deleted)
    {
      hide *;
      var x := pool[i].key;
      LiveIs(k, pool, free, keyTo, deleted, i);
      StaffedParts(k, pool, free, keyTo, deleted);
      TuneParts(sketch.cnt, sub);
      GetIs(sketch.cnt, x);
      Retuned(k, pool, free, keyTo, deleted, i, c);
      RecordTunes(third, checkpoints, snapshot, pool, keyTo, sketch.cnt, sub, i, c, v, sketch.delta, total);
      RecordLinks(checkpoints, snapshot, pool, keyTo, deleted, i, c, v, total);
    }

    /** The body both loops share: log the count of a counter and tune it anew. */
    method Record(i: nat, news: seq<Delta>) returns (more: seq<Delta>)
      requires SketchValid() && i in keyTo.Values
      requires Staffed(k, pool, free, keyTo, deleted) && keyTo.Keys == sketch.cnt.Keys && InTune(sketch.cnt, sub)
          && Recording(news)
      modifies `pool, `snapshot
      ensures Staffed(k, pool, free, keyTo, deleted) && InTune(sketch.cnt, sub) && Recording(more)
          && |more| == |news| + 1
      ensures i < |pool| == |old(pool)| && pool == old(pool)[i := pool[i]]
          && pool[i].c1 <= sub + sketch.delta <= pool[i].c2
      ensures var x := old(pool)[i].key;
              && x in sketch.cnt && sketch.cnt[x] > sketch.delta
              && more == news + [Delta(lastTs, total, x, sketch.cnt[x] - sketch.delta)]
              && snapshot == old(snapshot)[x := SnapshotCounter(sketch.cnt[x] - sketch.delta, total)]
    {
      hide *;
      LiveIs(k, pool, free, keyTo, deleted, i);
      var x := pool[i].key;
      PrimeIsFair(x);
      var cPrime := sketch.cnt[x] - sketch.delta;
      var d, slack := sub + sketch.delta, Allow(third, total);
      var c := Counter(x, true, FromDelta(cPrime, total), d - slack, d + slack);
      RecordKeepsTune(i, cPrime, c);
      RecordingGrows(news, x, cPrime);
      more := news + [Delta(lastTs, total, x, cPrime)];
      pool := pool[i := c];
      snapshot := snapshot[x := SnapshotCounter(cPrime, total)];
      IsRecording(more);
      TuneIs(sketch.cnt, sub);
    }

    lemma HeapParts(items: set<nat>)
      requires Heaps(items)
      ensures c1Heap != c2Heap && c1Heap.heap != c2Heap.heap && c1Heap.heap != c2Heap.place
      ensures c1Heap.place != c2Heap.heap && c1Heap.place != c2Heap.place
      ensures c1Heap.Valid() && c2Heap.Valid() && c1Heap.items == items && c2Heap.items == items
      ensures c1Heap.heap.Length == c2Heap.heap.Length == k - 1
      ensures c1Heap.place.Length == c2Heap.place.Length == 2 * (k - 1)
    {
    }

    lemma HeapsAre(items: set<nat>)
      requires c1Heap != c2Heap && c1Heap.heap != c2Heap.heap && c1Heap.heap != c2Heap.place
      requires c1Heap.place != c2Heap.heap && c1Heap.place != c2Heap.place
      requires c1Heap.Valid() && c2Heap.Valid() && c1Heap.items == items && c2Heap.items == items
      requires c1Heap.heap.Length == c2Heap.heap.Length == k - 1
      requires c1Heap.place.Length == c2Heap.place.Length == 2 * (k - 1)
      ensures Heaps(items)
    {
    }

    /** Both heaps take note of the new keys of the counter on top of the first. */
    method TopOfFirst(i: nat, ghost was: Pool, ghost items: set<nat>)
      requires Heaps(items) && 0 < c1Heap.n && i == c1Heap.heap[0] && i in items
      requires i < |was| == |pool| && pool == was[i := pool[i]] && c1Heap.Sorted(MaxKey(was))
      modifies c1Heap, c1Heap.heap, c1Heap.place, c2Heap, c2Heap.heap, c2Heap.place
      ensures Heaps(items) && c1Heap.Sorted(MaxKey(pool))
      ensures old(c2Heap.Sorted(MinKey(was))) ==> c2Heap.Sorted(MinKey(pool))
    {
      hide *;
      HeapParts(items);
      PoolKeys(was, i, pool[i], items);
      c1Heap.TopUpdated(MaxKey(pool), MaxKey(was));
      c2Heap.Updated(i, MinKey(pool), MinKey(was));
      HeapsAre(items);
    }

    method TopOfSecond(i: nat, ghost was: Pool, ghost items: set<nat>)
      requires Heaps(items) && 0 < c2Heap.n && i == c2Heap.heap[0] && i in items
      requires i < |was| == |pool| && pool == was[i := pool[i]] && c1Heap.Sorted(MaxKey(was))
      modifies c1Heap, c1Heap.heap, c1Heap.place, c2Heap, c2Heap.heap, c2Heap.place
      ensures Heaps(items) && c1Heap.Sorted(MaxKey(pool))
      ensures old(c2Heap.Sorted(MinKey(was))) ==> c2Heap.Sorted(MinKey(pool))
    {
      hide *;
      HeapParts(items);
      PoolKeys(was, i, pool[i], items);
      c1Heap.Updated(i, MaxKey(pool), MaxKey(was));
      c2Heap.TopUpdated(MinKey(pool), MinKey(was));
      HeapsAre(items);
    }

    /** What holds of the counters while changes are being recorded. */
    ghost predicate Working(items: set<nat>, news: seq<Delta>)
      reads `checkpoints, `snapshot, `pool, `free, `keyTo, `deleted, `sub, `total, `lastTs, `events, sketch, c1Heap,
          c1Heap.heap, c1Heap.place, c2Heap, c2Heap.heap, c2Heap.place
    {
      && Staffed(k, pool, free, keyTo, deleted) && keyTo.Values == items && keyTo.Keys == sketch.cnt.Keys
      && Heaps(items) && InTune(sketch.cnt, sub) && Recording(news)
      && c1Heap.Sorted(MaxKey(pool))
    }

    lemma WorkingParts(items: set<nat>, news: seq<Delta>)
      requires Working(items, news)
      ensures Staffed(k, pool, free, keyTo, deleted) && keyTo.Values == items && keyTo.Keys == sketch.cnt.Keys
      ensures Heaps(items) && InTune(sketch.cnt, sub) && Recording(news) && c1Heap.Sorted(MaxKey(pool))
      ensures c1Heap.Valid() && c2Heap.Valid() && c1Heap.items == c2Heap.items == items
    {
      hide CounterHeap.Valid, CounterHeap.Sorted, Staffed, InTune, Recording;
    }

    lemma IsWorking(items: set<nat>, news: seq<Delta>)
      requires Staffed(k, pool, free, keyTo, deleted) && keyTo.Values == items && keyTo.Keys == sketch.cnt.Keys
      requires Heaps(items) && InTune(sketch.cnt, sub) && Recording(news) && c1Heap.Sorted(MaxKey(pool))
      ensures Working(items, news)
    {
    }

    lemma ItemIs(items: set<nat>, news: seq<Delta>, i: nat)
      requires Working(items, news) && i in items
      ensures i < |pool| && i in keyTo.Values
    {
      hide *;
      WorkingParts(items, news);
      LiveIs(k, pool, free, keyTo, deleted, i);
    }

    /** The keys found so far are listed, each once, with the counts they have now. */
    ghost predicate Lists(snap: map<Key, SnapshotCounter>, found: set<Key>, news: seq<Delta>)
      reads `checkpoints, `snapshot, `total, `lastTs, sketch
    {
      && checkpoints != []
      && Listed(third, snap, Last().total, sketch.State().Effective(), lastTs, total, found, news, snapshot)
    }

    lemma ListsIs(snap: map<Key, SnapshotCounter>, base: nat, cur: Table, found: set<Key>, news: seq<Delta>)
      requires checkpoints != [] && base == Last().total && cur == sketch.State().Effective()
      requires Listed(third, snap, base, cur, lastTs, total, found, news, snapshot)
      ensures Lists(snap, found, news)
    {
      hide Listed;
    }

    lemma ListsParts(snap: map<Key, SnapshotCounter>, found: set<Key>, news: seq<Delta>)
      requires Lists(snap, found, news)
      ensures checkpoints != []
      ensures Listed(third, snap, Last().total, sketch.State().Effective(), lastTs, total, found, news, snapshot)
    {
      hide Listed;
    }

    /** What the two sides of a counter say of the count of its key. */
    lemma SidesAre(i: nat, x: Key, items: set<nat>, news: seq<Delta>)
      requires SketchValid() && Working(items, news) && i in items && checkpoints != []
      requires i < |pool| && x == pool[i].key
      ensures x in sketch.cnt && sketch.cnt[x] > sketch.delta && x in sketch.State().Effective()
      ensures var v := sketch.cnt[x] - sketch.delta;
              sketch.State().Effective()[x] == v
                && (Close(third, snapshot, Last().total, x, v) <==> pool[i].c1 <= sub + sketch.delta <= pool[i].c2)
    {
      hide *;
      WorkingParts(items, news);
      LiveIs(k, pool, free, keyTo, deleted, i);
      TuneParts(sketch.cnt, sub);
      SummaryIs();
      BaseIs();
      SidesShow(third, checkpoints, snapshot, pool, keyTo, sketch.State(), sub, x);
    }

    /** A counter off its range shows a key that is still to be listed. */
    lemma ToBeListed(i: nat, x: Key, items: set<nat>, snap: map<Key, SnapshotCounter>, found: set<Key>,
                     news: seq<Delta>, cur: Table)
      requires SketchValid() && Working(items, news) && i in items && Lists(snap, found, news)
      requires i < |pool| && !(pool[i].c1 <= sub + sketch.delta <= pool[i].c2)
      requires x == pool[i].key && cur == sketch.State().Effective()
      ensures checkpoints != [] && x !in found && x in sketch.cnt && sketch.cnt[x] > sketch.delta
      ensures x in Drifters(third, snap, Last().total, cur)
      ensures var v := sketch.cnt[x] - sketch.delta;
              Listed(third, snap, Last().total, cur, lastTs, total, found + {x},
                news + [Delta(lastTs, total, x, v)], snapshot[x := SnapshotCounter(v, total)])
    {
      hide *;
      ListsParts(snap, found, news);
      SidesAre(i, x, items, news);
      var base, v := Last().total, sketch.cnt[x] - sketch.delta;
      NotListed(third, snap, base, cur, lastTs, total, found, news, snapshot, x);
      ListedMore(third, snap, base, cur, lastTs, total, found, news, snapshot, x, v);
    }

    lemma BaseIs()
      requires checkpoints != []
      ensures BaseTotal(checkpoints) == Last().total
    {
    }

    /** A counter off its range is recorded and its key listed. */
    method RecordOff(i: nat, news: seq<Delta>, ghost items: set<nat>, ghost snap: map<Key, SnapshotCounter>,
                     ghost found: set<Key>)
      returns (more: seq<Delta>, ghost now: set<Key>)
      requires SketchValid() && Working(items, news) && i in items && Lists(snap, found, news)
      requires i < |pool| && !(pool[i].c1 <= sub + sketch.delta <= pool[i].c2)
      modifies `pool, `snapshot
      ensures Staffed(k, pool, free, keyTo, deleted) && InTune(sketch.cnt, sub) && Recording(more)
          && |more| == |news| + 1 && SketchValid()
      ensures Lists(snap, now, more) && now == found + {old(pool)[i].key} && old(pool)[i].key !in found
      ensures i < |pool| == |old(pool)| && pool == old(pool)[i := pool[i]]
          && pool[i].c1 <= sub + sketch.delta <= pool[i].c2
    {
      hide *;
      WorkingParts(items, news);
      ghost var x, cur := pool[i].key, sketch.State().Effective();
      ToBeListed(i, x, items, snap, found, news, cur);
      now := found + {x};
      ghost var base := Last().total;
      more := Record(i, news);
      ListsIs(snap, base, cur, now, more);
    }

    /** The counter on top of the first heap has risen: record it. */
    method RecordTop(i: nat, news: seq<Delta>, ghost items: set<nat>, ghost snap: map<Key, SnapshotCounter>,
                     ghost found: set<Key>)
      returns (more: seq<Delta>, ghost now: set<Key>)
      requires SketchValid() && Working(items, news) && 0 < c1Heap.n && i == c1Heap.heap[0] && i in items
      requires Lists(snap, found, news) && i < |pool| && pool[i].c1 > sub + sketch.delta
      modifies `pool, `snapshot, c1Heap, c1Heap.heap, c1Heap.place, c2Heap, c2Heap.heap, c2Heap.place
      ensures Working(items, more) && |more| == |news| + 1 && SketchValid()
      ensures old(MinSorted()) ==> MinSorted()
      ensures Lists(snap, now, more) && now == found + {old(pool)[i].key} && old(pool)[i].key !in found
      ensures i < |pool| == |old(pool)| && pool == old(pool)[i := pool[i]]
          && pool[i].c1 <= sub + sketch.delta <= pool[i].c2
    {
      hide *;
      WorkingParts(items, news);
      ghost var was := pool;
      if MinSorted() { MinSortedIs(); }
      more, now := RecordOff(i, news, items, snap, found);
      TopOfFirst(i, was, items);
      IsWorking(items, more);
      if c2Heap.Sorted(MinKey(pool)) { IsMinSorted(); }
    }

    /** The counter on top of the second heap has fallen: record it. */
    method RecordBottom(i: nat, news: seq<Delta>, ghost items: set<nat>, ghost snap: map<Key, SnapshotCounter>,
                     ghost found: set<Key>)
      returns (more: seq<Delta>, ghost now: set<Key>)
      requires SketchValid() && Working(items, news) && 0 < c2Heap.n && i == c2Heap.heap[0] && i in items
      requires Lists(snap, found, news) && i < |pool| && pool[i].c2 < sub + sketch.delta
      modifies `pool, `snapshot, c1Heap, c1Heap.heap, c1Heap.place, c2Heap, c2Heap.heap, c2Heap.place
      ensures Working(items, more) && |more| == |news| + 1 && SketchValid()
      ensures old(MinSorted()) ==> MinSorted()
      ensures Lists(snap, now, more) && now == found + {old(pool)[i].key} && old(pool)[i].key !in found
      ensures i < |pool| == |old(pool)| && pool == old(pool)[i := pool[i]]
          && pool[i].c1 <= sub + sketch.delta <= pool[i].c2
    {
      hide *;
      WorkingParts(items, news);
      ghost var was := pool;
      if MinSorted() { MinSortedIs(); }
      more, now := RecordOff(i, news, items, snap, found);
      TopOfSecond(i, was, items);
      IsWorking(items, more);
      if c2Heap.Sorted(MinKey(pool)) { IsMinSorted(); }
    }

    lemma MinSortedIs()
      requires MinSorted()
      ensures c2Heap.Sorted(MinKey(pool))
    {
    }

    lemma IsMinSorted()
      requires c2Heap.Sorted(MinKey(pool))
      ensures MinSorted()
    {
    }

    /** Find keys whose counts exceed the upper limit. */
    method RecordRisen(capacity: nat, ghost items: set<nat>, ghost snap: map<Key, SnapshotCounter>)
      returns (news: seq<Delta>, full: bool, ghost found: set<Key>)
      requires SketchValid() && Working(items, []) && numDeltas <= capacity && items != {} && Lists(snap, {}, [])
      modifies `pool, `snapshot, c1Heap, c1Heap.heap, c1Heap.place, c2Heap, c2Heap.heap, c2Heap.place
      ensures SketchValid() && Working(items, news) && (old(MinSorted()) ==> MinSorted())
      ensures numDeltas + |news| <= capacity && Lists(snap, found, news)
      ensures !full ==> NoneRisen(items)
      ensures full ==> Overflows(capacity, snap)
    {
      hide *;
      news, full, found := [], false, {};
      ghost var d := sub + sketch.delta;
      WorkingParts(items, news);
      var top := c1Heap.Top();
      ItemIs(items, news, top);
      while pool[top].c1 > sub + sketch.delta && !full
        invariant SketchValid() && Working(items, news) && numDeltas + |news| <= capacity
        invariant Lists(snap, found, news) && (full ==> Overflows(capacity, snap))
        invariant old(MinSorted()) ==> MinSorted()
        invariant 0 < c1Heap.n <= c1Heap.heap.Length && top == c1Heap.heap[0] && top in items && top < |pool|
        decreases if full then 0 else 1, |Risen(pool, items, d)|
      {
        if numDeltas + |news| + 1 > capacity {
          OneTooMany(top, items, snap, found, news, capacity);
          full := true;
        } else {
          ghost var was := pool;
          news, found := RecordTop(top, news, items, snap, found);
          OneFewer(was, items, d, top, pool[top]);
          WorkingParts(items, news);
          top := c1Heap.Top();
          ItemIs(items, news, top);
        }
      }
      if !full { TopIsHighest(items, news); }
    }

    /** There is no room for all counts that have drifted. */
    ghost predicate Overflows(capacity: nat, snap: map<Key, SnapshotCounter>)
      reads `checkpoints, `numDeltas, sketch
    {
      && checkpoints != []
      && numDeltas + |Drifters(third, snap, Last().total, sketch.State().Effective())| > capacity
    }

    lemma OneTooMany(i: nat, items: set<nat>, snap: map<Key, SnapshotCounter>, found: set<Key>, news: seq<Delta>,
                     capacity: nat)
      requires SketchValid() && Working(items, news) && i in items && Lists(snap, found, news)
      requires i < |pool| && !(pool[i].c1 <= sub + sketch.delta <= pool[i].c2) && numDeltas + |news| + 1 > capacity
      ensures Overflows(capacity, snap)
    {
      hide Working, SketchValid, Lists, Drifters, Listed;
      var cur := sketch.State().Effective();
      ToBeListed(i, pool[i].key, items, snap, found, news, cur);
      ListsParts(snap, found, news);
      var all := Drifters(third, snap, Last().total, cur);
      ListedParts(third, snap, Last().total, cur, lastTs, total, found, news, snapshot);
      OneLeftOut(found, all, pool[i].key);
    }

    /** With no counter above the pending amount every risen count is listed, with none below it every drifter. */
    lemma AllListed(items: set<nat>, snap: map<Key, SnapshotCounter>, found: set<Key>, news: seq<Delta>)
      requires SketchValid() && Working(items, news) && NoneRisen(items) && Lists(snap, found, news)
      ensures checkpoints != []
      ensures Risers(third, Last().total, snap, sketch.State().Effective()) <= found
      ensures found <= Drifters(third, snap, Last().total, sketch.State().Effective())
      ensures NoneFallen(items) ==> found == Drifters(third, snap, Last().total, sketch.State().Effective())
    {
      hide *;
      ListsParts(snap, found, news);
      var cur, base := sketch.State().Effective(), Last().total;
      forall x <- cur
        ensures cur[x] > Base(snapshot, x) ==> Close(third, snapshot, base, x, cur[x])
        ensures NoneFallen(items) ==> Close(third, snapshot, base, x, cur[x])
      {
        InRange(items, news, x);
      }
      ListedParts(third, snap, base, cur, lastTs, total, found, news, snapshot);
      ListedAll(third, snap, base, cur, lastTs, total, found, news, snapshot);
    }

    lemma InRange(items: set<nat>, news: seq<Delta>, x: Key)
      requires SketchValid() && Working(items, news) && NoneRisen(items) && checkpoints != []
      requires x in sketch.State().Effective()
      ensures var v := sketch.State().Effective()[x];
              && (v > Base(snapshot, x) ==> Close(third, snapshot, Last().total, x, v))
              && (NoneFallen(items) ==> Close(third, snapshot, Last().total, x, v))
    {
      hide *;
      WorkingParts(items, news);
      TuneParts(sketch.cnt, sub);
      SummaryIs();
      EffectiveKeys(sketch.State());
      NoneRisenIs(items);
      LiveCounters(items);
      BaseIs();
      SidesShow(third, checkpoints, snapshot, pool, keyTo, sketch.State(), sub, x);
      if NoneFallen(items) { NoneFallenIs(items); }
    }

    ghost predicate NoneRisen(items: set<nat>)
      reads `pool, `sub, sketch
    {
      forall i <- items :: i < |pool| && pool[i].c1 <= sub + sketch.delta
    }

    lemma TopIsHighest(items: set<nat>, news: seq<Delta>)
      requires Working(items, news) && 0 < c1Heap.n <= c1Heap.heap.Length && c1Heap.heap[0] < |pool|
          && pool[c1Heap.heap[0]].c1 <= sub + sketch.delta
      ensures NoneRisen(items)
    {
      hide Working, Heaps, InTune, Recording, Staffed, CounterHeap.Valid, CounterHeap.Sorted;
      WorkingParts(items, news);
      c1Heap.Parts();
      c1Heap.TopLeast(MaxKey(pool));
      forall i <- items ensures i < |pool| && pool[i].c1 <= sub + sketch.delta {
        ItemIs(items, news, i);
        assert MaxKey(pool)(c1Heap.heap[0]) <= MaxKey(pool)(i);
      }
    }

    ghost predicate NoneFallen(items: set<nat>)
      reads `pool, `sub, sketch
    {
      forall i <- items :: i < |pool| && pool[i].c2 >= sub + sketch.delta
    }

    lemma BottomIsLowest(items: set<nat>, news: seq<Delta>)
      requires Working(items, news) && 0 < c2Heap.n <= c2Heap.heap.Length && c2Heap.heap[0] < |pool|
          && pool[c2Heap.heap[0]].c2 >= sub + sketch.delta
      requires MinSorted()
      ensures NoneFallen(items)
    {
      hide Working, Heaps, InTune, Recording, Staffed, CounterHeap.Valid, CounterHeap.Sorted;
      WorkingParts(items, news);
      c2Heap.Parts();
      c2Heap.TopLeast(MinKey(pool));
      forall i <- items ensures i < |pool| && pool[i].c2 >= sub + sketch.delta {
        ItemIs(items, news, i);
        assert MinKey(pool)(c2Heap.heap[0]) <= MinKey(pool)(i);
      }
    }

    lemma StillNoneRisen(items: set<nat>, was: Pool, i: nat)
      requires i < |was| == |pool| && pool == was[i := pool[i]] && pool[i].c1 <= sub + sketch.delta
      requires forall j <- items :: j < |was| && was[j].c1 <= sub + sketch.delta
      ensures NoneRisen(items)
    {
    }

    /** Find keys whose counts drop below the lower limit, as far as the second heap shows them. */
    method RecordFallen(capacity: nat, before: seq<Delta>, ghost items: set<nat>,
                        ghost snap: map<Key, SnapshotCounter>, ghost risen: set<Key>)
      returns (news: seq<Delta>, full: bool, ghost found: set<Key>)
      requires SketchValid() && Working(items, before) && numDeltas + |before| <= capacity && items != {}
          && NoneRisen(items) && Lists(snap, risen, before)
      modifies `pool, `snapshot, c1Heap, c1Heap.heap, c1Heap.place, c2Heap, c2Heap.heap, c2Heap.place
      ensures SketchValid() && Working(items, news) && (old(MinSorted()) ==> MinSorted()) && NoneRisen(items)
      ensures numDeltas + |news| <= capacity && Lists(snap, found, news)
      ensures !full && old(MinSorted()) ==> NoneFallen(items)
      ensures full ==> Overflows(capacity, snap)
    {
      hide *;
      news, full, found := before, false, risen;
      ghost var d, sorted := sub + sketch.delta, MinSorted();
      WorkingParts(items, news);
      var top := c2Heap.Top();
      ItemIs(items, news, top);
      while pool[top].c2 < sub + sketch.delta && !full
        invariant SketchValid() && Working(items, news) && numDeltas + |news| <= capacity && NoneRisen(items)
        invariant Lists(snap, found, news) && (full ==> Overflows(capacity, snap))
        invariant sorted ==> MinSorted()
        invariant 0 < c2Heap.n <= c2Heap.heap.Length && top == c2Heap.heap[0] && top in items && top < |pool|
        decreases if full then 0 else 1, |Fallen(pool, items, d)|
      {
        if numDeltas + |news| + 1 > capacity {
          OneTooMany(top, items, snap, found, news, capacity);
          full := true;
        } else {
          ghost var was := pool;
          NoneRisenIs(items);
          news, found := RecordBottom(top, news, items, snap, found);
          OneFewer(was, items, d, top, pool[top]);
          StillNoneRisen(items, was, top);
          WorkingParts(items, news);
          top := c2Heap.Top();
          ItemIs(items, news, top);
        }
      }
      if !full && sorted { BottomIsLowest(items, news); }
    }

    lemma NoneRisenIs(items: set<nat>)
      requires NoneRisen(items)
      ensures forall i <- items :: i < |pool| && pool[i].c1 <= sub + sketch.delta
    {
    }

    /** Counters, maps and heaps agree on who is who, whatever the counters say. */
    ghost predicate Held(items: set<nat>)
      reads `pool, `free, `keyTo, `deleted, sketch, c1Heap, c1Heap.heap, c1Heap.place, c2Heap, c2Heap.heap, c2Heap.place
    {
      && Staffed(k, pool, free, keyTo, deleted) && keyTo.Values == items && keyTo.Keys == sketch.cnt.Keys
      && Heaps(items)
    }

    lemma WorkingIsHeld(items: set<nat>, news: seq<Delta>)
      requires Working(items, news)
      ensures Held(items)
    {
      hide Staffed, Heaps, InTune, Recording, CounterHeap.Sorted;
    }

    lemma HeldParts(items: set<nat>)
      requires Held(items)
      ensures Staffed(k, pool, free, keyTo, deleted) && keyTo.Values == items && keyTo.Keys == sketch.cnt.Keys
          && Heaps(items)
    {
    }

    lemma IsHeld(items: set<nat>)
      requires Staffed(k, pool, free, keyTo, deleted) && keyTo.Values == items && keyTo.Keys == sketch.cnt.Keys
          && Heaps(items)
      ensures Held(items)
    {
    }

    /** A counter outside the heaps does not matter to their order. */
    lemma OutsideOrder(was: Pool, i: nat, items: set<nat>)
      requires Heaps(items) && i < |was| == |pool| && pool == was[i := pool[i]] && i !in items
      ensures c1Heap.Sorted(MaxKey(was)) ==> c1Heap.Sorted(MaxKey(pool))
      ensures c2Heap.Sorted(MinKey(was)) ==> c2Heap.Sorted(MinKey(pool))
    {
      hide *;
      HeapParts(items);
      PoolKeys(was, i, pool[i], items);
      if c1Heap.Sorted(MaxKey(was)) { c1Heap.SameKeys(MaxKey(was), MaxKey(pool)); }
      if c2Heap.Sorted(MinKey(was)) { c2Heap.SameKeys(MinKey(was), MinKey(pool)); }
    }

    lemma OutsideDrift(was: Pool, i: nat, items: set<nat>)
      requires i < |was| == |pool| && pool == was[i := pool[i]] && i !in items
      ensures (forall j <- items :: j < |was| && was[j].c1 <= sub + sketch.delta) ==> NoneRisen(items)
      ensures (forall j <- items :: j < |was| && was[j].c2 >= sub + sketch.delta) ==> NoneFallen(items)
    {
    }

    lemma NoneFallenIs(items: set<nat>)
      requires NoneFallen(items)
      ensures forall i <- items :: i < |pool| && pool[i].c2 >= sub + sketch.delta
    {
    }

    lemma DeletedIs(x: Key)
      requires Staffed(k, pool, free, keyTo, deleted) && x in deleted
      ensures deleted[x] < |pool| && Serves(pool, keyTo) && Serves(pool, deleted) && keyTo.Keys !! deleted.Keys
          && pool[deleted[x]].key == x
    {
      hide *;
      StaffedParts(k, pool, free, keyTo, deleted);
      ServedKey(pool, deleted, x);
    }

    /** The counter of a dropped key goes back to the free ones. */
    method Release(x: Key)
      requires Staffed(k, pool, free, keyTo, deleted) && x in deleted
      modifies `pool, `free, `deleted
      ensures Staffed(k, pool, free, keyTo, deleted) && |deleted| < |old(deleted)|
      ensures var i := old(deleted[x]);
              i < |old(pool)| == |pool| && i !in keyTo.Values && pool == old(pool)[i := pool[i]]
                && pool[i] == old(pool)[i].(inLast := false)
    {
      hide *;
      DeletedIs(x);
      var i := deleted[x];
      var c := pool[i].(inLast := false);
      ReleaseStaffed(k, pool, free, keyTo, deleted, x, i, c);
      pool := pool[i := c];
      free := [i] + free;
      deleted := Without(deleted, x);
    }

    /** Record a dropped key as gone, and release its counter. */
    method Withdraw(x: Key, news: seq<Delta>) returns (more: seq<Delta>)
      requires Staffed(k, pool, free, keyTo, deleted) && InTune(sketch.cnt, sub) && Recording(news) && x in deleted
      modifies `pool, `free, `deleted, `snapshot
      ensures Staffed(k, pool, free, keyTo, deleted) && InTune(sketch.cnt, sub) && Recording(more)
          && more == news + [Delta(lastTs, total, x, 0)]
      ensures |deleted| < |old(deleted)| && deleted == Without(old(deleted), x)
      ensures var i := old(deleted[x]);
              i < |old(pool)| == |pool| && i !in keyTo.Values && pool == old(pool)[i := pool[i]]
    {
      hide *;
      DeletedIs(x);
      var i := deleted[x];
      var c := pool[i].(inLast := false);
      WithdrawReady(x, i, c);
      RecordingShrinks(news, x);
      more := news + [Delta(lastTs, total, x, 0)];
      pool := pool[i := c];
      free := [i] + free;
      deleted := Without(deleted, x);
      snapshot := Without(snapshot, x);
      IsRecording(more);
      TuneIs(sketch.cnt, sub);
    }

    lemma WithdrawReady(x: Key, i: nat, c: Counter)
      requires Staffed(k, pool, free, keyTo, deleted) && InTune(sketch.cnt, sub)
      requires x in deleted && i == deleted[x] && i < |pool| && c == pool[i].(inLast := false)
      ensures i !in keyTo.Values && Staffed(k, pool[i := c], [i] + free, keyTo, Without(deleted, x))
          && |Without(deleted, x)| + 1 == |deleted|
      ensures Tuned(third, checkpoints, Without(snapshot, x), pool[i := c], keyTo, sketch.cnt, sub)
      ensures Linked(checkpoints, Without(snapshot, x), pool[i := c], keyTo, Without(deleted, x))
    {
      hide *;
      DeletedIs(x);
      TuneParts(sketch.cnt, sub);
      ReleaseStaffed(k, pool, free, keyTo, deleted, x, i, c);
      ReleaseLinks(checkpoints, snapshot, pool, keyTo, deleted, x, i, c);
      ReleaseTunes(third, checkpoints, snapshot, pool, keyTo, deleted, sketch.cnt, sub, x, i, c);
    }

    method RecordGone(x: Key, news: seq<Delta>, ghost items: set<nat>) returns (more: seq<Delta>)
      requires Working(items, news) && NoneRisen(items) && x in deleted
      modifies `pool, `free, `deleted, `snapshot
      ensures Working(items, more) && NoneRisen(items) && more == news + [Delta(lastTs, total, x, 0)]
      ensures |deleted| < |old(deleted)| && deleted == Without(old(deleted), x)
      ensures old(NoneFallen(items)) ==> NoneFallen(items)
      ensures old(MinSorted()) ==> MinSorted()
    {
      hide *;
      WorkingParts(items, news);
      NoneRisenIs(items);
      if NoneFallen(items) { NoneFallenIs(items); }
      if MinSorted() { MinSortedIs(); }
      ghost var was, i := pool, deleted[x];
      more := Withdraw(x, news);
      OutsideOrder(was, i, items);
      OutsideDrift(was, i, items);
      IsWorking(items, more);
      if c2Heap.Sorted(MinKey(pool)) { IsMinSorted(); }
    }

    method RecordMissing(x: Key, news: seq<Delta>, ghost items: set<nat>, ghost cur: Table, ghost found: set<Key>,
                         ghost missing: set<Key>)
      returns (more: seq<Delta>)
      requires Going(items, news, cur, found, missing) && x in deleted
      modifies `pool, `free, `deleted, `snapshot
      ensures Going(items, more, cur, found, missing) && Held(items)
      ensures |deleted| < |old(deleted)| && |more| == |news| + 1
      ensures old(NoneFallen(items)) ==> NoneFallen(items)
      ensures old(MinSorted()) ==> MinSorted()
    {
      hide *;
      GoingParts(items, news, cur, found, missing);
      GoneNext(found, missing, deleted, news, cur, lastTs, total, x);
      more := RecordGone(x, news, items);
      IsGoing(items, more, cur, found, missing);
      GoingParts(items, more, cur, found, missing);
    }

    /** The keys found and the missing ones whose counters are released already are listed. */
    ghost predicate Going(items: set<nat>, news: seq<Delta>, cur: Table, found: set<Key>, missing: set<Key>)
      reads `checkpoints, `snapshot, `pool, `free, `keyTo, `deleted, `sub, `total, `lastTs, `events, sketch, c1Heap,
          c1Heap.heap, c1Heap.place, c2Heap, c2Heap.heap, c2Heap.place
    {
      && Working(items, news) && NoneRisen(items)
      && deleted.Keys <= missing && found <= cur.Keys && cur.Keys !! missing
      && NewsOf(found + (missing - deleted.Keys), news, cur, lastTs, total)
    }

    lemma GoingParts(items: set<nat>, news: seq<Delta>, cur: Table, found: set<Key>, missing: set<Key>)
      requires Going(items, news, cur, found, missing)
      ensures Working(items, news) && NoneRisen(items) && Held(items)
      ensures deleted.Keys <= missing && found <= cur.Keys && cur.Keys !! missing
      ensures NewsOf(found + (missing - deleted.Keys), news, cur, lastTs, total)
      ensures deleted == map[] ==> NewsOf(found + missing, news, cur, lastTs, total)
    {
      hide Working, NoneRisen, NewsOf, Held;
      WorkingIsHeld(items, news);
      if deleted == map[] { assert missing - deleted.Keys == missing; }
    }

    lemma IsGoing(items: set<nat>, news: seq<Delta>, cur: Table, found: set<Key>, missing: set<Key>)
      requires Working(items, news) && NoneRisen(items)
      requires deleted.Keys <= missing && found <= cur.Keys && cur.Keys !! missing
      requires NewsOf(found + (missing - deleted.Keys), news, cur, lastTs, total)
      ensures Going(items, news, cur, found, missing)
    {
      hide Working, NoneRisen, NewsOf;
    }

    lemma StartsGoing(items: set<nat>, news: seq<Delta>, cur: Table, found: set<Key>, missing: set<Key>)
      requires Working(items, news) && NoneRisen(items) && missing == deleted.Keys
      requires found <= cur.Keys && cur.Keys !! missing && NewsOf(found, news, cur, lastTs, total)
      ensures Going(items, news, cur, found, missing)
    {
      hide Working, NoneRisen, NewsOf;
      assert found + (missing - deleted.Keys) == found;
    }

    lemma StillRoom(items: set<nat>, news: seq<Delta>, cur: Table, found: set<Key>, missing: set<Key>, x: Key)
      requires Going(items, news, cur, found, missing) && x in deleted
      ensures |news| + 1 <= |found + missing|
    {
      hide *;
      GoingParts(items, news, cur, found, missing);
      GoneNext(found, missing, deleted, news, cur, lastTs, total, x);
    }

    /**
     * Record deleted keys as well, as long as the list does not get too long; their counters become free in
     * any case.
     */
    method ReleaseDeleted(capacity: nat, before: seq<Delta>, ghost items: set<nat>, ghost cur: Table,
                          ghost found: set<Key>, ghost missing: set<Key>)
      returns (news: seq<Delta>, full: bool)
      requires Going(items, before, cur, found, missing) && numDeltas + |before| <= capacity
      modifies `pool, `free, `deleted, `snapshot
      ensures deleted == map[] && Held(items)
      ensures !full ==> Going(items, news, cur, found, missing) && numDeltas + |news| <= capacity
      ensures full ==> numDeltas + |found + missing| > capacity
      ensures !full && old(NoneFallen(items)) ==> NoneFallen(items)
      ensures !full && old(MinSorted()) ==> MinSorted()
    {
      hide *;
      news, full := before, false;
      ghost var noneFallen, sorted := NoneFallen(items), MinSorted();
      GoingParts(items, news, cur, found, missing);
      while deleted != map[]
        invariant Held(items) && (!full ==> Going(items, news, cur, found, missing))
        invariant numDeltas + |news| <= capacity && (full ==> numDeltas + |news| + 1 > capacity)
        invariant full ==> numDeltas + |found + missing| > capacity
        invariant !full && noneFallen ==> NoneFallen(items)
        invariant !full && sorted ==> MinSorted()
        decreases |deleted|
      {
        var x :| x in deleted;
        if !full { StillRoom(items, news, cur, found, missing, x); }
        if numDeltas + |news| + 1 > capacity { full := true; }
        if !full {
          news := RecordMissing(x, news, items, cur, found, missing);
        } else {
          ReleaseMissing(x, items);
        }
      }
    }

    method ReleaseMissing(x: Key, ghost items: set<nat>)
      requires Held(items) && x in deleted
      modifies `pool, `free, `deleted
      ensures Held(items) && |deleted| < |old(deleted)|
    {
      hide *;
      HeldParts(items);
      Release(x);
      IsHeld(items);
    }

    /** The counters renewed so far, from the front of the first heap. */
    ghost predicate RenewedUpTo(p: nat, d: nat)
      reads `pool, c1Heap, c1Heap.heap
    {
      p <= c1Heap.n <= c1Heap.heap.Length
      && forall q :: 0 <= q < p ==> c1Heap.heap[q] < |pool| && Anew(pool[c1Heap.heap[q]], d)
    }

    lemma RenewOne(was: Pool, p: nat, d: nat)
      requires c1Heap.Valid() && p < c1Heap.n && |was| == |pool| && c1Heap.heap[p] < |was|
      requires pool == was[c1Heap.heap[p] := pool[c1Heap.heap[p]]] && Anew(pool[c1Heap.heap[p]], d)
      requires forall q :: 0 <= q < p ==> c1Heap.heap[q] < |was| && Anew(was[c1Heap.heap[q]], d)
      ensures RenewedUpTo(p + 1, d)
    {
      hide CounterHeap.Valid, MinHeap.Indexed, MinHeap.Distinct;
      c1Heap.Parts();
      c1Heap.Members();
      forall q | 0 <= q < p ensures c1Heap.heap[q] != c1Heap.heap[p] {
        assert c1Heap.place[c1Heap.heap[q]] == q && c1Heap.place[c1Heap.heap[p]] == p;
      }
    }

    /** The counters of the first heap start anew from the last checkpoint. */
    method Renew(d: nat, ghost items: set<nat>)
      requires Held(items)
      modifies `pool
      ensures Held(items) && RenewedUpTo(c1Heap.n, d)
    {
      hide Staffed, Heaps, CounterHeap.Valid;
      HeldParts(items);
      HeapParts(items);
      c1Heap.Parts();
      var p := 0;
      while p < c1Heap.n
        invariant 0 <= p <= c1Heap.n && Staffed(k, pool, free, keyTo, deleted)
        invariant RenewedUpTo(p, d)
      {
        ghost var was := pool;
        c1Heap.Members();
        var i := c1Heap.heap[p];
        LiveIs(k, pool, free, keyTo, deleted, i);
        var c := Counter(pool[i].key, true, FromCheckpoint, -(d as int), d);
        Retuned(k, pool, free, keyTo, deleted, i, c);
        pool := pool[i := c];
        RenewOne(was, p, d);
        p := p + 1;
      }
    }

    lemma ItemsRenewed(items: set<nat>, d: nat)
      requires Heaps(items) && RenewedUpTo(c1Heap.n, d)
      ensures forall i <- items :: i < |pool| && Anew(pool[i], d)
    {
      hide Heaps, CounterHeap.Valid, Anew;
      HeapParts(items);
      c1Heap.Members();
      forall i <- items ensures i < |pool| && Anew(pool[i], d) {
        assert c1Heap.heap[c1Heap.place[i]] == i;
      }
    }

    lemma KeysRenewed(items: set<nat>, d: nat)
      requires Held(items) && forall i <- items :: i < |pool| && Anew(pool[i], d)
      ensures Renewed(pool, keyTo, d)
    {
      hide Staffed, Heaps, Anew;
      HeldParts(items);
      StaffedParts(k, pool, free, keyTo, deleted);
      forall x <- keyTo ensures keyTo[x] < |pool| && pool[keyTo[x]].key == x && Anew(pool[keyTo[x]], d) {
        ServedKey(pool, keyTo, x);
      }
    }

    lemma RenewedInOrder(items: set<nat>, d: nat)
      requires Heaps(items) && forall i <- items :: i < |pool| && Anew(pool[i], d)
      ensures c1Heap.Sorted(MaxKey(pool)) && MinSorted()
    {
      hide Heaps, CounterHeap.Valid, CounterHeap.Sorted;
      HeapParts(items);
      c1Heap.AlikeIsSorted(MaxKey(pool), d as real);
      c2Heap.AlikeIsSorted(MinKey(pool), d as real);
    }

    lemma AllRenewed(items: set<nat>, d: nat)
      requires Held(items) && RenewedUpTo(c1Heap.n, d)
      ensures Renewed(pool, keyTo, d) && c1Heap.Sorted(MaxKey(pool)) && MinSorted()
    {
      hide *;
      HeldParts(items);
      ItemsRenewed(items, d);
      KeysRenewed(items, d);
      RenewedInOrder(items, d);
    }

    /** All counters of dropped keys become free. */
    method FreeDeleted(ghost items: set<nat>, d: nat)
      requires Held(items) && Renewed(pool, keyTo, d) && c1Heap.Sorted(MaxKey(pool)) && MinSorted()
      modifies `pool, `free, `deleted
      ensures Held(items) && Renewed(pool, keyTo, d) && deleted == map[] && c1Heap.Sorted(MaxKey(pool)) && MinSorted()
    {
      hide *;
      while deleted != map[]
        invariant Held(items) && Renewed(pool, keyTo, d) && c1Heap.Sorted(MaxKey(pool)) && MinSorted()
        decreases |deleted|
      {
        var x :| x in deleted;
        HeldParts(items);
        ghost var was, i := pool, deleted[x];
        MinSortedIs();
        Release(x);
        IsHeld(items);
        OutsideOrder(was, i, items);
        RenewedStill(was, pool, keyTo, d, i);
        IsMinSorted();
      }
    }

    method Restart(ghost items: set<nat>, d: nat)
      requires Held(items)
      modifies `pool, `free, `deleted
      ensures Held(items) && Renewed(pool, keyTo, d) && deleted == map[] && c1Heap.Sorted(MaxKey(pool)) && MinSorted()
    {
      hide *;
      Renew(d, items);
      AllRenewed(items, d);
      FreeDeleted(items, d);
    }

    /** The log describes the sketch of this moment well enough. */
    ghost predicate Current()
      reads `checkpoints, `snapshot, `lastTs, sketch
    {
      && checkpoints != [] && DatedUpTo(checkpoints, lastTs)
      && NoneAbove(third, checkpoints, snapshot, sketch.State().Effective())
    }

    /** No count has fallen further below its record than is allowed. */
    ghost predicate NotBelow()
      reads `checkpoints, `snapshot, sketch
    {
      NoneBelow(third, checkpoints, snapshot, sketch.State().Effective())
    }

    method SettleSketch()
      requires SketchValid()
      modifies sketch
      ensures SketchValid() && sketch.delta == 0 && sketch.cnt.Keys == old(sketch.cnt.Keys)
      ensures sketch.State().Effective() == sketch.cnt == old(sketch.State().Effective())
    {
      hide Credit, Subtract;
      EffectiveKeys(sketch.State());
      sketch.Settled();
    }

    lemma CheckpointDone(cps: seq<Checkpoint>, c: Checkpoint)
      requires SketchValid() && sketch.State().Effective() == sketch.cnt
          && c == Checkpoint(lastTs, total, sketch.cnt, [])
      requires checkpoints == cps + [c] && numDeltas == 0 && snapshot == SnapshotOf(sketch.cnt, total)
      requires Earlier(cps, events, lastTs)
      ensures LogValid() && Ordered() && Current() && NotBelow()
      ensures SameBefore(third, cps, checkpoints, lastTs)
    {
      hide Matches, TotalsUpTo, ChainLog.Full, SameBefore, Started, NoneAbove, NoneBelow, RecordedUpTo, SnapshotOf,
          Credit, Capacity, NoOvercount, Summary.Effective;
      CheckpointKeepsPast(third, cps, c);
      FreshMatches(third, cps, c);
      SnapshotFacts(third, cps, c, Keys(events));
    }

    lemma CheckpointTuned(cps: seq<Checkpoint>, c: Checkpoint)
      requires checkpoints == cps + [c] && c == Checkpoint(lastTs, total, sketch.cnt, [])
          && snapshot == SnapshotOf(sketch.cnt, total) && sub == 0
      requires Renewed(pool, keyTo, Allow(third, total)) && keyTo.Keys == sketch.cnt.Keys && deleted == map[]
      ensures InTune(sketch.cnt, sub)
    {
      hide *;
      RenewedIsInTune(third, checkpoints, c, snapshot, pool, keyTo, deleted);
      TuneIs(sketch.cnt, sub);
    }

    method PutCheckpoint() returns (c: Checkpoint)
      modifies `checkpoints, `numDeltas, `snapshot, `sub
      ensures c == Checkpoint(lastTs, total, sketch.cnt, []) && checkpoints == old(checkpoints) + [c]
      ensures numDeltas == 0 && sub == 0 && snapshot == SnapshotOf(sketch.cnt, total)
    {
      hide *;
      c := Checkpoint(lastTs, total, sketch.cnt, []);
      checkpoints := checkpoints + [c];
      numDeltas := 0;
      sub := 0;
      snapshot := SnapshotOf(sketch.cnt, total);
    }

    method SettleHeld(ghost items: set<nat>)
      requires SketchValid() && Held(items)
      modifies sketch
      ensures SketchValid() && Held(items)
      ensures sketch.State().Effective() == sketch.cnt == old(sketch.State().Effective())
    {
      hide *;
      HeldParts(items);
      SettleSketch();
      IsHeld(items);
    }

    lemma CheckpointReady(items: set<nat>, cps: seq<Checkpoint>, c: Checkpoint)
      requires SketchValid() && Held(items) && sketch.State().Effective() == sketch.cnt
          && c == Checkpoint(lastTs, total, sketch.cnt, [])
      requires checkpoints == cps + [c] && numDeltas == 0 && snapshot == SnapshotOf(sketch.cnt, total) && sub == 0
      requires Earlier(cps, events, lastTs) && Renewed(pool, keyTo, Allow(third, total)) && deleted == map[]
      ensures InTune(sketch.cnt, sub) && LogValid() && Ordered() && Current() && NotBelow()
      ensures SameBefore(third, cps, checkpoints, lastTs)
    {
      hide *;
      HeldParts(items);
      CheckpointTuned(cps, c);
      CheckpointDone(cps, c);
    }

    /** `make_checkpoint` */
    method MakeCheckpoint(ghost items: set<nat>)
      requires SketchValid() && Held(items) && Earlier(checkpoints, events, lastTs)
      modifies sketch, `checkpoints, `numDeltas, `snapshot, `sub, `pool, `free, `deleted
      ensures SketchValid() && Held(items) && InTune(sketch.cnt, sub) && c1Heap.Sorted(MaxKey(pool)) && MinSorted()
      ensures LogValid() && Ordered() && Current() && NotBelow()
      ensures SameBefore(third, old(checkpoints), checkpoints, lastTs)
      ensures checkpoints == old(checkpoints) + [Checkpoint(lastTs, total, old(sketch.State().Effective()), [])]
          && numDeltas == 0
    {
      hide *;
      SettleHeld(items);
      var c := PutCheckpoint();
      Restart(items, Allow(third, total));
      CheckpointReady(items, old(checkpoints), c);
    }

    ghost predicate LastFits(news: seq<Delta>)
      reads `checkpoints, `numDeltas, `total
    {
      && checkpoints != []
      && |Last().deltas| == numDeltas && numDeltas + |news| <= Capacity(third, total)
      && Last().total <= total
    }

    /** What the log with the new deltas amounts to. */
    lemma LoggedInTune(items: set<nat>, news: seq<Delta>, cps: seq<Checkpoint>)
      requires SketchValid() && Working(items, news) && NoneRisen(items) && cps == Log(checkpoints, news)
          && checkpoints != []
      ensures Tuned(third, cps, snapshot, pool, keyTo, sketch.cnt, sub) && Linked(cps, snapshot, pool, keyTo, deleted)
      ensures NoneAbove(third, cps, snapshot, sketch.State().Effective())
      ensures NoneFallen(items) && deleted == map[] ==> NoneBelow(third, cps, snapshot, sketch.State().Effective())
    {
      hide *;
      WorkingParts(items, news);
      TuneParts(sketch.cnt, sub);
      NoneRisenIs(items);
      LiveCounters(items);
      LoggedStaysInTune(third, checkpoints, news, snapshot, pool, keyTo, deleted, sketch.cnt, sub);
      SummaryIs();
      TunedIsNotAbove(third, checkpoints, snapshot, pool, keyTo, sketch.State(), sub);
      if NoneFallen(items) && deleted == map[] {
        NoneFallenIs(items);
        RecordedAreLive(items, news);
        TunedIsNotBelow(third, checkpoints, snapshot, pool, keyTo, sketch.State(), sub);
      }
    }

    lemma SummaryIs()
      requires SketchValid()
      ensures sketch.State().cnt == sketch.cnt && sketch.State().delta == sketch.delta && sketch.State().Valid()
      ensures forall x <- sketch.cnt :: sketch.cnt[x] > sketch.delta
      ensures |sketch.cnt| <= k - 1
    {
    }

    lemma LiveCounters(items: set<nat>)
      requires keyTo.Values == items
      ensures forall x <- keyTo :: keyTo[x] in items
    {
    }

    lemma RecordedAreLive(items: set<nat>, news: seq<Delta>)
      requires Working(items, news) && deleted == map[]
      ensures snapshot.Keys <= keyTo.Keys && keyTo.Keys == sketch.cnt.Keys
    {
    }

    lemma RecordedAreFew(items: set<nat>, news: seq<Delta>)
      requires SketchValid() && Working(items, news) && deleted == map[]
      ensures |snapshot| <= k - 1
    {
      hide *;
      RecordedAreLive(items, news);
      SummaryIs();
      Subset(snapshot.Keys, sketch.cnt.Keys);
      assert |snapshot| == |snapshot.Keys| && |sketch.cnt| == |sketch.cnt.Keys|;
    }

    lemma RecordingParts(news: seq<Delta>)
      requires Recording(news)
      ensures checkpoints != [] && Matches(third, ChainLog.Full(third, Log(checkpoints, news)), snapshot)
      ensures TotalsUpTo(snapshot, total) && RecordedUpTo(snapshot, Keys(events)) && forall d <- news :: d.ts == lastTs
    {
    }

    lemma LoggedInOrder(news: seq<Delta>, cps: seq<Checkpoint>)
      requires LastFits(news) && Ordered() && DatedUpTo(checkpoints, lastTs) && cps == Log(checkpoints, news)
          && forall d <- news :: d.ts == lastTs
      ensures DatedUpTo(cps, lastTs) && cps != [] && SameBefore(third, checkpoints, cps, lastTs)
      ensures forall i, j :: 0 <= i < j < |cps| ==> cps[i].ts < cps[j].ts
      ensures (forall c <- cps :: Started(events, c.ts)) && (lastTs > 0 ==> Started(events, lastTs))
      ensures cps[|cps| - 1].total <= total && |cps[|cps| - 1].deltas| == numDeltas + |news| <= Capacity(third, total)
    {
      hide Started, SameBefore, Capacity;
      LogKeepsPast(third, checkpoints, news, lastTs);
      forall c <- cps ensures Started(events, c.ts) && c.ts <= lastTs {
        if c == cps[|cps| - 1] { assert checkpoints[|checkpoints| - 1] in checkpoints; }
      }
    }

    /** Hang the new deltas on the last checkpoint. */
    method AppendDeltas(news: seq<Delta>, ghost items: set<nat>)
      requires SketchValid() && Working(items, news) && NoneRisen(items) && deleted == map[]
      requires LastFits(news) && Ordered() && DatedUpTo(checkpoints, lastTs)
      modifies `checkpoints, `numDeltas
      ensures SketchValid() && Held(items) && InTune(sketch.cnt, sub) && c1Heap.Sorted(MaxKey(pool))
      ensures LogValid() && Ordered() && Current() && (NoneFallen(items) ==> NotBelow())
      ensures SameBefore(third, old(checkpoints), checkpoints, lastTs)
      ensures checkpoints == Log(old(checkpoints), news) && numDeltas == old(numDeltas) + |news|
    {
      hide *;
      WorkingIsHeld(items, news);
      WorkingParts(items, news);
      RecordingParts(news);
      ghost var cps := Log(checkpoints, news);
      RecordedAreFew(items, news);
      LoggedInTune(items, news, cps);
      LoggedInOrder(news, cps);
      checkpoints := Log(checkpoints, news);
      numDeltas := numDeltas + |news|;
      TuneIs(sketch.cnt, sub);
      LogIs(items);
    }

    lemma LogIs(items: set<nat>)
      requires checkpoints != [] && DatedUpTo(checkpoints, lastTs)
          && Matches(third, ChainLog.Full(third, checkpoints), snapshot)
      requires checkpoints[|checkpoints| - 1].total <= total
          && |checkpoints[|checkpoints| - 1].deltas| == numDeltas <= Capacity(third, total)
      requires TotalsUpTo(snapshot, total) && RecordedUpTo(snapshot, Keys(events)) && |snapshot| <= k - 1
      requires forall i, j :: 0 <= i < j < |checkpoints| ==> checkpoints[i].ts < checkpoints[j].ts
      requires (forall c <- checkpoints :: Started(events, c.ts)) && (lastTs > 0 ==> Started(events, lastTs))
      requires NoneAbove(third, checkpoints, snapshot, sketch.State().Effective())
      requires NoneFallen(items) ==> NoneBelow(third, checkpoints, snapshot, sketch.State().Effective())
      ensures LogValid() && Ordered() && Current() && (NoneFallen(items) ==> NotBelow())
    {
      hide Started, Capacity, ChainLog.Full, Matches, NoneAbove, NoneBelow, NoneFallen;
    }

    /** Whether the loops of the boundary would look at the top of an empty heap. */
    predicate Stuck(ts: nat)
      reads `lastTs, `checkpoints, `keyTo
    {
      lastTs > 0 && ts != lastTs && checkpoints != [] && keyTo == map[]
    }

    /** What all steps of the end of a timestamp leave in place. */
    ghost predicate Kept()
      reads `checkpoints, `snapshot, `pool, `free, `keyTo, `deleted, `sub, `numDeltas, `total, `lastTs, `events, sketch
      reads c1Heap, c1Heap.heap, c1Heap.place, c2Heap, c2Heap.heap, c2Heap.place
    {
      && SketchValid() && LogValid() && Ordered()
      && PoolValid() && keyTo.Keys == sketch.cnt.Keys && InTune(sketch.cnt, sub) && c1Heap.Sorted(MaxKey(pool))
    }

    lemma KeptParts()
      requires Kept()
      ensures SketchValid() && LogValid() && Ordered() && Held(keyTo.Values) && InTune(sketch.cnt, sub)
          && c1Heap.Sorted(MaxKey(pool))
    {
      hide SketchValid, LogValid, Ordered, Staffed, Heaps, InTune, CounterHeap.Sorted;
    }

    lemma IsKept(items: set<nat>)
      requires SketchValid() && LogValid() && Ordered() && Held(items) && InTune(sketch.cnt, sub)
          && c1Heap.Sorted(MaxKey(pool))
      ensures Kept()
    {
      hide SketchValid, LogValid, Ordered, Staffed, Heaps, InTune, CounterHeap.Sorted;
    }

    lemma EarlierIs()
      requires Ordered() && LoggedBefore(lastTs) && lastTs > 0
      ensures Earlier(checkpoints, events, lastTs) && DatedUpTo(checkpoints, lastTs)
    {
      hide Started;
    }

    lemma StartsWorking()
      requires Kept() && checkpoints != []
      ensures Working(keyTo.Values, []) && LastFits([])
    {
      hide SketchValid, Ordered, Staffed, Heaps, InTune, CounterHeap.Sorted, Matches, TotalsUpTo, RecordedUpTo,
          ChainLog.Full, Keys, Capacity;
      LogNone(third, checkpoints);
    }

    /** The loops of a boundary that is not the first, which list what has changed as long as there is room. */
    method FindChanges(capacity: nat, ghost items: set<nat>)
      returns (news: seq<Delta>, full: bool, ghost keys: set<Key>)
      requires SketchValid() && Working(items, []) && numDeltas <= capacity && items != {}
      modifies `snapshot, `pool, `free, `deleted, c1Heap, c1Heap.heap, c1Heap.place, c2Heap, c2Heap.heap, c2Heap.place
      ensures SketchValid() && Held(items) && checkpoints != []
      ensures Found(third, old(MinSorted()), Last().total, old(snapshot), sketch.State().Effective(), keys)
      ensures full ==> numDeltas + |keys| > capacity
      ensures !full ==> Working(items, news) && NoneRisen(items) && deleted == map[]
      ensures !full ==> numDeltas + |news| <= capacity
      ensures !full ==> NewsOf(keys, news, sketch.State().Effective(), lastTs, total)
      ensures !full && old(MinSorted()) ==> MinSorted() && NoneFallen(items)
    {
      hide *;
      WorkingParts(items, []);
      RecordingParts([]);
      ghost var snap := snapshot;
      ListsNothing();
      ghost var found;
      news, full, found := RecordRisen(capacity, items, snap);
      if !full {
        news, full, found := RecordFallen(capacity, news, items, snap, found);
      }
      if full {
        keys := OverflowsIs(capacity, snap, old(MinSorted()));
        WorkingIsHeld(items, news);
      } else {
        ghost var cur, gone := sketch.State().Effective(), snap.Keys - sketch.State().Effective().Keys;
        keys := FoundAll(items, snap, found, news, old(MinSorted()));
        news, full := ReleaseDeleted(capacity, news, items, cur, found, gone);
        if !full { GoingParts(items, news, cur, found, gone); }
      }
    }

    lemma FoundAll(items: set<nat>, snap: map<Key, SnapshotCounter>, found: set<Key>, news: seq<Delta>, sorted: bool)
      returns (keys: set<Key>)
      requires SketchValid() && Working(items, news) && NoneRisen(items) && Lists(snap, found, news)
      requires sorted ==> NoneFallen(items)
      ensures var cur := sketch.State().Effective();
              && checkpoints != [] && keys == found + (snap.Keys - cur.Keys)
              && Found(third, sorted, Last().total, snap, cur, keys)
              && Going(items, news, cur, found, snap.Keys - cur.Keys)
    {
      hide *;
      var cur := sketch.State().Effective();
      AllListed(items, snap, found, news);
      FoundIs(third, sorted, Last().total, snap, cur, found);
      keys := found + (snap.Keys - cur.Keys);
      StillToGo(items, snap, found, news, cur);
      StartsGoing(items, news, cur, found, snap.Keys - cur.Keys);
    }

    ghost function Now(): Moment
      reads `checkpoints, `numDeltas, `snapshot, `lastTs, `total, `pool, sketch, c2Heap, c2Heap.heap
    {
      Moment(MinSorted(), checkpoints, numDeltas, snapshot, sketch.State().Effective(), lastTs, total)
    }

    /** The log is what a change of timestamp makes of that of the moment before. */
    ghost predicate Logs(m: Moment)
      reads `checkpoints, `numDeltas
    {
      HeapStep(third, Capacity(third, m.total), m.sorted, m.checkpoints, m.numDeltas, m.snapshot, m.counts, m.ts,
        m.total, checkpoints, numDeltas)
    }

    lemma LogsIs(m: Moment, base: nat, keys: set<Key>)
      requires base == BaseTotal(m.checkpoints) && Found(third, m.sorted, base, m.snapshot, m.counts, keys)
      requires LogsKeys(Capacity(third, m.total), keys, m.checkpoints, m.numDeltas, m.counts, m.ts, m.total,
                 checkpoints, numDeltas)
      ensures Logs(m)
    {
      hide HeapStep, Found, LogsKeys, Capacity, BaseTotal;
      HeapStepIs(third, Capacity(third, m.total), m.sorted, m.checkpoints, m.numDeltas, m.snapshot, m.counts, m.ts,
        m.total, checkpoints, numDeltas, base, keys);
    }

    lemma NowIs()
      ensures Now() == Moment(MinSorted(), checkpoints, numDeltas, snapshot, sketch.State().Effective(), lastTs, total)
    {
      hide MinSorted, Summary.Effective;
    }

    /** Log what has changed, or start afresh when that takes too many deltas. */
    method LogChanges() returns (renewed: bool)
      requires Kept() && checkpoints != [] && keyTo != map[] && lastTs > 0 && LoggedBefore(lastTs)
      modifies sketch, `checkpoints, `numDeltas, `snapshot, `sub, `pool, `free, `deleted
      modifies c1Heap, c1Heap.heap, c1Heap.place, c2Heap, c2Heap.heap, c2Heap.place
      ensures Kept() && Current() && SameBefore(third, old(checkpoints), checkpoints, lastTs)
      ensures old(MinSorted()) ==> MinSorted() && NotBelow()
      ensures !renewed ==> NoneRisen(keyTo.Values)
      ensures Logs(old(Now()))
    {
      hide *;
      ghost var m, items, cps, n, cur := Now(), keyTo.Values, checkpoints, numDeltas, sketch.State().Effective();
      NowIs();
      KeptParts();
      EarlierIs();
      StartsWorking();
      SomeLive();
      FitsParts();
      var capacity := Capacity(third, total);
      var news, full;
      ghost var keys;
      news, full, keys := FindChanges(capacity, items);
      ghost var base := Last().total;
      BaseIs();
      if full {
        MakeCheckpoint(items);
        LogsNew(capacity, keys, cps, n, cur, lastTs, total, checkpoints, numDeltas);
      } else {
        LastGrows(news);
        AppendDeltas(news, items);
        LogsMore(capacity, keys, cps, n, cur, lastTs, total, checkpoints, numDeltas, news);
      }
      IsKept(items);
      LogsIs(m, base, keys);
      renewed := full;
    }

    lemma ListsNothing()
      requires checkpoints != []
      ensures Lists(snapshot, {}, [])
    {
      hide *;
      ListedNone(third, snapshot, Last().total, sketch.State().Effective(), lastTs, total);
      ListsIs(snapshot, Last().total, sketch.State().Effective(), {}, []);
    }

    /** The counters kept for dropped keys are those of the recorded keys that are no longer counted. */
    lemma StillToGo(items: set<nat>, snap: map<Key, SnapshotCounter>, found: set<Key>, news: seq<Delta>, cur: Table)
      requires SketchValid() && Working(items, news) && Lists(snap, found, news) && cur == sketch.State().Effective()
      ensures deleted.Keys == snap.Keys - cur.Keys && found <= cur.Keys && NewsOf(found, news, cur, lastTs, total)
    {
      hide *;
      ListsParts(snap, found, news);
      ListedParts(third, snap, Last().total, cur, lastTs, total, found, news, snapshot);
      RedoneKeys(snap, found, cur, total, snapshot);
      KeptForGone(items, news, cur);
    }

    lemma KeptForGone(items: set<nat>, news: seq<Delta>, cur: Table)
      requires SketchValid() && Working(items, news) && cur == sketch.State().Effective()
      ensures deleted.Keys == snapshot.Keys - cur.Keys
    {
      hide *;
      WorkingParts(items, news);
      TuneParts(sketch.cnt, sub);
      ServesDeleted();
      SummaryIs();
      EffectiveKeys(sketch.State());
      LinkedKeys(checkpoints, snapshot, pool, keyTo, deleted);
    }

    lemma ServesDeleted()
      requires Staffed(k, pool, free, keyTo, deleted)
      ensures Serves(pool, deleted) && keyTo.Keys !! deleted.Keys
    {
      hide Serves, Idle, AllInLast;
    }

    lemma OverflowsIs(capacity: nat, snap: map<Key, SnapshotCounter>, sorted: bool) returns (keys: set<Key>)
      requires Overflows(capacity, snap)
      ensures checkpoints != [] && numDeltas + |keys| > capacity
      ensures Found(third, sorted, Last().total, snap, sketch.State().Effective(), keys)
    {
      hide Due, Drifters, Found;
      keys := Due(third, snap, Last().total, sketch.State().Effective());
      DriftersAreDue(third, snap, Last().total, sketch.State().Effective());
      DueIsFound(third, sorted, Last().total, snap, sketch.State().Effective());
    }

    lemma SomeLive()
      requires keyTo != map[]
      ensures keyTo.Values != {}
    {
      var x :| x in keyTo;
      assert keyTo[x] in keyTo.Values;
    }

    lemma FitsParts()
      requires LastFits([])
      ensures checkpoints != [] && |Last().deltas| == numDeltas <= Capacity(third, total) && Last().total <= total
    {
    }

    lemma LastGrows(news: seq<Delta>)
      requires checkpoints != [] && |Last().deltas| == numDeltas && Last().total <= total
          && numDeltas + |news| <= Capacity(third, total)
      ensures LastFits(news)
    {
    }

    /** What a change of timestamp does before the new occurrence is counted. */
    method Boundary() returns (renewed: bool)
      requires Kept() && lastTs > 0 && LoggedBefore(lastTs) && (checkpoints != [] ==> keyTo != map[])
      modifies sketch, `checkpoints, `numDeltas, `snapshot, `sub, `pool, `free, `deleted
      modifies c1Heap, c1Heap.heap, c1Heap.place, c2Heap, c2Heap.heap, c2Heap.place
      ensures Kept() && Current() && SameBefore(third, old(checkpoints), checkpoints, lastTs)
      ensures old(MinSorted()) ==> MinSorted() && NotBelow()
      ensures !renewed ==> NoneRisen(keyTo.Values)
      ensures Logs(old(Now()))
    {
      hide *;
      if checkpoints == [] {
        KeptParts();
        EarlierIs();
        NowIs();
        ghost var m, items, snap, cps, n := Now(), keyTo.Values, snapshot, checkpoints, numDeltas;
        ghost var base, cur, sorted := BaseTotal(checkpoints), sketch.State().Effective(), MinSorted();
        MakeCheckpoint(items);
        IsKept(items);
        ghost var keys := Due(third, snap, base, cur);
        DueIsFound(third, sorted, base, snap, cur);
        LogsNew(Capacity(third, total), keys, cps, n, cur, lastTs, total, checkpoints, numDeltas);
        LogsIs(m, base, keys);
        renewed := true;
      } else {
        renewed := LogChanges();
      }
    }

    /** From the end of a timestamp until the next one the log answers within the tolerance. */
    lemma CurrentIsGood(t: nat)
      requires SketchValid() && LogValid() && Current() && lastTs <= t
      ensures Within(third, EstimateAt(third, checkpoints, t), Seen(events, t))
    {
      hide Credit, Matches, TotalsUpTo, NoneAbove, ChainLog.Full, NoOvercount, Within, EstimateAt, Seen, Keys,
          RecordedUpTo, DatedUpTo, Capacity, Summary.Valid, Summary.Effective;
      SeenAll(events, t);
      DatedLater(t);
      FullFromLast(third, checkpoints, t);
      NotAboveIsWithin(third, k, ChainLog.Full(third, checkpoints), checkpoints, snapshot, sketch.State().Effective(),
        Keys(events));
    }

    lemma DatedLater(t: nat)
      requires EndsAt(events, lastTs) && lastTs <= t
      ensures EndsAt(events, t) && (DatedUpTo(checkpoints, lastTs) ==> DatedUpTo(checkpoints, t))
    {
    }

    lemma SameIsGood(cps: seq<Checkpoint>, ts: nat)
      requires SketchValid() && LogValid() && Current()
      requires SameBefore(third, cps, checkpoints, lastTs)
      requires forall t: nat | t < lastTs && Started(events, t) ::
                 Within(third, EstimateAt(third, cps, t), Seen(events, t))
      ensures GoodBefore(ts)
    {
      hide SketchValid, LogValid, Current, Within, Started;
      forall t: nat | t < ts && Started(events, t)
        ensures Within(third, EstimateAt(third, checkpoints, t), Seen(events, t))
      {
        if t < lastTs {
          assert EstimateAt(third, cps, t) == EstimateAt(third, checkpoints, t);
        } else {
          CurrentIsGood(t);
        }
      }
    }

    // ----- one occurrence

    /** Hand the occurrence to the sketch, which tells the keys it dropped. */
    method Feed(key: Key) returns (dropped: seq<Key>)
      requires SketchValid()
      modifies sketch
      ensures sketch.State() == Step(old(sketch.State()), key, 1, false) && sketch.State().Valid()
      ensures Credit(k, sketch.State().Effective(), Occurs(Keys(events), key, 1))
      ensures NoOvercount(sketch.cnt, Occurs(Keys(events), key, 1))
      ensures (forall x :: x in dropped <==> x in old(sketch.cnt) && x !in sketch.cnt)
      ensures forall i, j :: 0 <= i < j < |dropped| ==> dropped[i] != dropped[j]
    {
      hide Step, Credit, Occurs, NoOvercount;
      ghost var s := sketch.State();
      StepNeverOvercounts(s, key, 1, Keys(events));
      StepIsValid(s, key, 1);
      StepKeepsCredit(s, key, 1, Keys(events));
      UnitStepIsGuarded(s, key);
      dropped := sketch.UpdateImpl(key, 1);
    }

    method LeaveHeaps(i: nat, ghost items: set<nat>)
      requires Heaps(items) && i in items && c1Heap.Sorted(MaxKey(pool))
      modifies c1Heap, c1Heap.heap, c1Heap.place, c2Heap, c2Heap.heap, c2Heap.place
      ensures Heaps(items - {i}) && c1Heap.Sorted(MaxKey(pool)) && (old(MinSorted()) ==> MinSorted())
    {
      hide *;
      HeapParts(items);
      if MinSorted() { MinSortedIs(); }
      c1Heap.Remove(i, MaxKey(pool));
      c2Heap.Remove(i, MinKey(pool));
      HeapsAre(items - {i});
      if c2Heap.Sorted(MinKey(pool)) { IsMinSorted(); }
    }

    method JoinHeaps(i: nat, ghost was: Pool, ghost items: set<nat>)
      requires Heaps(items) && i !in items && i < |was| == |pool| == 2 * (k - 1) && pool == was[i := pool[i]]
          && |items| < k - 1
      requires c1Heap.Sorted(MaxKey(was))
      modifies c1Heap, c1Heap.heap, c1Heap.place, c2Heap, c2Heap.heap, c2Heap.place
      ensures Heaps(items + {i}) && c1Heap.Sorted(MaxKey(pool))
      ensures old(c2Heap.Sorted(MinKey(was))) ==> c2Heap.Sorted(MinKey(pool))
    {
      hide *;
      HeapParts(items);
      PoolKeys(was, i, pool[i], items);
      c1Heap.Members();
      c1Heap.Push(i, MaxKey(pool), MaxKey(was));
      c2Heap.Members();
      c2Heap.Push(i, MinKey(pool), MinKey(was));
      HeapsAre(items + {i});
    }

    /** c1 and c2 of a counter have gone up by one; both heaps push it up, though in the second it should sink. */
    method RiseInHeaps(i: nat, ghost was: Pool, ghost items: set<nat>)
      requires Heaps(items) && i in items && i < |was| == |pool| && pool == was[i := pool[i]]
      requires pool[i].c1 == was[i].c1 + 1 && pool[i].c2 == was[i].c2 + 1 && c1Heap.Sorted(MaxKey(was))
      modifies c1Heap, c1Heap.heap, c1Heap.place, c2Heap, c2Heap.heap, c2Heap.place
      ensures Heaps(items) && c1Heap.Sorted(MaxKey(pool))
      ensures old(c2Heap.Sorted(MinKey(was))) ==> c2Heap.heap[..] == old(c2Heap.heap[..])
      ensures old(c2Heap.Sorted(MinKey(was))) ==> (MinSorted() <==> c2Heap.FitsChildren(MinKey(pool), i))
      ensures old(c2Heap.Sorted(MinKey(was))) ==> (MinSorted() <==> old(c2Heap.FitsChildren(MinKey(pool), i)))
    {
      hide *;
      HeapParts(items);
      PoolKeys(was, i, pool[i], items);
      assert MaxKey(pool)(i) <= MaxKey(was)(i) && MinKey(was)(i) <= MinKey(pool)(i);
      c1Heap.PushedUp(i, MaxKey(pool), MaxKey(was));
      c2Heap.PushedUp(i, MinKey(pool), MinKey(was));
      HeapsAre(items);
      if MinSorted() { MinSortedIs(); }
      if c2Heap.Sorted(MinKey(pool)) { IsMinSorted(); }
    }

    /** The counter of a dropped key leaves the heaps. */
    method DropCounter(x: Key, ghost cnt: Table, ghost s: nat)
      requires Staffed(k, pool, free, keyTo, deleted) && Heaps(keyTo.Values) && InTune(cnt, s)
          && c1Heap.Sorted(MaxKey(pool)) && x in keyTo
      modifies `free, `keyTo, `deleted, c1Heap, c1Heap.heap, c1Heap.place, c2Heap, c2Heap.heap, c2Heap.place
      ensures Staffed(k, pool, free, keyTo, deleted) && Heaps(keyTo.Values) && InTune(cnt, s)
          && c1Heap.Sorted(MaxKey(pool))
      ensures keyTo == Without(old(keyTo), x) && (old(MinSorted()) ==> MinSorted())
    {
      hide *;
      var i := keyTo[x];
      TuneParts(cnt, s);
      DropStaffed(k, pool, free, keyTo, deleted, x, i);
      DropTunes(third, checkpoints, snapshot, pool, keyTo, cnt, s, x);
      DropLinks(checkpoints, snapshot, pool, keyTo, deleted, x, i);
      LeaveHeaps(i, keyTo.Values);
      keyTo := Without(keyTo, x);
      if pool[i].inLast {
        deleted := deleted[x := i];
      } else {
        free := [i] + free;
      }
      TuneIs(cnt, s);
    }

    /** Counters are again in step with the sketch. */
    method DropCounters(dropped: seq<Key>, ghost cnt: Table, ghost s: nat)
      requires Staffed(k, pool, free, keyTo, deleted) && Heaps(keyTo.Values) && InTune(cnt, s)
          && c1Heap.Sorted(MaxKey(pool))
      requires (forall x <- dropped :: x in keyTo) && forall i, j :: 0 <= i < j < |dropped| ==> dropped[i] != dropped[j]
      modifies `free, `keyTo, `deleted, c1Heap, c1Heap.heap, c1Heap.place, c2Heap, c2Heap.heap, c2Heap.place
      ensures Staffed(k, pool, free, keyTo, deleted) && Heaps(keyTo.Values) && InTune(cnt, s)
          && c1Heap.Sorted(MaxKey(pool))
      ensures (forall x :: x in keyTo <==> x in old(keyTo) && x !in dropped) && (old(MinSorted()) ==> MinSorted())
      ensures dropped == [] ==>
          c2Heap.heap[..] == old(c2Heap.heap[..]) && c2Heap.n == old(c2Heap.n) && keyTo == old(keyTo)
    {
      hide *;
      var n := 0;
      while n < |dropped|
        invariant 0 <= n <= |dropped|
        invariant Staffed(k, pool, free, keyTo, deleted) && Heaps(keyTo.Values) && InTune(cnt, s)
            && c1Heap.Sorted(MaxKey(pool))
        invariant forall x :: x in keyTo <==> x in old(keyTo) && x !in dropped[..n]
        invariant old(MinSorted()) ==> MinSorted()
        invariant n == 0 ==> c2Heap.heap[..] == old(c2Heap.heap[..]) && c2Heap.n == old(c2Heap.n) && keyTo == old(keyTo)
      {
        assert dropped[n] in dropped && dropped[n] !in dropped[..n];
        WithoutIs(keyTo, dropped[n]);
        DropCounter(dropped[n], cnt, s);
        assert dropped[..n + 1] == dropped[..n] + [dropped[n]];
        n := n + 1;
      }
      assert dropped[..n] == dropped;
    }

    method Raise(x: Key, ghost cnt: Table, ghost cnt': Table, ghost s: nat)
      requires Staffed(k, pool, free, keyTo, deleted) && InTune(cnt, s) && x in keyTo && x in cnt
          && cnt' == cnt[x := cnt[x] + 1]
      modifies `pool
      ensures Staffed(k, pool, free, keyTo, deleted) && InTune(cnt', s)
      ensures var i := keyTo[x];
              && i in keyTo.Values && i < |old(pool)| == |pool| && pool == old(pool)[i := pool[i]]
              && pool[i].c1 == old(pool)[i].c1 + 1 && pool[i].c2 == old(pool)[i].c2 + 1
    {
      hide *;
      RaiseFinds(x);
      var i := keyTo[x];
      var c := pool[i].(c1 := pool[i].c1 + 1, c2 := pool[i].c2 + 1);
      RaiseReady(x, i, c, cnt, cnt', s);
      pool := pool[i := c];
      TuneIs(cnt', s);
    }

    lemma RaiseFinds(x: Key)
      requires Staffed(k, pool, free, keyTo, deleted) && x in keyTo
      ensures keyTo[x] < |pool| && pool[keyTo[x]].key == x && keyTo[x] in keyTo.Values && Serves(pool, keyTo)
    {
      hide *;
      StaffedParts(k, pool, free, keyTo, deleted);
      ServedKey(pool, keyTo, x);
    }

    lemma RaiseReady(x: Key, i: nat, c: Counter, cnt: Table, cnt': Table, s: nat)
      requires Staffed(k, pool, free, keyTo, deleted) && InTune(cnt, s) && x in keyTo && x in cnt
          && cnt' == cnt[x := cnt[x] + 1]
      requires i == keyTo[x] && i < |pool| && c == pool[i].(c1 := pool[i].c1 + 1, c2 := pool[i].c2 + 1)
      ensures Staffed(k, pool[i := c], free, keyTo, deleted)
      ensures Tuned(third, checkpoints, snapshot, pool[i := c], keyTo, cnt', s)
          && Linked(checkpoints, snapshot, pool[i := c], keyTo, deleted)
    {
      hide *;
      RaiseFinds(x);
      TuneParts(cnt, s);
      Retuned(k, pool, free, keyTo, deleted, i, c);
      BumpTunes(third, checkpoints, snapshot, pool, keyTo, cnt, s, x, i, c, cnt');
      BumpLinks(checkpoints, snapshot, pool, keyTo, deleted, i, c);
    }

    /** A stored key counts one more. */
    method Bump(x: Key, ghost cnt: Table, ghost cnt': Table, ghost s: nat)
      requires Staffed(k, pool, free, keyTo, deleted) && Heaps(keyTo.Values) && c1Heap.Sorted(MaxKey(pool))
      requires InTune(cnt, s) && x in keyTo && x in cnt && cnt' == cnt[x := cnt[x] + 1]
      modifies `pool, c1Heap, c1Heap.heap, c1Heap.place, c2Heap, c2Heap.heap, c2Heap.place
      ensures Staffed(k, pool, free, keyTo, deleted) && Heaps(keyTo.Values) && InTune(cnt', s)
          && c1Heap.Sorted(MaxKey(pool))
      ensures old(MinSorted()) ==> c2Heap.heap[..] == old(c2Heap.heap[..]) && (MinSorted() <==> FitsBelow(x))
      ensures old(MinSorted()) ==> (MinSorted() <==> old(FitsRaised(x)))
    {
      hide *;
      ghost var was, items := pool, keyTo.Values;
      RaisedIs(x);
      if MinSorted() { MinSortedIs(); }
      Raise(x, cnt, cnt', s);
      FitsRaisedIs(x, was);
      RiseInHeaps(keyTo[x], was, items);
      FitsBelowIs(x);
    }

    /** The c2 of the key's counter, raised by one, is not above those of its children in the second heap. */
    ghost predicate FitsRaised(x: Key)
      reads `pool, `keyTo, c2Heap, c2Heap.heap
    {
      x in keyTo && RaisedFits(pool, c2Heap.heap[..], c2Heap.n, keyTo[x])
    }

    lemma RaisedIs(x: Key)
      requires x in keyTo
      ensures FitsRaised(x) <==> RaisedFits(pool, c2Heap.heap[..], c2Heap.n, keyTo[x])
    {
    }

    lemma FitsRaisedIs(x: Key, was: Pool)
      requires Staffed(k, pool, free, keyTo, deleted) && Heaps(keyTo.Values) && x in keyTo
      requires keyTo[x] < |was| == |pool| && pool == was[keyTo[x] := pool[keyTo[x]]]
          && pool[keyTo[x]].c2 == was[keyTo[x]].c2 + 1
      ensures keyTo[x] in keyTo.Values && c2Heap.Valid() && keyTo[x] in c2Heap.items
      ensures c2Heap.FitsChildren(MinKey(pool), keyTo[x]) <==> RaisedFits(was, c2Heap.heap[..], c2Heap.n, keyTo[x])
    {
      hide *;
      HeapParts(keyTo.Values);
      c2Heap.Parts();
      c2Heap.Members();
      RaiseFinds(x);
      var i := keyTo[x];
      forall j | 0 <= j < c2Heap.n ensures c2Heap.heap[..][j] < |pool| {
        LiveIs(k, pool, free, keyTo, deleted, c2Heap.heap[j]);
      }
      c2Heap.FitsIs(MinKey(pool), i, c2Heap.place[i]);
      RaisedHere(was, pool, c2Heap.heap[..], c2Heap.n, i, c2Heap.place[i]);
    }

    /** The c2 of the key's counter is not above those of its children in the second heap. */
    ghost predicate FitsBelow(x: Key)
      reads `pool, `keyTo, c2Heap, c2Heap.heap, c2Heap.place
    {
      x in keyTo && keyTo[x] < |pool| && keyTo[x] < c2Heap.place.Length && c2Heap.n <= c2Heap.heap.Length
      && forall j :: 0 < j < c2Heap.n && MinHeap.Up(j) == c2Heap.place[keyTo[x]] ==>
           c2Heap.heap[j] < |pool| && pool[keyTo[x]].c2 <= pool[c2Heap.heap[j]].c2
    }

    lemma FitsBelowIs(x: Key)
      requires Staffed(k, pool, free, keyTo, deleted) && Heaps(keyTo.Values) && x in keyTo
      ensures keyTo[x] in keyTo.Values && c2Heap.Valid() && keyTo[x] in c2Heap.items
      ensures FitsBelow(x) <==> c2Heap.FitsChildren(MinKey(pool), keyTo[x])
    {
      hide *;
      HeapParts(keyTo.Values);
      c2Heap.Parts();
      c2Heap.Members();
      RaiseFinds(x);
      forall j | 0 < j < c2Heap.n ensures c2Heap.heap[j] < |pool| {
        LiveIs(k, pool, free, keyTo, deleted, c2Heap.heap[j]);
      }
      BelowIs(x);
    }

    lemma BelowIs(x: Key)
      requires x in keyTo && keyTo[x] < |pool| && keyTo[x] < c2Heap.place.Length && c2Heap.n <= c2Heap.heap.Length
      requires c2Heap.Valid() && keyTo[x] in c2Heap.items
      requires forall j | 0 < j < c2Heap.n :: c2Heap.heap[j] < |pool|
      ensures FitsBelow(x) <==> c2Heap.FitsChildren(MinKey(pool), keyTo[x])
    {
      hide CounterHeap.Valid, MinHeap.Up;
    }

    /** The record the counter of a dropped key still points to. */
    method Recalled(x: Key) returns (c: nat, total: nat)
      requires Staffed(k, pool, free, keyTo, deleted) && Linked(checkpoints, snapshot, pool, keyTo, deleted)
          && x in deleted
      ensures x in snapshot && snapshot[x] == SnapshotCounter(c, total)
    {
      hide Staffed, Linked;
      DeletedIs(x);
      DeletedResolves(x);
      var p := pool[deleted[x]];
      match p.prev {
        case FromCheckpoint =>
          c, total := checkpoints[|checkpoints| - 1].counts[x], checkpoints[|checkpoints| - 1].total;
        case FromDelta(cnt, n) =>
          c, total := cnt, n;
      }
    }

    lemma DeletedResolves(x: Key)
      requires Linked(checkpoints, snapshot, pool, keyTo, deleted) && x in deleted
      ensures deleted[x] < |pool| && Resolves(checkpoints, snapshot, pool[deleted[x]])
    {
      hide Resolves;
    }

    lemma TunedToRecord(x: Key, c: Counter, b: nat, n: nat)
      requires c.key == x && (if x in snapshot then snapshot[x] == SnapshotCounter(b, n)
          else b == 0 && n == BaseTotal(checkpoints))
      requires c.c1 == 1 + sub - b - Allow(third, n) && c.c2 == 1 + sub - b + Allow(third, n)
      ensures TunedAt(third, checkpoints, snapshot, c, 1, sub)
    {
      hide Allow;
    }

    lemma KeysAdded(m: map<Key, nat>, x: Key, i: nat)
      ensures x in m[x := i] && m[x := i][x] == i && m[x := i].Keys == m.Keys + {x}
    {
    }

    /** A dropped key whose count is on record gets its counter back. */
    method Restore(x: Key, ghost cnt: Table, ghost cnt': Table) returns (i: nat)
      requires Staffed(k, pool, free, keyTo, deleted) && InTune(cnt, sub) && x in deleted && cnt' == cnt[x := 1]
      modifies `pool, `keyTo, `deleted
      ensures Staffed(k, pool, free, keyTo, deleted) && InTune(cnt', sub)
      ensures i !in old(keyTo).Values && keyTo == old(keyTo)[x := i] && keyTo.Values == old(keyTo).Values + {i}
      ensures i < |old(pool)| == |pool| && pool == old(pool)[i := pool[i]]
    {
      hide *;
      DeletedIs(x);
      TuneParts(cnt, sub);
      i := deleted[x];
      var b, n := Recalled(x);
      var c := pool[i].(c1 := 1 + sub - b - Allow(third, n), c2 := 1 + sub - b + Allow(third, n));
      TunedToRecord(x, c, b, n);
      RestoreReady(x, i, c, cnt, cnt');
      pool := pool[i := c];
      deleted := Without(deleted, x);
      keyTo := keyTo[x := i];
      TuneIs(cnt', sub);
    }

    lemma RestoreReady(x: Key, i: nat, c: Counter, cnt: Table, cnt': Table)
      requires Staffed(k, pool, free, keyTo, deleted) && InTune(cnt, sub) && x in deleted && cnt' == cnt[x := 1]
      requires i == deleted[x] && i < |pool| && c.key == x && c == pool[i].(c1 := c.c1, c2 := c.c2)
          && TunedAt(third, checkpoints, snapshot, c, 1, sub)
      ensures i !in keyTo.Values && keyTo[x := i].Values == keyTo.Values + {i}
      ensures Staffed(k, pool[i := c], free, keyTo[x := i], Without(deleted, x))
      ensures Tuned(third, checkpoints, snapshot, pool[i := c], keyTo[x := i], cnt', sub)
      ensures Linked(checkpoints, snapshot, pool[i := c], keyTo[x := i], Without(deleted, x))
    {
      hide *;
      StaffedParts(k, pool, free, keyTo, deleted);
      TuneParts(cnt, sub);
      RestoreStaffed(k, pool, free, keyTo, deleted, x, i, c);
      RestoreLinks(checkpoints, snapshot, pool, keyTo, deleted, x, i, c);
      AddTunes(third, checkpoints, snapshot, pool, keyTo, cnt, sub, x, i, c);
    }

    /** A new key takes a free counter; there always is one. */
    method Hire(x: Key, ghost cnt: Table, ghost cnt': Table) returns (i: nat)
      requires Staffed(k, pool, free, keyTo, deleted) && InTune(cnt, sub) && x !in keyTo && x !in deleted
          && cnt' == cnt[x := 1]
      requires |keyTo| < k - 1 && |snapshot| <= k - 1
      modifies `pool, `keyTo, `free
      ensures old(free) != [] && Staffed(k, pool, free, keyTo, deleted) && InTune(cnt', sub)
      ensures i !in old(keyTo).Values && keyTo == old(keyTo)[x := i] && keyTo.Values == old(keyTo).Values + {i}
      ensures i < |old(pool)| == |pool| && pool == old(pool)[i := pool[i]]
    {
      hide *;
      TuneParts(cnt, sub);
      FreeIs();
      i := free[0];
      FreeCounter(i);
      var d := Allow(third, BaseTotal(checkpoints));
      var c := pool[i].(key := x, c1 := 1 + sub - d, c2 := 1 + sub + d);
      HireReady(x, i, c, cnt, cnt');
      pool := pool[i := c];
      free := free[1..];
      keyTo := keyTo[x := i];
      TuneIs(cnt', sub);
    }

    lemma FreeIs()
      requires Staffed(k, pool, free, keyTo, deleted) && Linked(checkpoints, snapshot, pool, keyTo, deleted)
      requires |keyTo| < k - 1 && |snapshot| <= k - 1
      ensures free != []
    {
      hide Staffed, Resolves;
      StaffedParts(k, pool, free, keyTo, deleted);
      forall x <- deleted ensures x in snapshot { DeletedKey(x); }
      SomeoneFree(k, pool, free, keyTo, deleted, snapshot);
    }

    lemma DeletedKey(x: Key)
      requires Staffed(k, pool, free, keyTo, deleted) && Linked(checkpoints, snapshot, pool, keyTo, deleted)
          && x in deleted
      ensures x in snapshot
    {
      StaffedParts(k, pool, free, keyTo, deleted);
      ServedKey(pool, deleted, x);
    }

    lemma FreeCounter(i: nat)
      requires Staffed(k, pool, free, keyTo, deleted) && free != [] && i == free[0]
      ensures i < |pool| && !pool[i].inLast
    {
      hide *;
      StaffedParts(k, pool, free, keyTo, deleted);
      IdleLess(pool, free, keyTo.Values + deleted.Values);
    }

    lemma HireReady(x: Key, i: nat, c: Counter, cnt: Table, cnt': Table)
      requires Staffed(k, pool, free, keyTo, deleted) && InTune(cnt, sub) && x !in keyTo && x !in deleted
          && cnt' == cnt[x := 1]
      requires free != [] && i == free[0] && c.key == x && !c.inLast
      requires c.c1 == 1 + sub - Allow(third, BaseTotal(checkpoints))
          && c.c2 == 1 + sub + Allow(third, BaseTotal(checkpoints))
      ensures i < |pool| && i !in keyTo.Values && keyTo[x := i].Values == keyTo.Values + {i}
      ensures Staffed(k, pool[i := c], free[1..], keyTo[x := i], deleted)
      ensures Tuned(third, checkpoints, snapshot, pool[i := c], keyTo[x := i], cnt', sub)
      ensures Linked(checkpoints, snapshot, pool[i := c], keyTo[x := i], deleted)
    {
      hide *;
      TuneParts(cnt, sub);
      HireStaffed(k, pool, free, keyTo, deleted, x, i, c);
      HireLinks(checkpoints, snapshot, pool, keyTo, deleted, x, i, c);
      TunedToRecord(x, c, 0, BaseTotal(checkpoints));
      AddTunes(third, checkpoints, snapshot, pool, keyTo, cnt, sub, x, i, c);
    }

    /** The counter for a key that was not stored: its old one if it is still on record, otherwise a free one. */
    method Employ(x: Key, ghost cnt: Table, ghost cnt': Table) returns (i: nat)
      requires Staffed(k, pool, free, keyTo, deleted) && InTune(cnt, sub) && x !in keyTo && cnt' == cnt[x := 1]
      requires |keyTo| < k - 1 && |snapshot| <= k - 1
      modifies `pool, `free, `keyTo, `deleted
      ensures Staffed(k, pool, free, keyTo, deleted) && InTune(cnt', sub)
      ensures i !in old(keyTo).Values && keyTo.Values == old(keyTo).Values + {i}
      ensures keyTo.Keys == old(keyTo).Keys + {x}
      ensures i < |old(pool)| == |pool| && pool == old(pool)[i := pool[i]]
    {
      hide *;
      if x in deleted {
        i := Restore(x, cnt, cnt');
      } else {
        i := Hire(x, cnt, cnt');
      }
      KeysAdded(old(keyTo), x, i);
    }

    /** A key that was not stored counts one. */
    method AddCounter(x: Key, ghost cnt: Table, ghost cnt': Table)
      requires Staffed(k, pool, free, keyTo, deleted) && Heaps(keyTo.Values) && c1Heap.Sorted(MaxKey(pool))
      requires InTune(cnt, sub) && x !in keyTo && cnt' == cnt[x := 1] && |keyTo| < k - 1 && |snapshot| <= k - 1
      modifies `pool, `free, `keyTo, `deleted, c1Heap, c1Heap.heap, c1Heap.place, c2Heap, c2Heap.heap, c2Heap.place
      ensures Staffed(k, pool, free, keyTo, deleted) && InTune(cnt', sub)
      ensures Heaps(keyTo.Values) && c1Heap.Sorted(MaxKey(pool))
      ensures keyTo.Keys == old(keyTo.Keys) + {x}
      ensures old(MinSorted()) ==> MinSorted()
    {
      hide *;
      RoomInHeaps();
      ghost var was, items := pool, keyTo.Values;
      ghost var sorted := MinSorted();
      if sorted { MinSortedIs(); }
      var i := Employ(x, cnt, cnt');
      assert sorted ==> c2Heap.Sorted(MinKey(was));
      JoinHeaps(i, was, items);
      if sorted { IsMinSorted(); }
    }

    lemma RoomInHeaps()
      requires Staffed(k, pool, free, keyTo, deleted) && |keyTo| < k - 1
      ensures |pool| == 2 * (k - 1) && |keyTo.Values| < k - 1
    {
      hide *;
      LiveCount();
      PoolSize();
    }

    lemma PoolSize()
      requires Staffed(k, pool, free, keyTo, deleted)
      ensures |pool| == 2 * (k - 1)
    {
    }

    lemma LiveCount()
      requires Staffed(k, pool, free, keyTo, deleted)
      ensures |keyTo.Values| == |keyTo|
    {
      hide *;
      StaffedParts(k, pool, free, keyTo, deleted);
      ValuesCount(pool, keyTo);
    }

    /** The four things that may have happened to the sketch. */
    lemma FedCases(s: Summary, key: Key)
      requires s.Valid() && s.k == k && sketch.State() == Step(s, key, 1, false)
      ensures if key in s.cnt then sketch.cnt == s.cnt[key := s.cnt[key] + 1] && sketch.delta == s.delta
              else if |s.cnt| < k - 1 then sketch.cnt == s.cnt[key := 1] && sketch.delta == s.delta
              else
                || (sketch.cnt == s.cnt && sketch.delta == s.delta + 1)
                || (sketch.cnt == Subtract(s.cnt, s.delta + 1) && sketch.delta == 0)
    {
      hide Step, Subtract;
      UnitStep(s, key);
    }

    /** How much the counters run ahead is known from the counts before and after. */
    lemma SubIs(s: Summary, key: Key, sub0: nat)
      requires s.Valid() && s.k == k && 2 <= k && sketch.State() == Step(s, key, 1, false)
      ensures var now := sub0 + Get(s.cnt, key) + 1 - Get(sketch.cnt, key) + s.delta - sketch.delta;
              && sub0 <= now
              && (key in s.cnt || |s.cnt| < k - 1 || sketch.cnt == s.cnt ==> now == sub0)
              && (key !in s.cnt && |s.cnt| == k - 1 && sketch.cnt != s.cnt ==>
                sketch.cnt == Subtract(s.cnt, s.delta + 1) && now == sub0 + s.delta + 1)
    {
      hide Step, Subtract;
      FedCases(s, key);
      if key !in s.cnt && |s.cnt| == k - 1 { SubtractChanges(s.cnt, s.delta + 1); }
    }

    lemma SubtractChanges(t: Table, d: nat)
      requires 0 < |t| && 0 < d
      ensures Subtract(t, d) != t && Subtract(t, d).Keys <= t.Keys
    {
      var x :| x in t;
      assert Get(Subtract(t, d), x) != Get(t, x) || t[x] == 0;
      assert t[x] == 0 ==> x !in Subtract(t, d);
    }

    lemma SubtractInTune(cnt: Table, s: nat, m: nat)
      requires InTune(cnt, s) && keyTo.Keys == Subtract(cnt, m).Keys
      ensures InTune(Subtract(cnt, m), s + m)
    {
      hide *;
      TuneParts(cnt, s);
      SubtractTuned(third, checkpoints, snapshot, pool, keyTo, cnt, s, m);
      TuneIs(Subtract(cnt, m), s + m);
    }

    lemma KeysLeft(s: Summary, key: Key, dropped: seq<Key>)
      requires s.Valid() && s.k == k && sketch.State() == Step(s, key, 1, false)
      requires forall x :: x in dropped <==> x in s.cnt && x !in sketch.cnt
      requires forall x :: x in keyTo <==> x in s.cnt && x !in dropped
      ensures keyTo.Keys == if key !in s.cnt && |s.cnt| < k - 1 then s.cnt.Keys else sketch.cnt.Keys
      ensures key in s.cnt ==> key in keyTo && key in sketch.cnt
      ensures key !in s.cnt && |s.cnt| < k - 1 ==>
          key !in keyTo && |keyTo| == |s.cnt| && sketch.cnt.Keys == s.cnt.Keys + {key}
      ensures Get(sketch.cnt, key) > 0 <==> key in s.cnt || |s.cnt| < k - 1
    {
      hide Step;
      FedCases(s, key);
      if key !in s.cnt && |s.cnt| < k - 1 {
        assert keyTo.Keys == s.cnt.Keys;
        assert |keyTo| == |keyTo.Keys| && |s.cnt| == |s.cnt.Keys|;
      }
    }

    /** Which case it was shows in the count of the key. */
    lemma Cases(s: Summary, key: Key, dropped: seq<Key>, sub0: nat)
      requires s.Valid() && s.k == k && 2 <= k && sketch.State() == Step(s, key, 1, false)
      requires forall x :: x in dropped <==> x in s.cnt && x !in sketch.cnt
      requires forall x :: x in keyTo <==> x in s.cnt && x !in dropped
      requires sub == sub0 + Get(s.cnt, key) + 1 - Get(sketch.cnt, key) + s.delta - sketch.delta
      ensures Get(sketch.cnt, key) > 0 && key in keyTo ==>
                key in s.cnt && sketch.cnt == s.cnt[key := s.cnt[key] + 1] && sub == sub0
                  && keyTo.Keys == sketch.cnt.Keys
      ensures Get(sketch.cnt, key) > 0 && key !in keyTo ==>
                key !in s.cnt && sketch.cnt == s.cnt[key := 1] && sub == sub0 && |keyTo| < k - 1
                  && keyTo.Keys + {key} == sketch.cnt.Keys
      ensures key in s.cnt ==> dropped == []
      ensures Get(sketch.cnt, key) == 0 ==> key !in s.cnt && keyTo.Keys == sketch.cnt.Keys
      ensures Get(sketch.cnt, key) == 0 && sketch.cnt == s.cnt ==> sub == sub0
      ensures Get(sketch.cnt, key) == 0 && sketch.cnt != s.cnt ==>
          sketch.cnt == Subtract(s.cnt, s.delta + 1) && sub == sub0 + (s.delta + 1)
    {
      hide Step, Subtract, Summary.Valid;
      KeysLeft(s, key, dropped);
      FedCases(s, key);
      SubIs(s, key, sub0);
      FullAtMost(s);
      if dropped != [] { assert dropped[0] in dropped; }
    }

    lemma FullAtMost(s: Summary)
      requires s.Valid()
      ensures |s.cnt| <= s.k - 1
    {
    }

    /** What `update_new` does to the counters once the sketch has taken the occurrence. */
    method Account(key: Key, dropped: seq<Key>, ghost sub0: nat, ghost s: Summary)
      requires s.Valid() && s.k == k && 2 <= k && sketch.State() == Step(s, key, 1, false)
      requires Staffed(k, pool, free, keyTo, deleted) && Heaps(keyTo.Values) && c1Heap.Sorted(MaxKey(pool))
      requires InTune(s.cnt, sub0) && keyTo.Keys == s.cnt.Keys && |snapshot| <= k - 1
      requires sub == sub0 + Get(s.cnt, key) + 1 - Get(sketch.cnt, key) + s.delta - sketch.delta
      requires forall x :: x in dropped <==> x in s.cnt && x !in sketch.cnt
      requires forall i, j :: 0 <= i < j < |dropped| ==> dropped[i] != dropped[j]
      modifies `pool, `free, `keyTo, `deleted, c1Heap, c1Heap.heap, c1Heap.place, c2Heap, c2Heap.heap, c2Heap.place
      ensures Staffed(k, pool, free, keyTo, deleted) && Heaps(keyTo.Values) && c1Heap.Sorted(MaxKey(pool))
      ensures InTune(sketch.cnt, sub) && keyTo.Keys == sketch.cnt.Keys
      ensures old(MinSorted()) && key in s.cnt ==> c2Heap.heap[..] == old(c2Heap.heap[..])
      ensures key in s.cnt ==> keyTo == old(keyTo)
      ensures old(MinSorted()) ==> (MinSorted() <==> key !in s.cnt || FitsBelow(key))
      ensures old(MinSorted()) ==> (MinSorted() <==> key !in s.cnt || old(FitsRaised(key)))
    {
      hide *;
      assert forall x <- dropped :: x in keyTo;
      if key in keyTo { RaisedIs(key); }
      DropCounters(dropped, s.cnt, sub0);
      if key in keyTo { RaisedIs(key); }
      Cases(s, key, dropped, sub0);
      Adjust(key, s.cnt, sub0, s.delta + 1);
    }

    lemma Passed(cnt: Table, sub0: nat, m: nat)
      requires InTune(cnt, sub0) && keyTo.Keys == sketch.cnt.Keys
      requires if sketch.cnt == cnt then sub == sub0 else sketch.cnt == Subtract(cnt, m) && sub == sub0 + m
      ensures InTune(sketch.cnt, sub)
    {
      hide *;
      if sketch.cnt != cnt { SubtractInTune(cnt, sub0, m); }
    }

    /** The counter of the key itself. */
    method Adjust(key: Key, ghost cnt: Table, ghost sub0: nat, ghost m: nat)
      requires Staffed(k, pool, free, keyTo, deleted) && Heaps(keyTo.Values) && c1Heap.Sorted(MaxKey(pool))
      requires InTune(cnt, sub0) && |snapshot| <= k - 1
      requires Get(sketch.cnt, key) > 0 && key in keyTo ==>
                 key in cnt && sketch.cnt == cnt[key := cnt[key] + 1] && sub == sub0 && keyTo.Keys == sketch.cnt.Keys
      requires Get(sketch.cnt, key) > 0 && key !in keyTo ==>
                 key !in cnt && sketch.cnt == cnt[key := 1] && sub == sub0 && |keyTo| < k - 1
                   && keyTo.Keys + {key} == sketch.cnt.Keys
      requires Get(sketch.cnt, key) == 0 ==> key !in cnt && keyTo.Keys == sketch.cnt.Keys
      requires Get(sketch.cnt, key) == 0 && sketch.cnt == cnt ==> sub == sub0
      requires Get(sketch.cnt, key) == 0 && sketch.cnt != cnt ==> sketch.cnt == Subtract(cnt, m) && sub == sub0 + m
      modifies `pool, `free, `keyTo, `deleted, c1Heap, c1Heap.heap, c1Heap.place, c2Heap, c2Heap.heap, c2Heap.place
      ensures Staffed(k, pool, free, keyTo, deleted) && Heaps(keyTo.Values) && c1Heap.Sorted(MaxKey(pool))
      ensures InTune(sketch.cnt, sub) && keyTo.Keys == sketch.cnt.Keys
      ensures old(MinSorted()) && key in cnt ==> c2Heap.heap[..] == old(c2Heap.heap[..])
      ensures key in cnt ==> keyTo == old(keyTo)
      ensures old(MinSorted()) ==> (MinSorted() <==> key !in cnt || FitsBelow(key))
      ensures old(MinSorted()) ==> (MinSorted() <==> key !in cnt || old(FitsRaised(key)))
    {
      hide *;
      if Get(sketch.cnt, key) > 0 {
        if key in keyTo {
          Bump(key, cnt, sketch.cnt, sub0);
        } else {
          AddCounter(key, cnt, sketch.cnt);
        }
      } else {
        Passed(cnt, sub0, m);
      }
    }

    lemma ValidParts()
      requires Valid()
      ensures Kept() && LoggedBefore(lastTs) && GoodBefore(lastTs)
    {
      hide SketchValid, LogValid, Ordered, LoggedBefore, GoodBefore, PoolValid, InTune, CounterHeap.Sorted;
    }

    /** The log up to ts, before the occurrence at ts is counted. */
    method AdvanceTo(ts: nat)
      requires Valid() && lastTs <= ts && !Stuck(ts)
      modifies sketch, `checkpoints, `numDeltas, `snapshot, `sub, `pool, `free, `deleted, c1Heap, c1Heap.heap,
          c1Heap.place, c2Heap, c2Heap.heap, c2Heap.place
      ensures Kept() && LoggedBefore(ts) && GoodBefore(ts) && (old(MinSorted()) ==> MinSorted())
      ensures ts == old(lastTs) || old(lastTs) == 0 ==>
          checkpoints == old(checkpoints) && snapshot == old(snapshot) && sub == old(sub)
      ensures ts == old(lastTs) || old(lastTs) == 0 ==> sketch.State() == old(sketch.State()) && pool == old(pool)
      ensures ts == old(lastTs) || old(lastTs) == 0 ==>
          c2Heap.heap[..] == old(c2Heap.heap[..]) && c2Heap.n == old(c2Heap.n)
      ensures sketch.cnt.Keys == old(sketch.cnt.Keys)
      ensures old(lastTs) > 0 && ts != old(lastTs) ==> checkpoints != []
      ensures ts == old(lastTs) || old(lastTs) == 0 ==> numDeltas == old(numDeltas)
      ensures old(lastTs) > 0 && ts != old(lastTs) ==>
          Logs(old(Now()))
    {
      hide *;
      ValidParts();
      if lastTs > 0 && ts != lastTs {
        KeptParts();
        NotStuck(ts);
        KeysAlike();
        ghost var cps := checkpoints;
        GoodIs();
        var _ := Boundary();
        KeptParts();
        SameIsGood(cps, ts);
        LogsBefore(ts);
        KeysAlike();
      } else if ts != lastTs {
        KeptParts();
        NotStarted();
        NothingLogged(ts);
      }
    }

    lemma NotStuck(ts: nat)
      requires lastTs > 0 && ts != lastTs && !Stuck(ts)
      ensures checkpoints != [] ==> keyTo != map[]
    {
    }

    lemma KeysAlike()
      requires Kept()
      ensures keyTo.Keys == sketch.cnt.Keys
    {
      hide SketchValid, LogValid, Ordered, PoolValid, InTune, CounterHeap.Sorted;
    }

    lemma GoodIs()
      requires GoodBefore(lastTs)
      ensures forall t: nat | t < lastTs && Started(events, t) ::
                 Within(third, EstimateAt(third, checkpoints, t), Seen(events, t))
    {
    }

    lemma LogsBefore(ts: nat)
      requires Current() && lastTs < ts
      ensures LoggedBefore(ts) && checkpoints != []
    {
    }

    lemma NotStarted()
      requires SketchValid() && lastTs == 0
      ensures forall t :: !Started(events, t)
    {
    }

    lemma NothingLogged(ts: nat)
      requires LoggedBefore(lastTs) && lastTs == 0 && forall t :: !Started(events, t)
      ensures LoggedBefore(ts) && GoodBefore(ts)
    {
    }

    lemma AppendIsGood(e: Event, now: seq<Event>)
      requires GoodBefore(e.ts) && now == events + [e]
      ensures forall t: nat | t < e.ts && Started(now, t) ::
                Within(third, EstimateAt(third, checkpoints, t), Seen(now, t))
    {
      hide Started, Within, EstimateAt, Seen;
      forall t: nat | t < e.ts && Started(now, t)
        ensures Within(third, EstimateAt(third, checkpoints, t), Seen(now, t))
      {
        Append(events, e, t);
      }
    }

    lemma RecordedStill(e: Event, now: seq<Event>)
      requires RecordedUpTo(snapshot, Keys(events)) && TotalsUpTo(snapshot, total) && now == events + [e]
      ensures RecordedUpTo(snapshot, Keys(now)) && TotalsUpTo(snapshot, total + 1)
    {
      AppendKeys(events, e);
    }

    /** The sketch summarises everything including the occurrence that is being counted. */
    ghost predicate Taken(key: Key)
      reads `events, sketch
    {
      && sketch.k == k && 2 <= k && k as real * third >= 1.0 && sketch.State().Valid()
      && Credit(k, sketch.State().Effective(), Occurs(Keys(events), key, 1))
        && NoOvercount(sketch.cnt, Occurs(Keys(events), key, 1))
    }

    lemma IsTaken(key: Key)
      requires sketch.k == k && 2 <= k && k as real * third >= 1.0 && sketch.State().Valid()
      requires Credit(k, sketch.State().Effective(), Occurs(Keys(events), key, 1))
          && NoOvercount(sketch.cnt, Occurs(Keys(events), key, 1))
      ensures Taken(key)
    {
    }

    /** The clock and the totals move on. */
    method Tick(ts: nat, key: Key)
      requires LogValid() && Ordered() && LoggedBefore(ts) && GoodBefore(ts) && lastTs <= ts && total == |events|
          && EndsAt(events, lastTs)
      requires Taken(key)
      modifies `lastTs, `total, `events
      ensures SketchValid() && LogValid() && Ordered() && LoggedBefore(lastTs) && GoodBefore(lastTs)
      ensures events == old(events) + [Event(ts, key)] && lastTs == ts
    {
      hide Matches, ChainLog.Full, Within, Credit, NoOvercount, Started, DatedUpTo, Keys, Occurs, RecordedUpTo,
          TotalsUpTo, Capacity, Summary.Valid, Summary.Effective;
      ghost var e := Event(ts, key);
      AppendKeys(events, e);
      AppendStarts(events, e);
      AppendIsGood(e, events + [e]);
      RecordedStill(e, events + [e]);
      CapacityGrows(third, total, total + 1);
      lastTs := ts;
      total := total + 1;
      events := events + [e];
    }

    lemma IsValid()
      requires SketchValid() && LogValid() && Ordered() && LoggedBefore(lastTs) && GoodBefore(lastTs)
      requires Staffed(k, pool, free, keyTo, deleted) && Heaps(keyTo.Values) && c1Heap.Sorted(MaxKey(pool))
      requires InTune(sketch.cnt, sub) && keyTo.Keys == sketch.cnt.Keys
      ensures Valid()
    {
      hide SketchValid, LogValid, Ordered, LoggedBefore, GoodBefore, Staffed, Heaps, InTune, CounterHeap.Sorted;
    }

    lemma SketchParts()
      requires SketchValid()
      ensures sketch.k == k && 2 <= k && k as real * third >= 1.0 && sketch.State().Valid() && sketch.State().k == k
      ensures total == |events| && EndsAt(events, lastTs)
    {
    }

    lemma FewRecords()
      requires LogValid()
      ensures |snapshot| <= k - 1
    {
    }

    /** Between boundaries only the sketch and its counters change. */
    ghost predicate Undisturbed(cps: seq<Checkpoint>, snap: map<Key, SnapshotCounter>, sub0: nat, s: Summary, key: Key)
      reads `checkpoints, `snapshot, `sub, sketch
    {
      && checkpoints == cps && snapshot == snap && s.Valid() && sketch.State() == Step(s, key, 1, false)
      && sub == sub0 + Get(s.cnt, key) + 1 - Get(sketch.cnt, key) + s.delta - sketch.delta
    }

    lemma UndisturbedIs(s: Summary, sub0: nat, key: Key)
      requires s.Valid() && sketch.State() == Step(s, key, 1, false)
      requires sub == sub0 + Get(s.cnt, key) + 1 - Get(sketch.cnt, key) + s.delta - sketch.delta
      ensures Undisturbed(checkpoints, snapshot, sub0, s, key)
    {
      hide Step;
    }

    lemma UndisturbedParts(cps: seq<Checkpoint>, snap: map<Key, SnapshotCounter>, sub0: nat, s: Summary, key: Key)
      requires Undisturbed(cps, snap, sub0, s, key)
      ensures checkpoints == cps && snapshot == snap && s.Valid() && sketch.State() == Step(s, key, 1, false)
      ensures sub == sub0 + Get(s.cnt, key) + 1 - Get(sketch.cnt, key) + s.delta - sketch.delta
    {
    }

    /** The first occurrence in an empty sketch. */
    ghost predicate FromNothing(key: Key)
      reads sketch
    {
      Empty(k).Valid() && sketch.State() == Step(Empty(k), key, 1, false)
    }

    lemma IsFromNothing(cps: seq<Checkpoint>, snap: map<Key, SnapshotCounter>, sub0: nat, key: Key)
      requires Undisturbed(cps, snap, sub0, Empty(k), key)
      ensures FromNothing(key)
    {
    }

    /** The sketch takes the occurrence, and the counters follow it. */
    method Serve(key: Key)
      requires SketchValid() && InTune(sketch.cnt, sub) && keyTo.Keys == sketch.cnt.Keys && |snapshot| <= k - 1
      requires Staffed(k, pool, free, keyTo, deleted) && Heaps(keyTo.Values) && c1Heap.Sorted(MaxKey(pool))
      modifies sketch, `sub, `pool, `free, `keyTo, `deleted, c1Heap, c1Heap.heap, c1Heap.place, c2Heap, c2Heap.heap,
          c2Heap.place
      ensures Staffed(k, pool, free, keyTo, deleted) && Heaps(keyTo.Values) && c1Heap.Sorted(MaxKey(pool))
      ensures InTune(sketch.cnt, sub) && keyTo.Keys == sketch.cnt.Keys
      ensures Undisturbed(old(checkpoints), old(snapshot), old(sub), old(sketch.State()), key) && Taken(key)
      ensures old(MinSorted()) && key in old(sketch.cnt) ==> c2Heap.heap[..] == old(c2Heap.heap[..])
      ensures key in old(sketch.cnt) ==> keyTo == old(keyTo)
      ensures old(MinSorted()) ==> (MinSorted() <==> key !in old(sketch.cnt) || FitsBelow(key))
      ensures old(MinSorted()) ==> (MinSorted() <==> key !in old(sketch.cnt) || old(FitsRaised(key)))
    {
      hide *;
      SummaryIs();
      ghost var s, sub0 := sketch.State(), sub;
      if key in keyTo { RaisedIs(key); }
      var dropped := Take(key);
      if key in keyTo { RaisedIs(key); }
      Account(key, dropped, sub0, s);
    }

    /** The sketch's part of it, and what goes off every counter. */
    method Take(key: Key) returns (dropped: seq<Key>)
      requires SketchValid()
      modifies sketch, `sub
      ensures Undisturbed(old(checkpoints), old(snapshot), old(sub), old(sketch.State()), key) && Taken(key)
      ensures sketch.State() == Step(old(sketch.State()), key, 1, false)
      ensures old(sketch.State()).k == k && 2 <= k && old(sketch.State()).Valid()
      ensures sub == old(sub) + Get(old(sketch.cnt), key) + 1 - Get(sketch.cnt, key) + old(sketch.delta) - sketch.delta
      ensures forall x :: x in dropped <==> x in old(sketch.cnt) && x !in sketch.cnt
      ensures forall i, j :: 0 <= i < j < |dropped| ==> dropped[i] != dropped[j]
    {
      hide *;
      SketchParts();
      SummaryIs();
      ghost var s, sub0 := sketch.State(), sub;
      var c0, oldDelta := Get(sketch.cnt, key), sketch.delta;
      dropped := Feed(key);
      SubIs(s, key, sub0);
      sub := sub + c0 + 1 - Get(sketch.cnt, key) + oldDelta - sketch.delta;
      UndisturbedIs(s, sub0, key);
      IsTaken(key);
    }

    /** The second half of `update_new` */
    method Count(ts: nat, key: Key)
      requires Kept() && LoggedBefore(ts) && GoodBefore(ts) && lastTs <= ts
      modifies sketch, `sub, `pool, `free, `keyTo, `deleted, `lastTs, `total, `events, c1Heap, c1Heap.heap,
          c1Heap.place, c2Heap, c2Heap.heap, c2Heap.place
      ensures Valid() && events == old(events) + [Event(ts, key)] && lastTs == ts
      ensures Undisturbed(old(checkpoints), old(snapshot), old(sub), old(sketch.State()), key)
      ensures old(MinSorted()) && key in old(sketch.cnt) ==> c2Heap.heap[..] == old(c2Heap.heap[..])
      ensures key in old(sketch.cnt) ==> keyTo == old(keyTo)
      ensures old(MinSorted()) ==> (MinSorted() <==> key !in old(sketch.cnt) || FitsBelow(key))
      ensures old(MinSorted()) ==> (MinSorted() <==> key !in old(sketch.cnt) || old(FitsRaised(key)))
    {
      hide *;
      ReadyToServe();
      Serve(key);
      Tick(ts, key);
      IsValid();
    }

    lemma ReadyToServe()
      requires Kept()
      ensures SketchValid() && LogValid() && Ordered() && InTune(sketch.cnt, sub) && keyTo.Keys == sketch.cnt.Keys
          && |snapshot| <= k - 1
      ensures Staffed(k, pool, free, keyTo, deleted) && Heaps(keyTo.Values) && c1Heap.Sorted(MaxKey(pool))
      ensures total == |events| && EndsAt(events, lastTs)
    {
      hide *;
      KeptParts();
      HeldParts(keyTo.Values);
      SketchParts();
      FewRecords();
    }

    /**
     `update_new` with a single occurrence. It fails, by a look at the top of an empty heap, exactly
     when the timestamp changes at a moment when nothing is stored, after the first checkpoint.
     Pushing up a raised c2 leaves the second heap in order exactly if it does not exceed those below it.
     */
    method Update(ts: nat, key: Key) returns (ok: bool)
      requires Valid() && lastTs <= ts
      modifies this, sketch, c1Heap, c1Heap.heap, c1Heap.place, c2Heap, c2Heap.heap, c2Heap.place
      ensures ok <==> !old(Stuck(ts))
      ensures !ok ==> Valid() && Stuck(ts)
      ensures ok ==> Valid() && events == old(events) + [Event(ts, key)] && lastTs == ts
      ensures ok && old(MinSorted()) ==> (MinSorted() <==> key !in old(sketch.cnt) || FitsBelow(key))
      ensures ok && old(MinSorted()) && (ts == old(lastTs) || old(lastTs) == 0) ==>
                (MinSorted() <==> key !in old(sketch.cnt) || old(FitsRaised(key)))
      ensures ok && (ts == old(lastTs) || old(lastTs) == 0) ==>
          Undisturbed(old(checkpoints), old(snapshot), old(sub), old(sketch.State()), key)
      ensures ok && (ts == old(lastTs) || old(lastTs) == 0) && old(MinSorted()) && key in old(sketch.cnt) ==>
          c2Heap.heap[..] == old(c2Heap.heap[..])
      ensures ok && key in old(sketch.cnt) ==> keyTo == old(keyTo)
      ensures ok && old(sketch.cnt) == map[] ==> FromNothing(key)
      ensures ok && old(lastTs) > 0 && ts != old(lastTs) ==> checkpoints != []
      ensures ok && (ts == old(lastTs) || old(lastTs) == 0) ==>
          checkpoints == old(checkpoints) && numDeltas == old(numDeltas)
      ensures ok && old(lastTs) > 0 && ts != old(lastTs) ==>
          Logs(old(Now()))
    {
      hide *;
      if Stuck(ts) { return false; }
      ValidParts();
      KeysAlike();
      if key in keyTo { RaisedIs(key); }
      AdvanceTo(ts);
      if key in keyTo { RaisedIs(key); }
      KeptParts();
      SketchParts();
      ghost var cps, snap, sub0, empty := checkpoints, snapshot, sub, sketch.cnt == map[];
      if empty { NothingStored(); }
      Count(ts, key);
      if empty { IsFromNothing(cps, snap, sub0, key); }
      ok := true;
    }

    lemma NothingStored()
      requires SketchValid() && sketch.cnt == map[]
      ensures sketch.State() == Empty(k) && Empty(k).Valid()
    {
    }

    /** `create_tmp_cnt_at` */
    method CreateTmpCntAt(ts: nat) returns (est: Table)
      requires Valid()
      ensures est == EstimateAt(third, checkpoints, ts)
      ensures ts < lastTs ==> (Within(third, est, Seen(events, ts)) <==>
          Started(events, ts) || ZeroDatedAreLight(third, events))
      ensures !Started(events, ts) ==> est == map[]
    {
      hide *;
      ValidParts();
      KeptParts();
      OrderedBy(ts);
      est := TmpCntAt(third, checkpoints, ts);
      if !Started(events, ts) {
        EmptyBefore(third, checkpoints, ts);
        EmptyIsWithin(third, events, ts);
      } else if ts < lastTs {
        GoodIs();
      }
    }

    lemma OrderedBy(ts: nat)
      requires Ordered()
      ensures forall i, j :: 0 <= i < j < |checkpoints| ==> checkpoints[i].ts < checkpoints[j].ts
      ensures !Started(events, ts) ==> forall c <- checkpoints :: ts < c.ts
    {
      hide Started;
      forall c <- checkpoints ensures c.ts <= ts ==> Started(events, ts) {
        assert Started(events, c.ts);
        if c.ts <= ts { StartedLater(events, c.ts, ts); }
      }
    }

    /** The counters `estimate_heavy_hitters` looks at: the sketch itself from the last timestamp on. */
    method Estimates(ts: nat) returns (est: Table)
      requires Valid()
      ensures ts < lastTs ==> est == EstimateAt(third, checkpoints, ts)
      ensures ts >= lastTs ==> Near(k, est, Seen(events, ts))
      ensures Within(third, est, Seen(events, ts)) <==>
          ts >= lastTs || Started(events, ts) || ZeroDatedAreLight(third, events)
    {
      hide *;
      if ts >= lastTs {
        ValidParts();
        KeptParts();
        PresentIsGood(ts);
        return sketch.cnt;
      }
      est := CreateTmpCntAt(ts);
    }

    lemma PresentIsGood(ts: nat)
      requires SketchValid() && lastTs <= ts
      ensures Within(third, sketch.cnt, Seen(events, ts)) && Near(k, sketch.cnt, Seen(events, ts))
    {
      hide Within, Near, Credit, NoOvercount, Seen, Keys, Summary.Valid, Summary.Effective;
      DatedLater(ts);
      SeenAll(events, ts);
      ChainLog.PresentIsWithin(third, k, sketch.State(), Keys(events));
    }

    /** What every counter in use says: how far its key has drifted from its record. */
    lemma CountersInTune(x: Key)
      requires Valid() && x in keyTo
      ensures keyTo[x] < |pool| && x in sketch.cnt
      ensures var c, b, d := pool[keyTo[x]], Base(snapshot, x), Slack(third, checkpoints, snapshot, x);
              c.key == x && c.c1 == sketch.cnt[x] + sub - b - d && c.c2 == sketch.cnt[x] + sub - b + d
    {
      hide *;
      ValidParts();
      KeptParts();
      KeysAlike();
      TuneParts(sketch.cnt, sub);
      TunedIs(x);
      GetIs(sketch.cnt, x);
    }

    lemma TunedIs(x: Key)
      requires Tuned(third, checkpoints, snapshot, pool, keyTo, sketch.cnt, sub) && x in keyTo
      ensures keyTo[x] < |pool| && pool[keyTo[x]].key == x
      ensures var c, b, d := pool[keyTo[x]], Base(snapshot, x), Slack(third, checkpoints, snapshot, x);
              c.c1 == Get(sketch.cnt, x) + sub - b - d && c.c2 == Get(sketch.cnt, x) + sub - b + d
    {
      hide Base, Slack;
    }

    /** The counters share the pool of 2(k - 1), which therefore never runs out. */
    lemma PoolShared(i: nat)
      requires Valid() && i < 2 * (k - 1)
      ensures i in keyTo.Values || i in deleted.Values || i in free
      ensures !(i in keyTo.Values && i in deleted.Values) && !(i in free && (i in keyTo.Values || i in deleted.Values))
      ensures |keyTo| < k - 1 ==> free != []
    {
      hide *;
      ValidParts();
      KeptParts();
      HeldParts(keyTo.Values);
      TuneParts(sketch.cnt, sub);
      FewRecords();
      PoolIsShared(k, pool, free, keyTo, deleted, i);
      if |keyTo| < k - 1 { FreeIs(); }
    }
  }

  // ----- two runs that go wrong

  /** Feed k different keys at one time into a sketch that stores nothing: nothing is stored again. */
  method FeedDifferent(s: ChainMisraGries, ts: nat)
    requires s.Valid() && s.lastTs <= ts && 0 < ts && s.sketch.cnt == map[] && !s.Stuck(ts)
    modifies s, s.sketch, s.c1Heap, s.c1Heap.heap, s.c1Heap.place, s.c2Heap, s.c2Heap.heap, s.c2Heap.place
    ensures s.Valid() && s.lastTs == ts && s.sketch.cnt == map[]
    ensures old(s.lastTs) > 0 && ts != old(s.lastTs) ==> s.checkpoints != []
    ensures old(s.lastTs) == 0 ==> s.checkpoints == old(s.checkpoints)
  {
    hide *;
    var n := 0;
    ghost var fed: seq<Key> := [];
    AtLeastTwoSlots(s);
    while n < s.k
      invariant 0 <= n <= s.k && s.Valid() && |fed| == n && forall i :: 0 <= i < n ==> fed[i] == i
      invariant n == 0 ==> s.lastTs == old(s.lastTs) && s.sketch.cnt == map[] && !s.Stuck(ts)
      invariant n > 0 ==> s.lastTs == ts && s.sketch.State() == Run(s.k, fed)
      invariant n > 0 && old(s.lastTs) > 0 && ts != old(s.lastTs) ==> s.checkpoints != []
      invariant old(s.lastTs) == 0 ==> s.checkpoints == old(s.checkpoints)
    {
      NotStuckAgain(s, ts);
      RunMore(s.k, fed, n);
      ghost var before, cps, snap, sub0 := s.sketch.State(), s.checkpoints, s.snapshot, s.sub;
      var ok := s.Update(ts, n);
      if n == 0 { FirstIs(s, n); }
      if n > 0 || old(s.lastTs) == 0 { s.UndisturbedParts(cps, snap, sub0, before, n); }
      fed := fed + [n];
      n := n + 1;
    }
    DifferentIs(fed);
    KDifferentKeysLeaveNothing(s.k, fed);
    StateIs(s);
  }

  lemma AtLeastTwoSlots(s: ChainMisraGries)
    requires s.Valid()
    ensures 2 <= s.k
  {
    hide *;
    s.ValidParts();
    s.KeptParts();
    s.SketchParts();
  }

  lemma NotStuckAgain(s: ChainMisraGries, ts: nat)
    requires s.lastTs == ts || !s.Stuck(ts)
    ensures !s.Stuck(ts)
  {
  }

  lemma FirstIs(s: ChainMisraGries, x: Key)
    requires s.FromNothing(x)
    ensures Empty(s.k).Valid() && s.sketch.State() == Step(Empty(s.k), x, 1, false)
  {
  }

  lemma DifferentIs(fed: seq<Key>)
    requires forall i :: 0 <= i < |fed| ==> fed[i] == i
    ensures Different(fed)
  {
  }

  lemma StateIs(s: ChainMisraGries)
    ensures s.sketch.State().cnt == s.sketch.cnt
  {
  }

  /** k different keys at time 1 and again at time 2 leave the heaps empty; the next boundary looks at their tops. */
  method StuckRun(third: Third) returns (s: ChainMisraGries, ok: bool)
    requires third < 1.0
    ensures !ok && s.Valid() && s.Stuck(3)
  {
    hide *;
    s := new ChainMisraGries(third);
    NotStuckAtFirst(s, 1);
    FeedDifferent(s, 1);
    FirstBoundaryIsSafe(s, 2);
    FeedDifferent(s, 2);
    NothingIsLive(s, 3);
    ok := s.Update(3, 0);
  }

  lemma NotStuckAtFirst(s: ChainMisraGries, ts: nat)
    requires s.lastTs == 0
    ensures !s.Stuck(ts)
  {
  }

  lemma FirstBoundaryIsSafe(s: ChainMisraGries, ts: nat)
    requires s.checkpoints == []
    ensures !s.Stuck(ts)
  {
  }

  lemma NothingIsLive(s: ChainMisraGries, ts: nat)
    requires s.Valid() && s.sketch.cnt == map[] && s.checkpoints != [] && 0 < s.lastTs != ts
    ensures s.Stuck(ts)
  {
    s.ValidParts();
    s.KeptParts();
    s.KeysAlike();
    assert s.keyTo == map[];
  }

  // with two keys stored once each, both keys of the second heap are 1

  ghost predicate Fresh(s: ChainMisraGries)
    reads s
  {
    s.checkpoints == [] && s.snapshot == map[] && s.sub == 0
  }

  lemma SecondKeyIsCount(s: ChainMisraGries, x: Key)
    requires s.Valid() && Fresh(s) && x in s.keyTo
    ensures s.keyTo[x] < |s.pool| && x in s.sketch.cnt && s.pool[s.keyTo[x]].c2 == s.sketch.cnt[x]
        && s.pool[s.keyTo[x]].key == x
  {
    hide ChainMisraGries.Valid;
    s.CountersInTune(x);
    assert (0 as real * s.third).Floor == 0;
  }

  lemma TopIsLive(s: ChainMisraGries, p: nat)
    requires s.Valid() && p < |s.sketch.cnt|
    ensures p < s.c2Heap.n <= s.c2Heap.heap.Length && s.c2Heap.heap[p] < |s.pool|
    ensures var x := s.pool[s.c2Heap.heap[p]].key; x in s.keyTo && s.keyTo[x] == s.c2Heap.heap[p] && x in s.sketch.cnt
    ensures s.c2Heap.heap[p] < s.c2Heap.place.Length && s.c2Heap.place[s.c2Heap.heap[p]] == p
  {
    hide *;
    s.ValidParts();
    s.KeptParts();
    s.HeldParts(s.keyTo.Values);
    s.HeapParts(s.keyTo.Values);
    s.c2Heap.Parts();
    s.c2Heap.Members();
    s.LiveCount();
    s.KeysAlike();
    assert |s.keyTo| == |s.keyTo.Keys| && |s.sketch.cnt| == |s.sketch.cnt.Keys|;
    LiveIs(s.k, s.pool, s.free, s.keyTo, s.deleted, s.c2Heap.heap[p]);
  }

  /** The second key of the counter on top exceeds that of the one below. */
  lemma TopTooLarge(s: ChainMisraGries, x: Key)
    requires s.Valid() && Fresh(s) && |s.sketch.cnt| == 2 && x in s.sketch.cnt && s.sketch.cnt[x] == 2
    requires forall y <- s.sketch.cnt :: y != x ==> s.sketch.cnt[y] == 1
    requires s.c2Heap.n <= s.c2Heap.heap.Length && 0 < s.c2Heap.n && s.c2Heap.heap[0] < |s.pool|
        && s.pool[s.c2Heap.heap[0]].key == x
    ensures !s.FitsBelow(x)
  {
    hide ChainMisraGries.Valid;
    TopIsLive(s, 0);
    TopIsLive(s, 1);
    var y := s.pool[s.c2Heap.heap[1]].key;
    assert y != x;
    SecondKeyIsCount(s, x);
    SecondKeyIsCount(s, y);
    assert MinHeap.Up(1) == 0;
  }

  lemma FreshStays(s: ChainMisraGries, before: Summary, x: Key)
    requires s.Undisturbed([], map[], 0, before, x) && before.k == s.k && (x in before.cnt || |before.cnt| < s.k - 1)
    ensures Fresh(s) && s.sketch.cnt == before.cnt[x := Get(before.cnt, x) + 1]
  {
    hide Step;
    s.UndisturbedParts([], map[], 0, before, x);
    s.FedCases(before, x);
    s.SubIs(before, x, 0);
  }

  /** Two different keys, then the one on top of the second heap once more: the heap is out of order. */
  method UnsortedRun(third: Third) returns (s: ChainMisraGries)
    requires third < 1.0 / 2.0
    ensures s.Valid() && |s.events| == 3 && !s.MinSorted()
  {
    hide *;
    AtLeastThree(third);
    s := new ChainMisraGries(third);
    ghost var before := s.sketch.State();
    NotStuckAtFirst(s, 1);
    StateParts(s);
    var ok := s.Update(1, 0);
    FreshStays(s, before, 0);
    StateParts(s);
    FirstCount(before.cnt, s.sketch.cnt, 0);
    before := s.sketch.State();
    FreshIs(s);
    NotStuckAgain(s, 1);
    ok := s.Update(1, 1);
    FreshStays(s, before, 1);
    StateParts(s);
    SecondCount(before.cnt, s.sketch.cnt);
    before := s.sketch.State();
    NotStuckAgain(s, 1);
    TopIsLive(s, 0);
    var x := s.pool[s.c2Heap.heap[0]].key;
    FreshIs(s);
    ghost var heap := s.c2Heap.heap[..];
    ok := s.Update(1, x);
    assert s.c2Heap.heap[..][0] == heap[0];
    FreshStays(s, before, x);
    OneTwo(before.cnt, s.sketch.cnt, x);
    TopIsLive(s, 0);
    SecondKeyIsCount(s, x);
    TopTooLarge(s, x);
  }

  lemma AtLeastThree(third: Third)
    requires third < 1.0 / 2.0
    ensures 3 <= Ceil(1.0 / third)
  {
    var q := 1.0 / third;
    assert q * third == 1.0;
    assert q <= 2.0 ==> q * third <= 2.0 * third;
  }

  lemma StateParts(s: ChainMisraGries)
    requires s.Valid()
    ensures s.sketch.State().k == s.k && s.sketch.State().cnt == s.sketch.cnt && s.sketch.State().Valid()
  {
    hide *;
    s.ValidParts();
    s.KeptParts();
    s.SketchParts();
    s.SummaryIs();
    KIs(s);
  }

  lemma KIs(s: ChainMisraGries)
    ensures s.sketch.State().k == s.sketch.k
  {
  }

  lemma FreshIs(s: ChainMisraGries)
    requires Fresh(s)
    ensures s.checkpoints == [] && s.snapshot == map[] && s.sub == 0
  {
  }

  lemma FirstCount(a: Table, b: Table, x: Key)
    requires a == map[] && b == a[x := Get(a, x) + 1]
    ensures b.Keys == {x} && |b| == 1 && b[x] == 1
  {
    assert |b| == |b.Keys|;
  }

  lemma SecondCount(a: Table, b: Table)
    requires a.Keys == {0} && a[0] == 1 && b == a[1 := Get(a, 1) + 1]
    ensures |b| == 2 && forall y <- b :: b[y] == 1
  {
    assert b.Keys == {0, 1} && |b| == |b.Keys|;
  }

  lemma OneTwo(a: Table, b: Table, x: Key)
    requires |a| == 2 && x in a && (forall y <- a :: a[y] == 1) && b == a[x := Get(a, x) + 1]
    ensures |b| == 2 && x in b && b[x] == 2 && forall y <- b :: y != x ==> b[y] == 1
  {
    assert b.Keys == a.Keys && |a| == |a.Keys| && |b| == |b.Keys|;
  }
}
