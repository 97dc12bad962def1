/**
 The checkpoint and delta log of the chained Misra-Gries sketch (pmmg.cpp, old update
 mode): what replaying it up to a past time yields, and why that is a good estimate.
 */
module ChainLog {
  import opened Products
  import opened Counts
  import opened MisraGriesSpec
  import opened Timeline

  datatype Delta = Delta(ts: nat, total: nat, key: Key, newCnt: nat)

  datatype Checkpoint = Checkpoint(ts: nat, total: nat, counts: Table, deltas: seq<Delta>)

  datatype SnapshotCounter = SnapshotCounter(cnt: nat, lastTotal: nat)

  /** floor(N * eps / 3): what a counter recorded at total N may drift unrecorded. */
  function Allow(third: Third, total: nat): nat {
    (total as real * third).Floor
  }

  lemma AllowMonotone(third: Third, m: nat, n: nat)
    requires m <= n
    ensures Allow(third, m) <= Allow(third, n)
    ensures Allow(third, n) as real <= n as real * third
  {
    assert m as real * third <= n as real * third;
  }

  // ----- replaying

  function Opening(third: Third, c: Checkpoint): Table {
    Subtract(c.counts, Allow(third, c.total))
  }

  /** One delta node: the recorded count less its own allowance replaces the estimate. */
  function Apply(third: Third, t: Table, d: Delta): Table {
    var v := Excess(d.newCnt, Allow(third, d.total));
    if v == 0 then t - {d.key} else t[d.key := v]
  }

  function Replay(third: Third, t: Table, ds: seq<Delta>, ts: nat): Table
    decreases |ds|
  {
    if ds == [] || ds[0].ts > ts then t else Replay(third, Apply(third, t, ds[0]), ds[1..], ts)
  }

  /** The estimates `create_tmp_cnt_at` computes for time ts. */
  function EstimateAt(third: Third, cps: seq<Checkpoint>, ts: nat): Table {
    if cps == [] then map[] else
      var c := cps[|cps| - 1];
      if c.ts <= ts then Replay(third, Opening(third, c), c.deltas, ts)
      else EstimateAt(third, cps[..|cps| - 1], ts)
  }

  lemma {:induction false} ReplayAppend(third: Third, t: Table, ds: seq<Delta>, more: seq<Delta>, ts: nat)
    requires forall d <- ds :: d.ts <= ts
    ensures Replay(third, t, ds + more, ts) == Replay(third, Replay(third, t, ds, ts), more, ts)
    decreases |ds|
  {
    if ds == [] {
      assert ds + more == more;
    } else {
      assert (ds + more)[1..] == ds[1..] + more;
      ReplayAppend(third, Apply(third, t, ds[0]), ds[1..], more, ts);
    }
  }

  /** Deltas later than ts do not matter for it. */
  lemma {:induction false} ReplayLater(third: Third, t: Table, ds: seq<Delta>, more: seq<Delta>, ts: nat)
    requires forall d <- more :: d.ts > ts
    ensures Replay(third, t, ds + more, ts) == Replay(third, t, ds, ts)
    decreases |ds|
  {
    if ds == [] {
      assert ds + more == more;
    } else if ds[0].ts <= ts {
      assert (ds + more)[1..] == ds[1..] + more;
      ReplayLater(third, Apply(third, t, ds[0]), ds[1..], more, ts);
    }
  }

  /** What the whole list of deltas amounts to. */
  function Fold(third: Third, t: Table, ds: seq<Delta>): Table
    decreases |ds|
  {
    if ds == [] then t else Apply(third, Fold(third, t, ds[..|ds| - 1]), ds[|ds| - 1])
  }

  lemma {:induction false} ReplayAll(third: Third, t: Table, ds: seq<Delta>, ts: nat)
    requires forall d <- ds :: d.ts <= ts
    ensures Replay(third, t, ds, ts) == Fold(third, t, ds)
    decreases |ds|
  {
    if ds != [] {
      var n := |ds| - 1;
      ReplayAll(third, t, ds[..n], ts);
      ReplayAppend(third, t, ds[..n], [ds[n]], ts);
      assert ds == ds[..n] + [ds[n]];
      assert [ds[n]][1..] == [];
    }
  }

  // ----- what the snapshot stands for

  /** The estimate the log gives for the key of a recorded counter. */
  function Recorded(third: Third, snap: map<Key, SnapshotCounter>, x: Key): nat {
    if x in snap then Excess(snap[x].cnt, Allow(third, snap[x].lastTotal)) else 0
  }

  ghost predicate Matches(third: Third, t: Table, snap: map<Key, SnapshotCounter>) {
    forall x: Key :: Get(t, x) == Recorded(third, snap, x)
  }

  /** Counter v of key x is close enough to what is recorded; base is the last checkpoint's total. */
  ghost predicate Close(third: Third, snap: map<Key, SnapshotCounter>, base: nat, x: Key, v: nat) {
    if x in snap then
      var c, d := snap[x].cnt, Allow(third, snap[x].lastTotal);
      c <= v + d && v <= c + d
    else v <= Allow(third, base)
  }

  ghost predicate AllClose(third: Third, snap: map<Key, SnapshotCounter>, base: nat, cur: Table) {
    forall x: Key :: Close(third, snap, base, x, Get(cur, x))
  }

  /** The promise: no overestimate, and at most an eps fraction of all occurrences missed. */
  ghost predicate Good(third: Third, est: Table, h: multiset<Key>, x: Key) {
    Get(est, x) <= h[x] && (h[x] - Get(est, x)) as real <= 3.0 * third * |h| as real
  }

  ghost predicate Within(third: Third, est: Table, h: multiset<Key>) {
    forall x: Key :: Good(third, est, h, x)
  }

  ghost predicate TotalsUpTo(snap: map<Key, SnapshotCounter>, total: nat) {
    forall x <- snap :: snap[x].lastTotal <= total
  }

  /** Close counters of a good sketch make the log a good estimate. */
  lemma CloseIsWithin(third: Third, k: nat, est: Table, snap: map<Key, SnapshotCounter>, base: nat, cur: Table,
                      h: multiset<Key>)
    requires k as real * third >= 1.0 && Credit(k, cur, h)
    requires Matches(third, est, snap) && AllClose(third, snap, base, cur)
    requires base <= |h| && TotalsUpTo(snap, |h|)
    ensures Within(third, est, h)
  {
    hide Good, Owed, Close, Recorded;
    forall x: Key ensures Good(third, est, h, x) {
      assert Owed(k, cur, h, x);
      assert Get(est, x) == Recorded(third, snap, x);
      CloseIsGood(third, k, est, snap, base, cur, h, x);
    }
  }

  lemma CloseIsGood(third: Third, k: nat, est: Table, snap: map<Key, SnapshotCounter>, base: nat, cur: Table,
                    h: multiset<Key>, x: Key)
    requires k as real * third >= 1.0 && Owed(k, cur, h, x)
    requires Get(est, x) == Recorded(third, snap, x) && Close(third, snap, base, x, Get(cur, x))
    requires base <= |h| && TotalsUpTo(snap, |h|)
    ensures Good(third, est, h, x)
  {
    hide Allow, Sum, Times, Good;
    AllowGrows(third, if x in snap then snap[x].lastTotal else base, |h|);
    AllowedIsGood(third, k, est, h, x, h[x] - Get(cur, x));
  }

  lemma AllowGrows(third: Third, m: nat, n: nat)
    requires m <= n
    ensures Allow(third, m) <= Allow(third, n)
  {
    hide Allow;
    AllowMonotone(third, m, n);
  }

  /** A count off by an owed u and two allowances is good. */
  lemma AllowedIsGood(third: Third, k: nat, est: Table, h: multiset<Key>, x: Key, u: nat)
    requires k as real * third >= 1.0 && Times(k, u) <= |h|
    requires Get(est, x) <= h[x] <= Get(est, x) + u + 2 * Allow(third, |h|)
    ensures Good(third, est, h, x)
  {
    hide Allow, Times;
    AllowMonotone(third, |h|, |h|);
    ErrorSum(third, k, u, Allow(third, |h|), |h|, h[x] - Get(est, x));
  }

  lemma ErrorSum(third: Third, k: nat, u: nat, d: nat, n: nat, e: nat)
    requires k as real * third >= 1.0 && Times(k, u) <= n && d as real <= n as real * third && e <= u + 2 * d
    ensures e as real <= 3.0 * third * n as real
  {
    TimesIsProduct(k, u);
    ProductAsReal(k, u);
    RealErrorSum(k as real, third, u as real, d as real, n as real);
  }

  lemma RealErrorSum(k: real, third: real, u: real, d: real, n: real)
    requires k * third >= 1.0 && u >= 0.0 && third > 0.0 && k * u <= n && d <= n * third
    ensures u + 2.0 * d <= 3.0 * third * n
  {
    var p, q := k * u, n * third;
    ScaledUp(k, third, u, p);
    Scaled(p, n, third);
    assert 3.0 * third * n == 3.0 * q;
  }

  // ----- what a change of timestamp has to record

  /** The counters that left the range their record allows. */
  ghost function Drifters(third: Third, snap: map<Key, SnapshotCounter>, base: nat, cur: Table): set<Key> {
    set x | x in cur && !Close(third, snap, base, x, cur[x])
  }

  /** These, and the recorded keys that are no longer counted. */
  ghost function Due(third: Third, snap: map<Key, SnapshotCounter>, base: nat, cur: Table): set<Key> {
    (snap.Keys - cur.Keys) + Drifters(third, snap, base, cur)
  }

  /** A count is due exactly if it is further from what is recorded than a third of the tolerance then. */
  lemma DueExactly(third: Third, snap: map<Key, SnapshotCounter>, base: nat, cur: Table, x: Key)
    ensures x in Due(third, snap, base, cur) <==>
              if x !in cur then x in snap
              else if x !in snap then cur[x] as real > third * base as real
              else
                || cur[x] as real - snap[x].cnt as real > third * snap[x].lastTotal as real
                || snap[x].cnt as real - cur[x] as real > third * snap[x].lastTotal as real
  {
    if x in cur {
      if x in snap {
        FloorDiffers(third, snap[x].lastTotal, cur[x] - snap[x].cnt);
        FloorDiffers(third, snap[x].lastTotal, snap[x].cnt - cur[x]);
      } else {
        FloorDiffers(third, base, cur[x]);
      }
    }
  }

  lemma FloorDiffers(third: Third, total: nat, v: int)
    ensures v > Allow(third, total) <==> v as real > third * total as real
  {
    assert total as real * third == third * total as real;
  }

  /** One delta for each of the keys, with the count it has now. */
  ghost predicate NewsOf(keys: set<Key>, news: seq<Delta>, cur: Table, ts: nat, total: nat) {
    && |news| == |keys|
    && (forall d <- news :: d.key in keys && d == Delta(ts, total, d.key, Get(cur, d.key)))
    && (forall i, j :: 0 <= i < j < |news| ==> news[i].key != news[j].key)
  }

  lemma NewsMore(keys: set<Key>, news: seq<Delta>, cur: Table, ts: nat, total: nat, d: Delta)
    requires NewsOf(keys, news, cur, ts, total) && d.key !in keys && d == Delta(ts, total, d.key, Get(cur, d.key))
    ensures NewsOf(keys + {d.key}, news + [d], cur, ts, total)
  {
    assert forall i :: 0 <= i < |news| ==> news[i] in news;
  }

  lemma NewsMoreFound(gone: set<Key>, found: set<Key>, news: seq<Delta>, cur: Table, ts: nat, total: nat, d: Delta)
    requires NewsOf(gone + found, news, cur, ts, total) && d.key !in gone && d.key !in found
    requires d == Delta(ts, total, d.key, Get(cur, d.key))
    ensures NewsOf(gone + (found + {d.key}), news + [d], cur, ts, total)
  {
    NewsMore(gone + found, news, cur, ts, total, d);
    assert gone + found + {d.key} == gone + (found + {d.key});
  }

  lemma NoNews(cur: Table, ts: nat, total: nat)
    ensures NewsOf({}, [], cur, ts, total)
  {
  }

  lemma OneNotFound(gone: set<Key>, found: set<Key>, all: set<Key>, x: Key)
    requires found <= all && x in all && x !in found && x !in gone
    ensures |gone + found| + 1 <= |gone + all|
  {
    OneLeftOut(gone + found, gone + all, x);
  }

  lemma OneLeftOut(keys: set<Key>, all: set<Key>, x: Key)
    requires keys <= all && x in all && x !in keys
    ensures |keys| + 1 <= |all|
  {
    Subset(keys + {x}, all);
  }

  /**
   The log with these keys recorded: their deltas are appended to the last checkpoint as long as its list
   stays within the capacity, else there is a new checkpoint.
   */
  ghost predicate LogsKeys(capacity: nat, keys: set<Key>, cps: seq<Checkpoint>, n: nat, cur: Table, ts: nat, total: nat,
                           cps': seq<Checkpoint>, n': nat)
  {
    if cps == [] || n + |keys| > capacity then
      cps' == cps + [Checkpoint(ts, total, cur, [])] && n' == 0
    else
      exists news: seq<Delta> ::
        NewsOf(keys, news, cur, ts, total) && cps' == Log(cps, news) && n' == n + |news|
  }

  function BaseTotal(cps: seq<Checkpoint>): nat {
    if cps == [] then 0 else cps[|cps| - 1].total
  }

  /** What a change of timestamp does to the log: it records what is due, and no more. */
  ghost predicate LogStep(third: Third, cps: seq<Checkpoint>, n: nat, snap: map<Key, SnapshotCounter>, cur: Table,
                          ts: nat, total: nat, cps': seq<Checkpoint>, n': nat)
  {
    LogsKeys(FloorLog2(total), Due(third, snap, BaseTotal(cps), cur), cps, n, cur, ts, total, cps', n')
  }

  lemma NewsCount(keys: set<Key>, news: seq<Delta>, cur: Table, ts: nat, total: nat)
    requires NewsOf(keys, news, cur, ts, total)
    ensures |news| == |keys|
  {
  }

  lemma GetNone(cur: Table, x: Key)
    requires x !in cur
    ensures Get(cur, x) == 0
  {
  }

  lemma GetOne(cur: Table, x: Key)
    requires Positive(cur) && x in cur
    ensures Get(cur, x) == cur[x] > 0
  {
  }

  lemma DriftersAreCounted(third: Third, snap: map<Key, SnapshotCounter>, base: nat, cur: Table)
    ensures Drifters(third, snap, base, cur) <= cur.Keys
  {
  }

  /** Erasing what is no longer counted leaves the others in their ranges or out of them. */
  lemma DriftersStay(third: Third, snap: map<Key, SnapshotCounter>, snap': map<Key, SnapshotCounter>, base: nat,
                     cur: Table)
    requires snap' == snap - (snap.Keys - cur.Keys)
    ensures snap'.Keys <= cur.Keys && Drifters(third, snap', base, cur) == Drifters(third, snap, base, cur)
  {
    hide Allow;
    forall x <- cur ensures Close(third, snap', base, x, cur[x]) == Close(third, snap, base, x, cur[x]) {
      assert x in snap' <==> x in snap;
    }
  }

  /** The keys found are recorded anew, the others as before. */
  ghost predicate Redone(snap: map<Key, SnapshotCounter>, found: set<Key>, cur: Table, total: nat,
                         snap': map<Key, SnapshotCounter>)
  {
    && snap'.Keys == snap.Keys + found
    && forall x <- snap' :: snap'[x] == if x in found then SnapshotCounter(Get(cur, x), total) else snap[x]
  }

  lemma RedoneNone(snap: map<Key, SnapshotCounter>, cur: Table, total: nat)
    ensures Redone(snap, {}, cur, total, snap)
  {
  }

  lemma RedoneMore(snap: map<Key, SnapshotCounter>, found: set<Key>, cur: Table, total: nat,
                   snap': map<Key, SnapshotCounter>, x: Key, snap'': map<Key, SnapshotCounter>)
    requires Redone(snap, found, cur, total, snap') && snap'' == snap'[x := SnapshotCounter(Get(cur, x), total)]
    ensures Redone(snap, found + {x}, cur, total, snap'')
  {
  }

  /** With the drifters recorded anew every counter is within its range again. */
  lemma RedoneIsClose(third: Third, snap: map<Key, SnapshotCounter>, base: nat, cur: Table, total: nat,
                      snap': map<Key, SnapshotCounter>)
    requires Redone(snap, Drifters(third, snap, base, cur), cur, total, snap') && snap.Keys <= cur.Keys
    ensures AllClose(third, snap', base, cur)
  {
    hide Allow;
  }

  lemma DrifterStays(third: Third, snap: map<Key, SnapshotCounter>, base: nat, cur: Table, found: set<Key>,
                     total: nat, snap': map<Key, SnapshotCounter>, x: Key)
    requires Redone(snap, found, cur, total, snap') && x in cur && x !in found
    ensures x in Drifters(third, snap, base, cur) <==> !Close(third, snap', base, x, cur[x])
  {
    hide Allow;
    assert x in snap' <==> x in snap;
  }

  lemma MoreDue(third: Third, snap: map<Key, SnapshotCounter>, base: nat, cur: Table)
    ensures |snap.Keys - cur.Keys| <= |Due(third, snap, base, cur)|
  {
    Subset(snap.Keys - cur.Keys, Due(third, snap, base, cur));
  }

  lemma LogsNew(capacity: nat, keys: set<Key>, cps: seq<Checkpoint>, n: nat, cur: Table, ts: nat, total: nat,
                cps': seq<Checkpoint>, n': nat)
    requires cps == [] || n + |keys| > capacity
    requires cps' == cps + [Checkpoint(ts, total, cur, [])] && n' == 0
    ensures LogsKeys(capacity, keys, cps, n, cur, ts, total, cps', n')
  {
  }

  lemma LogsMore(capacity: nat, keys: set<Key>, cps: seq<Checkpoint>, n: nat, cur: Table, ts: nat, total: nat,
                 cps': seq<Checkpoint>, n': nat, news: seq<Delta>)
    requires cps != [] && NewsOf(keys, news, cur, ts, total)
    requires n + |news| <= capacity && cps' == Log(cps, news) && n' == n + |news|
    ensures LogsKeys(capacity, keys, cps, n, cur, ts, total, cps', n')
  {
  }

  // ----- growing the log

  /** The estimates the whole log amounts to. */
  function Full(third: Third, cps: seq<Checkpoint>): Table
    requires cps != []
  {
    var c := cps[|cps| - 1];
    Fold(third, Opening(third, c), c.deltas)
  }

  ghost predicate DatedUpTo(cps: seq<Checkpoint>, ts: nat) {
    && (forall c <- cps :: c.ts <= ts)
    && (cps != [] ==> forall d <- cps[|cps| - 1].deltas :: d.ts <= ts)
  }

  function Log(cps: seq<Checkpoint>, news: seq<Delta>): seq<Checkpoint>
    requires cps != []
  {
    var c := cps[|cps| - 1];
    cps[..|cps| - 1] + [c.(deltas := c.deltas + news)]
  }

  /** Two logs answer every query before ts alike. */
  ghost predicate SameBefore(third: Third, cps: seq<Checkpoint>, cps': seq<Checkpoint>, ts: nat) {
    forall t: nat | t < ts :: EstimateAt(third, cps, t) == EstimateAt(third, cps', t)
  }

  lemma LogKeepsPast(third: Third, cps: seq<Checkpoint>, news: seq<Delta>, ts: nat)
    requires cps != [] && forall d <- news :: d.ts == ts
    ensures SameBefore(third, cps, Log(cps, news), ts)
  {
    var c := cps[|cps| - 1];
    assert Log(cps, news)[..|cps| - 1] == cps[..|cps| - 1];
    forall t: nat | t < ts ensures EstimateAt(third, cps, t) == EstimateAt(third, Log(cps, news), t) {
      ReplayLater(third, Opening(third, c), c.deltas, news, t);
    }
  }

  lemma CheckpointKeepsPast(third: Third, cps: seq<Checkpoint>, c: Checkpoint)
    ensures SameBefore(third, cps, cps + [c], c.ts)
  {
    assert (cps + [c])[..|cps|] == cps;
  }

  function SnapshotOf(cur: Table, total: nat): map<Key, SnapshotCounter> {
    map x | x in cur :: SnapshotCounter(Get(cur, x), total)
  }

  /** A fresh checkpoint records every counter as it is. */
  lemma FreshMatches(third: Third, cps: seq<Checkpoint>, c: Checkpoint)
    requires c.deltas == []
    ensures Matches(third, Full(third, cps + [c]), SnapshotOf(c.counts, c.total))
    ensures TotalsUpTo(SnapshotOf(c.counts, c.total), c.total)
    ensures AllClose(third, SnapshotOf(c.counts, c.total), c.total, c.counts)
  {
    hide Allow;
  }

  /** From its last entry on, the whole log is replayed. */
  lemma FullFromLast(third: Third, cps: seq<Checkpoint>, t: nat)
    requires cps != [] && DatedUpTo(cps, t)
    ensures EstimateAt(third, cps, t) == Full(third, cps)
  {
    var c := cps[|cps| - 1];
    assert c in cps;
    ReplayAll(third, Opening(third, c), c.deltas, t);
  }

  /** Recording a count in the log and in the snapshot keeps the two in step. */
  lemma RecordMatches(third: Third, t: Table, snap: map<Key, SnapshotCounter>, d: Delta)
    requires Matches(third, t, snap)
    ensures Matches(third, Apply(third, t, d), snap[d.key := SnapshotCounter(d.newCnt, d.total)])
    ensures d.newCnt == 0 ==> Matches(third, Apply(third, t, d), snap - {d.key})
  {
    hide Allow;
    var t' := Apply(third, t, d);
    forall x: Key ensures Get(t', x) == Recorded(third, snap[d.key := SnapshotCounter(d.newCnt, d.total)], x) {
      assert Get(t, x) == Recorded(third, snap, x);
    }
    forall x: Key | d.newCnt == 0 ensures Get(t', x) == Recorded(third, snap - {d.key}, x) {
      assert Get(t, x) == Recorded(third, snap, x);
    }
  }

  lemma LogNone(third: Third, cps: seq<Checkpoint>)
    requires cps != []
    ensures Log(cps, []) == cps
  {
    var c := cps[|cps| - 1];
    assert c.(deltas := c.deltas + []) == c;
  }

  lemma LogOne(third: Third, cps: seq<Checkpoint>, ds: seq<Delta>, d: Delta)
    requires cps != []
    ensures Full(third, Log(cps, ds + [d])) == Apply(third, Full(third, Log(cps, ds)), d)
  {
    var c := cps[|cps| - 1];
    var all := c.deltas + ds;
    assert c.deltas + (ds + [d]) == all + [d];
    assert (all + [d])[..|all|] == all;
  }

  // ----- which checkpoint answers

  /** A checkpoint answers for the times from its own to the next one's. */
  lemma {:induction false} Covering(third: Third, cps: seq<Checkpoint>, n: nat, t: nat)
    requires n <= |cps| && forall i :: n <= i < |cps| ==> t < cps[i].ts
    ensures EstimateAt(third, cps, t) == EstimateAt(third, cps[..n], t)
    decreases |cps| - n
  {
    if n < |cps| {
      var m := |cps| - 1;
      assert cps[..m][..n] == cps[..n];
      Covering(third, cps[..m], n, t);
    } else {
      assert cps[..n] == cps;
    }
  }

  lemma StartedPrefix(events: seq<Event>, t: nat, n: nat)
    requires n <= |events|
    ensures Started(events[..n], t) ==> Started(events, t)
  {
  }

  /** Until a positive time has come, only occurrences dated 0 have been seen. */
  lemma {:induction false} OnlyZeroDated(events: seq<Event>, t: nat)
    requires !Started(events, t)
    ensures Seen(events, t) == Seen(events, 0)
  {
    if events != [] {
      var n := |events| - 1;
      assert events[n] in events;
      StartedPrefix(events, t, n);
      OnlyZeroDated(events[..n], t);
    }
  }

  /** No key has more than the tolerated share of the occurrences. */
  ghost predicate AllLight(third: Third, h: multiset<Key>) {
    forall x: Key :: Light(third, h[x], |h|)
  }

  ghost predicate Light(third: Third, n: nat, all: nat) {
    n as real <= 3.0 * third * all as real
  }

  /** The same of the occurrences dated 0. */
  ghost predicate ZeroDatedAreLight(third: Third, events: seq<Event>) {
    AllLight(third, Seen(events, 0))
  }

  lemma EmptyIsGood(third: Third, h: multiset<Key>, x: Key)
    ensures Good(third, map[], h, x) <==> Light(third, h[x], |h|)
  {
  }

  /** Occurrences dated 0 are never checkpointed on their own: how the empty answer does before a positive time. */
  lemma EmptyIsWithin(third: Third, events: seq<Event>, t: nat)
    requires !Started(events, t)
    ensures Within(third, map[], Seen(events, t)) <==> ZeroDatedAreLight(third, events)
  {
    hide Good, Light, Started, Seen;
    OnlyZeroDated(events, t);
    var h := Seen(events, t);
    forall x: Key ensures Good(third, map[], h, x) <==> Light(third, h[x], |h|) { EmptyIsGood(third, h, x); }
    if AllLight(third, h) {
      forall x: Key ensures Good(third, map[], h, x) { assert Light(third, h[x], |h|); }
    }
    if Within(third, map[], h) {
      forall x: Key ensures Light(third, h[x], |h|) { assert Good(third, map[], h, x); }
    }
  }

  /** A single occurrence dated 0 is heavier than any tolerance below one allows. */
  lemma OneZeroDatedIsHeavy(third: Third, x: Key, e: Event)
    requires third < 1.0 / 3.0 && 0 < e.ts
    ensures !ZeroDatedAreLight(third, [Event(0, x), e])
  {
    var es := [Event(0, x), e];
    assert es[..1] == [Event(0, x)] && [Event(0, x)][..0] == [];
    assert Seen([], 0) == multiset{};
    assert Seen(es[..1], 0) == multiset{x};
    assert Seen(es, 0) == multiset{x};
    assert !Light(third, Seen(es, 0)[x], |Seen(es, 0)|);
  }

  /** Before any checkpoint the estimates are empty. */
  lemma {:induction false} EmptyBefore(third: Third, cps: seq<Checkpoint>, t: nat)
    requires forall c <- cps :: t < c.ts
    ensures EstimateAt(third, cps, t) == map[]
  {
    if cps != [] {
      var n := |cps| - 1;
      assert cps[n] in cps;
      forall c <- cps[..n] ensures c in cps {}
      EmptyBefore(third, cps[..n], t);
    }
  }

  // ----- the present

  /** The counters themselves, pending subtraction or not, are within the tolerance. */
  lemma PresentIsWithin(third: Third, k: nat, s: Summary, h: multiset<Key>)
    requires s.k == k && k as real * third >= 1.0
    requires Credit(k, s.Effective(), h) && NoOvercount(s.cnt, h)
    ensures Within(third, s.cnt, h) && Near(k, s.cnt, h)
  {
    hide Good, Owed, Summary.Effective, Times;
    forall x: Key ensures Good(third, s.cnt, h, x) && Get(s.cnt, x) <= h[x] && Times(k, h[x] - Get(s.cnt, x)) <= |h| {
      assert Owed(k, s.Effective(), h, x);
      PresentIsGood(third, k, s, h, x);
    }
  }

  lemma PresentIsGood(third: Third, k: nat, s: Summary, h: multiset<Key>, x: Key)
    requires k as real * third >= 1.0
    requires Owed(k, s.Effective(), h, x) && NoOvercount(s.cnt, h)
    ensures Good(third, s.cnt, h, x)
    ensures Get(s.cnt, x) <= h[x] && Times(k, h[x] - Get(s.cnt, x)) <= |h|
  {
    hide Sum, Times, Allow, Summary.Effective;
    AllowMonotone(third, |h|, |h|);
    EffectiveIsLess(s, x);
    var e := h[x] - Get(s.Effective(), x);
    TimesMonotone(k, h[x] - Get(s.cnt, x), e);
    ErrorSum(third, k, e, 0, |h|, h[x] - Get(s.cnt, x));
  }
}
