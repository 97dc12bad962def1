/**
 The counters of the chained Misra-Gries sketch in its new update mode (pmmg.h, pmmg.cpp):
 a pool of 2(k - 1), each in use for a stored key, kept for a key that was dropped, or free.
 */
module ChainCounters {
  import opened Products
  import opened Counts
  import opened MisraGriesSpec
  import opened Timeline
  import opened ChainLog

  /** Where the last recorded count of a counter is to be found. */
  datatype Prev = FromCheckpoint | FromDelta(cnt: nat, total: nat)

  datatype Counter = Counter(key: Key, inLast: bool, prev: Prev, c1: int, c2: int)

  type Pool = seq<Counter>

  function Without<V>(m: map<Key, V>, x: Key): map<Key, V> {
    m - {x}
  }

  /** The keys of the two heaps; the first is a max heap. */
  function MaxKey(pool: Pool): nat -> real {
    (i: nat) => if i < |pool| then -(pool[i].c1 as real) else 0.0
  }

  function MinKey(pool: Pool): nat -> real {
    (i: nat) => if i < |pool| then pool[i].c2 as real else 0.0
  }

  lemma WithoutIs<V>(m: map<Key, V>, x: Key)
    ensures Without(m, x) == m - {x}
  {
  }

  // ----- who has which counter

  ghost predicate Serves(pool: Pool, m: map<Key, nat>) {
    forall x <- m :: m[x] < |pool| && pool[m[x]].key == x
  }

  ghost predicate AllInLast(pool: Pool, m: map<Key, nat>)
    requires Serves(pool, m)
  {
    forall x <- m :: pool[m[x]].inLast
  }

  /** The free counters are different ones, not among those taken, and have no record. */
  ghost predicate Idle(pool: Pool, free: seq<nat>, taken: set<nat>) {
    && (forall i, j :: 0 <= i < j < |free| ==> free[i] != free[j])
    && (forall f <- free :: f < |pool| && !pool[f].inLast && f !in taken)
  }

  /** Every counter of the pool serves a stored key, is kept for a dropped one, or is free. */
  ghost predicate Staffed(k: nat, pool: Pool, free: seq<nat>, keyTo: map<Key, nat>, deleted: map<Key, nat>) {
    && 2 <= k && |pool| == 2 * (k - 1) == |free| + |keyTo| + |deleted|
    && Serves(pool, keyTo) && Serves(pool, deleted) && AllInLast(pool, deleted)
    && keyTo.Keys !! deleted.Keys
    && Idle(pool, free, keyTo.Values + deleted.Values)
  }

  lemma StaffedParts(k: nat, pool: Pool, free: seq<nat>, keyTo: map<Key, nat>, deleted: map<Key, nat>)
    requires Staffed(k, pool, free, keyTo, deleted)
    ensures 2 <= k && |pool| == 2 * (k - 1) == |free| + |keyTo| + |deleted|
    ensures Serves(pool, keyTo) && Serves(pool, deleted) && AllInLast(pool, deleted) && keyTo.Keys !! deleted.Keys
    ensures Idle(pool, free, keyTo.Values + deleted.Values)
  {
  }

  lemma StaffedIs(k: nat, pool: Pool, free: seq<nat>, keyTo: map<Key, nat>, deleted: map<Key, nat>, taken: set<nat>)
    requires 2 <= k && |pool| == 2 * (k - 1) == |free| + |keyTo| + |deleted|
    requires Serves(pool, keyTo) && Serves(pool, deleted) && AllInLast(pool, deleted) && keyTo.Keys !! deleted.Keys
    requires taken == keyTo.Values + deleted.Values && Idle(pool, free, taken)
    ensures Staffed(k, pool, free, keyTo, deleted)
  {
  }

  lemma OneMoves(a: set<nat>, b: set<nat>, i: nat)
    ensures i in a ==> (a - {i}) + (b + {i}) == a + b && (b + {i}) + (a - {i}) == b + a
    ensures i in a && i !in b ==> (a - {i}) + b == (a + b) - {i} && b + (a - {i}) == (b + a) - {i}
    ensures (a + {i}) + b == (a + b) + {i}
  {
  }

  lemma KeysMove(a: map<Key, nat>, b: map<Key, nat>, x: Key, i: nat)
    requires a.Keys !! b.Keys
    ensures (a - {x}).Keys !! b[x := i].Keys && b[x := i].Keys !! (a - {x}).Keys
    ensures (a - {x}).Keys !! b.Keys && b.Keys !! (a - {x}).Keys
    ensures x !in b ==> a[x := i].Keys !! b.Keys
  {
  }

  lemma ServedBy(pool: Pool, m: map<Key, nat>, i: nat)
    requires Serves(pool, m) && i in m.Values
    ensures i < |pool| && pool[i].key in m && m[pool[i].key] == i
  {
    var x :| x in m && m[x] == i;
  }

  /** A counter serves one key. */
  lemma ApartServe(pool: Pool, a: map<Key, nat>, b: map<Key, nat>)
    requires Serves(pool, a) && Serves(pool, b) && a.Keys !! b.Keys
    ensures a.Values !! b.Values
  {
    forall i | i in a.Values && i in b.Values ensures false {
      ServedBy(pool, a, i);
      ServedBy(pool, b, i);
    }
  }

  lemma ServesStill(pool: Pool, m: map<Key, nat>, i: nat, c: Counter)
    requires Serves(pool, m) && i < |pool| && i !in m.Values
    ensures Serves(pool[i := c], m) && (AllInLast(pool, m) ==> AllInLast(pool[i := c], m))
  {
    forall x <- m ensures m[x] != i { assert m[x] in m.Values; }
  }

  lemma ServesAlso(pool: Pool, m: map<Key, nat>, i: nat, x: Key)
    requires Serves(pool, m) && i < |pool| && i !in m.Values && pool[i].key == x && x !in m
    ensures Serves(pool, m[x := i]) && m[x := i].Values == m.Values + {i} && |m[x := i]| == |m| + 1
    ensures AllInLast(pool, m) && pool[i].inLast ==> AllInLast(pool, m[x := i])
  {
    ValuesAdd(m, x, i);
  }

  lemma ServesLess(pool: Pool, m: map<Key, nat>, x: Key)
    requires Serves(pool, m) && x in m
    ensures m[x] in m.Values && Serves(pool, m - {x}) && (m - {x}).Values == m.Values - {m[x]} && |m - {x}| == |m| - 1
    ensures AllInLast(pool, m) ==> AllInLast(pool, m - {x})
  {
    assert m[x] in m.Values;
    ValuesDrop(m, x);
  }

  lemma ValuesDrop(m: map<Key, nat>, x: Key)
    requires x in m && forall y, z :: y in m && z in m && m[y] == m[z] ==> y == z
    ensures (m - {x}).Values == m.Values - {m[x]}
    ensures |m - {x}| == |m| - 1
  {
    var r := m - {x};
    forall v ensures v in r.Values <==> v in m.Values - {m[x]} {
      if v in m.Values - {m[x]} {
        var y :| y in m && m[y] == v;
        assert r[y] == v;
      }
    }
    assert m.Keys == r.Keys + {x};
    assert |m| == |m.Keys| && |r| == |r.Keys|;
  }

  lemma ValuesAdd(m: map<Key, nat>, x: Key, i: nat)
    requires x !in m
    ensures m[x := i].Values == m.Values + {i}
    ensures |m[x := i]| == |m| + 1
  {
    var r := m[x := i];
    assert r[x] == i;
    forall v ensures v in r.Values <==> v in m.Values + {i} {
      if v in m.Values { var y :| y in m && m[y] == v; assert r[y] == v; }
    }
    assert r.Keys == m.Keys + {x};
    assert |m| == |m.Keys| && |r| == |r.Keys|;
  }

  lemma IdleStill(pool: Pool, free: seq<nat>, taken: set<nat>, i: nat, c: Counter)
    requires Idle(pool, free, taken) && i < |pool| && (i in taken || !c.inLast)
    ensures Idle(pool[i := c], free, taken)
  {
  }

  lemma IdleAlso(pool: Pool, free: seq<nat>, taken: set<nat>, i: nat)
    requires Idle(pool, free, taken) && i < |pool| && i in taken && !pool[i].inLast
    ensures Idle(pool, [i] + free, taken - {i})
  {
    forall f <- free ensures f != i {}
  }

  lemma IdleLess(pool: Pool, free: seq<nat>, taken: set<nat>)
    requires Idle(pool, free, taken) && free != []
    ensures free[0] < |pool| && !pool[free[0]].inLast && free[0] !in taken && Idle(pool, free[1..], taken + {free[0]})
  {
    assert free[0] in free;
    forall f <- free[1..] ensures f in free && f != free[0] {}
  }

  lemma LiveIs(k: nat, pool: Pool, free: seq<nat>, keyTo: map<Key, nat>, deleted: map<Key, nat>, i: nat)
    requires Staffed(k, pool, free, keyTo, deleted) && i in keyTo.Values
    ensures i < |pool| && pool[i].key in keyTo && keyTo[pool[i].key] == i && i !in deleted.Values
  {
    ServedBy(pool, keyTo, i);
    ApartServe(pool, keyTo, deleted);
  }

  /** Changing what a live counter says, but not whose it is, changes no staffing. */
  lemma Retuned(k: nat, pool: Pool, free: seq<nat>, keyTo: map<Key, nat>, deleted: map<Key, nat>, i: nat, c: Counter)
    requires Staffed(k, pool, free, keyTo, deleted) && i in keyTo.Values && i < |pool| && c.key == pool[i].key
    ensures Staffed(k, pool[i := c], free, keyTo, deleted)
  {
    hide Idle;
    LiveIs(k, pool, free, keyTo, deleted, i);
    ServesStill(pool, deleted, i, c);
    IdleStill(pool, free, keyTo.Values + deleted.Values, i, c);
  }

  /** The counter of a dropped key is kept if its count was recorded, and freed otherwise. */
  lemma DropStaffed(k: nat, pool: Pool, free: seq<nat>, keyTo: map<Key, nat>, deleted: map<Key, nat>, x: Key, i: nat)
    requires Staffed(k, pool, free, keyTo, deleted) && x in keyTo && i == keyTo[x]
    ensures i < |pool| && i in keyTo.Values && Without(keyTo, x).Values == keyTo.Values - {i}
    ensures if pool[i].inLast then Staffed(k, pool, free, Without(keyTo, x), deleted[x := i])
            else Staffed(k, pool, [i] + free, Without(keyTo, x), deleted)
  {
    hide *;
    StaffedParts(k, pool, free, keyTo, deleted);
    WithoutIs(keyTo, x);
    var all := keyTo.Values + deleted.Values;
    ServesLess(pool, keyTo, x);
    LiveIs(k, pool, free, keyTo, deleted, i);
    assert pool[i].key == x by { ServedKey(pool, keyTo, x); }
    if pool[i].inLast {
      ServesAlso(pool, deleted, i, x);
      OneMoves(keyTo.Values, deleted.Values, i);
      KeysMove(keyTo, deleted, x, i);
      StaffedIs(k, pool, free, keyTo - {x}, deleted[x := i], all);
    } else {
      IdleAlso(pool, free, all, i);
      OneMoves(keyTo.Values, deleted.Values, i);
      KeysMove(keyTo, deleted, x, i);
      StaffedIs(k, pool, [i] + free, keyTo - {x}, deleted, all - {i});
    }
  }

  lemma ServedKey(pool: Pool, m: map<Key, nat>, x: Key)
    requires Serves(pool, m) && x in m
    ensures m[x] < |pool| && pool[m[x]].key == x && m[x] in m.Values
  {
  }

  /** At a boundary the counter of a dropped key becomes free. */
  lemma ReleaseStaffed(k: nat, pool: Pool, free: seq<nat>, keyTo: map<Key, nat>, deleted: map<Key, nat>, x: Key,
                       i: nat, c: Counter)
    requires Staffed(k, pool, free, keyTo, deleted) && x in deleted && i == deleted[x] && i < |pool|
        && c == pool[i].(inLast := false)
    ensures i !in keyTo.Values && Staffed(k, pool[i := c], [i] + free, keyTo, Without(deleted, x))
        && |Without(deleted, x)| + 1 == |deleted|
  {
    hide *;
    StaffedParts(k, pool, free, keyTo, deleted);
    var all := keyTo.Values + deleted.Values;
    ServesLess(pool, deleted, x);
    ApartServe(pool, keyTo, deleted);
    ServesStill(pool, keyTo, i, c);
    ServesStill(pool, deleted - {x}, i, c);
    IdleStill(pool, free, all, i, c);
    IdleAlso(pool[i := c], free, all, i);
    OneMoves(deleted.Values, keyTo.Values, i);
    KeysMove(deleted, keyTo, x, i);
    StaffedIs(k, pool[i := c], [i] + free, keyTo, deleted - {x}, all - {i});
    WithoutIs(deleted, x);
  }

  /** A dropped key that comes back gets its counter back. */
  lemma RestoreStaffed(k: nat, pool: Pool, free: seq<nat>, keyTo: map<Key, nat>, deleted: map<Key, nat>, x: Key,
                       i: nat, c: Counter)
    requires Staffed(k, pool, free, keyTo, deleted) && x in deleted && i == deleted[x] && c.key == x
    ensures i < |pool| && i !in keyTo.Values && keyTo[x := i].Values == keyTo.Values + {i}
    ensures Staffed(k, pool[i := c], free, keyTo[x := i], Without(deleted, x))
  {
    hide *;
    StaffedParts(k, pool, free, keyTo, deleted);
    WithoutIs(deleted, x);
    var all := keyTo.Values + deleted.Values;
    ServedKey(pool, deleted, x);
    ServesLess(pool, deleted, x);
    ApartServe(pool, keyTo, deleted);
    ServesStill(pool, keyTo, i, c);
    ServesStill(pool, deleted - {x}, i, c);
    ServesAlso(pool[i := c], keyTo, i, x);
    IdleStill(pool, free, all, i, c);
    OneMoves(deleted.Values, keyTo.Values, i);
    KeysMove(deleted, keyTo, x, i);
    StaffedIs(k, pool[i := c], free, keyTo[x := i], deleted - {x}, all);
  }

  /** A new key takes a free counter. */
  lemma HireStaffed(k: nat, pool: Pool, free: seq<nat>, keyTo: map<Key, nat>, deleted: map<Key, nat>, x: Key, i: nat,
                    c: Counter)
    requires Staffed(k, pool, free, keyTo, deleted) && x !in keyTo && x !in deleted && free != [] && i == free[0]
        && c.key == x
    ensures i < |pool| && i !in keyTo.Values && i !in deleted.Values && keyTo[x := i].Values == keyTo.Values + {i}
    ensures Staffed(k, pool[i := c], free[1..], keyTo[x := i], deleted)
  {
    hide *;
    StaffedParts(k, pool, free, keyTo, deleted);
    var all := keyTo.Values + deleted.Values;
    IdleLess(pool, free, all);
    ServesStill(pool, keyTo, i, c);
    ServesStill(pool, deleted, i, c);
    ServesAlso(pool[i := c], keyTo, i, x);
    IdleStill(pool, free[1..], all + {i}, i, c);
    OneMoves(keyTo.Values, deleted.Values, i);
    KeysMove(keyTo, deleted, x, i);
    StaffedIs(k, pool[i := c], free[1..], keyTo[x := i], deleted, all + {i});
  }

  /** The pool never runs out: stored keys and recorded keys are fewer than k each. */
  lemma SomeoneFree(k: nat, pool: Pool, free: seq<nat>, keyTo: map<Key, nat>, deleted: map<Key, nat>,
                    snap: map<Key, SnapshotCounter>)
    requires Staffed(k, pool, free, keyTo, deleted)
    requires |keyTo| < k - 1 && deleted.Keys <= snap.Keys && |snap| <= k - 1
    ensures free != []
  {
    Subset(deleted.Keys, snap.Keys);
    assert |deleted| == |deleted.Keys| && |snap| == |snap.Keys|;
  }

  // ----- what the counters say

  function Base(snap: map<Key, SnapshotCounter>, x: Key): nat {
    if x in snap then snap[x].cnt else 0
  }

  /** What the counter of x may drift from its record. */
  function Slack(third: Third, cps: seq<Checkpoint>, snap: map<Key, SnapshotCounter>, x: Key): nat {
    Allow(third, if x in snap then snap[x].lastTotal else BaseTotal(cps))
  }

  /** c1 and c2 of a counter whose key counts v, with s subtracted so far. */
  ghost predicate TunedAt(third: Third, cps: seq<Checkpoint>, snap: map<Key, SnapshotCounter>, c: Counter, v: nat,
                          s: nat)
  {
    var b, d := Base(snap, c.key), Slack(third, cps, snap, c.key);
    c.c1 == v + s - b - d && c.c2 == v + s - b + d
  }

  ghost predicate Tuned(third: Third, cps: seq<Checkpoint>, snap: map<Key, SnapshotCounter>, pool: Pool,
                        keyTo: map<Key, nat>, cnt: Table, s: nat)
  {
    forall x <- keyTo :: keyTo[x] < |pool| && pool[keyTo[x]].key == x
      && TunedAt(third, cps, snap, pool[keyTo[x]], Get(cnt, x), s)
  }

  /** The record a counter points to. */
  ghost predicate Resolves(cps: seq<Checkpoint>, snap: map<Key, SnapshotCounter>, c: Counter) {
    && c.key in snap
    && match c.prev
       case FromCheckpoint => cps != [] && c.key in cps[|cps| - 1].counts
                              && snap[c.key] == SnapshotCounter(cps[|cps| - 1].counts[c.key], cps[|cps| - 1].total)
       case FromDelta(cnt, total) => snap[c.key] == SnapshotCounter(cnt, total)
  }

  /** A counter points to a record exactly if its key has one. */
  ghost predicate Linked(cps: seq<Checkpoint>, snap: map<Key, SnapshotCounter>, pool: Pool, keyTo: map<Key, nat>,
                         deleted: map<Key, nat>)
  {
    && snap.Keys <= keyTo.Keys + deleted.Keys
    && (forall x <- keyTo :: keyTo[x] < |pool| && (pool[keyTo[x]].inLast <==> x in snap))
    && (forall x <- keyTo :: x in snap ==> Resolves(cps, snap, pool[keyTo[x]]))
    && (forall x <- deleted :: deleted[x] < |pool| && Resolves(cps, snap, pool[deleted[x]]))
  }

  // ----- how the steps keep the counters in tune

  lemma {:induction false} ValuesCount(pool: Pool, m: map<Key, nat>)
    requires Serves(pool, m)
    ensures |m.Values| == |m|
    decreases |m|
  {
    if m == map[] {
    } else {
      var x :| x in m;
      ServesLess(pool, m, x);
      ValuesCount(pool, m - {x});
      assert m.Values == (m.Values - {m[x]}) + {m[x]};
    }
  }

  /** Another counter than i serves every key but the one i serves. */
  lemma OthersStay(pool: Pool, m: map<Key, nat>, i: nat, c: Counter, x: Key)
    requires Serves(pool, m) && i < |pool| && x in m && pool[i].key != x
    ensures m[x] < |pool| && pool[i := c][m[x]] == pool[m[x]]
  {
  }

  /** A count is recorded as it is: the counter has not drifted at all. */
  lemma RecordTunes(third: Third, cps: seq<Checkpoint>, snap: map<Key, SnapshotCounter>, pool: Pool,
                    keyTo: map<Key, nat>, cnt: Table, s: nat,
                    i: nat, c: Counter, v: nat, delta: nat, total: nat)
    requires Tuned(third, cps, snap, pool, keyTo, cnt, s) && Serves(pool, keyTo) && c.key in keyTo && keyTo[c.key] == i
    requires v + delta == Get(cnt, c.key) && c.c1 == s + delta - Allow(third, total)
        && c.c2 == s + delta + Allow(third, total)
    ensures i < |pool| && Tuned(third, cps, snap[c.key := SnapshotCounter(v, total)], pool[i := c], keyTo, cnt, s)
  {
    hide Allow;
    var snap', pool' := snap[c.key := SnapshotCounter(v, total)], pool[i := c];
    forall y <- keyTo ensures keyTo[y] < |pool'| && pool'[keyTo[y]].key == y
      && TunedAt(third, cps, snap', pool'[keyTo[y]], Get(cnt, y), s) {
      assert TunedAt(third, cps, snap, pool[keyTo[y]], Get(cnt, y), s);
      if y != c.key { OthersStay(pool, keyTo, i, c, y); }
    }
  }

  lemma RecordLinks(cps: seq<Checkpoint>, snap: map<Key, SnapshotCounter>, pool: Pool, keyTo: map<Key, nat>,
                    deleted: map<Key, nat>,
                    i: nat, c: Counter, v: nat, total: nat)
    requires Linked(cps, snap, pool, keyTo, deleted) && Serves(pool, keyTo) && Serves(pool, deleted)
        && keyTo.Keys !! deleted.Keys
    requires c.key in keyTo && keyTo[c.key] == i && c.inLast && c.prev == FromDelta(v, total)
    ensures i < |pool| && Linked(cps, snap[c.key := SnapshotCounter(v, total)], pool[i := c], keyTo, deleted)
  {
    var snap', pool' := snap[c.key := SnapshotCounter(v, total)], pool[i := c];
    forall y <- keyTo ensures keyTo[y] < |pool'| && (pool'[keyTo[y]].inLast <==> y in snap')
      && (y in snap' ==> Resolves(cps, snap', pool'[keyTo[y]])) {
      if y != c.key { OthersStay(pool, keyTo, i, c, y); }
    }
    forall y <- deleted ensures deleted[y] < |pool'| && Resolves(cps, snap', pool'[deleted[y]]) {
      OthersStay(pool, deleted, i, c, y);
    }
  }

  /** A record of a dropped key is withdrawn. */
  lemma ReleaseLinks(cps: seq<Checkpoint>, snap: map<Key, SnapshotCounter>, pool: Pool, keyTo: map<Key, nat>,
                     deleted: map<Key, nat>, x: Key,
                     i: nat, c: Counter)
    requires Linked(cps, snap, pool, keyTo, deleted) && Serves(pool, keyTo) && Serves(pool, deleted)
        && keyTo.Keys !! deleted.Keys
    requires x in deleted && i == deleted[x] && i < |pool| && c == pool[i].(inLast := false)
    ensures Linked(cps, Without(snap, x), pool[i := c], keyTo, Without(deleted, x))
  {
    var pool' := pool[i := c];
    forall y <- keyTo ensures keyTo[y] < |pool'| && (pool'[keyTo[y]].inLast <==> y in snap - {x})
      && (y in snap - {x} ==> Resolves(cps, snap - {x}, pool'[keyTo[y]])) {
      OthersStay(pool, keyTo, i, c, y);
    }
    forall y <- deleted - {x} ensures deleted[y] < |pool'| && Resolves(cps, snap - {x}, pool'[deleted[y]]) {
      OthersStay(pool, deleted, i, c, y);
    }
  }

  lemma ReleaseTunes(third: Third, cps: seq<Checkpoint>, snap: map<Key, SnapshotCounter>, pool: Pool,
                     keyTo: map<Key, nat>, deleted: map<Key, nat>,
                     cnt: Table, s: nat, x: Key, i: nat, c: Counter)
    requires Tuned(third, cps, snap, pool, keyTo, cnt, s)
    requires Serves(pool, keyTo) && Serves(pool, deleted) && keyTo.Keys !! deleted.Keys
    requires x in deleted && i == deleted[x] && i < |pool| && c == pool[i].(inLast := false)
    ensures Tuned(third, cps, Without(snap, x), pool[i := c], keyTo, cnt, s)
  {
    hide Allow;
    var pool' := pool[i := c];
    forall y <- keyTo ensures keyTo[y] < |pool'| && pool'[keyTo[y]].key == y
      && TunedAt(third, cps, snap - {x}, pool'[keyTo[y]], Get(cnt, y), s) {
      OthersStay(pool, keyTo, i, c, y);
    }
  }

  lemma DropTunes(third: Third, cps: seq<Checkpoint>, snap: map<Key, SnapshotCounter>, pool: Pool,
                  keyTo: map<Key, nat>, cnt: Table, s: nat, x: Key)
    requires Tuned(third, cps, snap, pool, keyTo, cnt, s)
    ensures Tuned(third, cps, snap, pool, Without(keyTo, x), cnt, s)
  {
  }

  lemma DropLinks(cps: seq<Checkpoint>, snap: map<Key, SnapshotCounter>, pool: Pool, keyTo: map<Key, nat>,
                  deleted: map<Key, nat>, x: Key, i: nat)
    requires Linked(cps, snap, pool, keyTo, deleted) && x in keyTo && i == keyTo[x]
    ensures i < |pool| && (if pool[i].inLast then Linked(cps, snap, pool, Without(keyTo, x), deleted[x := i])
        else Linked(cps, snap, pool, Without(keyTo, x), deleted))
  {
    hide Resolves;
    if pool[i].inLast {
      var deleted' := deleted[x := i];
      forall y <- deleted' ensures deleted'[y] < |pool| && Resolves(cps, snap, pool[deleted'[y]]) {}
    } else {
      assert x !in snap;
    }
  }

  lemma BumpTunes(third: Third, cps: seq<Checkpoint>, snap: map<Key, SnapshotCounter>, pool: Pool,
                  keyTo: map<Key, nat>, cnt: Table, s: nat,
                  x: Key, i: nat, c: Counter, cnt': Table)
    requires Tuned(third, cps, snap, pool, keyTo, cnt, s) && Serves(pool, keyTo) && x in keyTo && x in cnt
        && i == keyTo[x] && i < |pool|
    requires c == pool[i].(c1 := pool[i].c1 + 1, c2 := pool[i].c2 + 1) && cnt' == cnt[x := cnt[x] + 1]
    ensures Tuned(third, cps, snap, pool[i := c], keyTo, cnt', s)
  {
    hide Allow;
    var pool' := pool[i := c];
    forall y <- keyTo ensures keyTo[y] < |pool'| && pool'[keyTo[y]].key == y
      && TunedAt(third, cps, snap, pool'[keyTo[y]], Get(cnt', y), s) {
      assert TunedAt(third, cps, snap, pool[keyTo[y]], Get(cnt, y), s);
      if y != x { OthersStay(pool, keyTo, i, c, y); }
    }
  }

  /** Changing c1 and c2 leaves the records alone. */
  lemma BumpLinks(cps: seq<Checkpoint>, snap: map<Key, SnapshotCounter>, pool: Pool, keyTo: map<Key, nat>,
                  deleted: map<Key, nat>, i: nat, c: Counter)
    requires Linked(cps, snap, pool, keyTo, deleted) && i < |pool| && c == pool[i].(c1 := c.c1, c2 := c.c2)
    ensures Linked(cps, snap, pool[i := c], keyTo, deleted)
  {
    assert Resolves(cps, snap, c) == Resolves(cps, snap, pool[i]);
  }

  /** A new key counting one gets a counter tuned to its record, if it has one. */
  lemma AddTunes(third: Third, cps: seq<Checkpoint>, snap: map<Key, SnapshotCounter>, pool: Pool, keyTo: map<Key, nat>,
                 cnt: Table, s: nat,
                 x: Key, i: nat, c: Counter)
    requires Tuned(third, cps, snap, pool, keyTo, cnt, s) && i < |pool| && i !in keyTo.Values && c.key == x
        && x !in keyTo
    requires TunedAt(third, cps, snap, c, 1, s)
    ensures Tuned(third, cps, snap, pool[i := c], keyTo[x := i], cnt[x := 1], s)
  {
    hide Allow, TunedAt;
    var pool', keyTo', cnt' := pool[i := c], keyTo[x := i], cnt[x := 1];
    forall y <- keyTo' ensures keyTo'[y] < |pool'| && pool'[keyTo'[y]].key == y
      && TunedAt(third, cps, snap, pool'[keyTo'[y]], Get(cnt', y), s) {
      if y != x { assert keyTo[y] in keyTo.Values; }
    }
  }

  lemma RestoreLinks(cps: seq<Checkpoint>, snap: map<Key, SnapshotCounter>, pool: Pool, keyTo: map<Key, nat>,
                     deleted: map<Key, nat>,
                     x: Key, i: nat, c: Counter)
    requires Linked(cps, snap, pool, keyTo, deleted) && Serves(pool, keyTo) && Serves(pool, deleted)
        && AllInLast(pool, deleted)
    requires keyTo.Keys !! deleted.Keys && x in deleted && i == deleted[x] && i < |pool|
        && c == pool[i].(c1 := c.c1, c2 := c.c2)
    ensures Linked(cps, snap, pool[i := c], keyTo[x := i], Without(deleted, x))
  {
    hide Resolves;
    BumpLinks(cps, snap, pool, keyTo, deleted, i, c);
    ResolvesAlike(cps, snap, pool[i], c);
  }

  lemma ResolvesAlike(cps: seq<Checkpoint>, snap: map<Key, SnapshotCounter>, a: Counter, c: Counter)
    requires c == a.(c1 := c.c1, c2 := c.c2)
    ensures Resolves(cps, snap, c) == Resolves(cps, snap, a) && (Resolves(cps, snap, a) ==> a.key in snap)
  {
  }

  lemma HireLinks(cps: seq<Checkpoint>, snap: map<Key, SnapshotCounter>, pool: Pool, keyTo: map<Key, nat>,
                  deleted: map<Key, nat>,
                  x: Key, i: nat, c: Counter)
    requires Linked(cps, snap, pool, keyTo, deleted) && i < |pool| && i !in keyTo.Values && i !in deleted.Values
    requires c.key == x && x !in keyTo && x !in deleted && !c.inLast
    ensures Linked(cps, snap, pool[i := c], keyTo[x := i], deleted) && x !in snap
  {
    hide Resolves;
    assert x !in snap;
    var pool', keyTo' := pool[i := c], keyTo[x := i];
    forall y <- keyTo' ensures keyTo'[y] < |pool'| && (pool'[keyTo'[y]].inLast <==> y in snap)
      && (y in snap ==> Resolves(cps, snap, pool'[keyTo'[y]])) {
      if y != x { assert keyTo[y] in keyTo.Values; }
    }
    forall y <- deleted ensures deleted[y] < |pool'|
      && Resolves(cps, snap, pool'[deleted[y]]) { assert deleted[y] in deleted.Values; }
  }

  /** At a checkpoint every counter starts anew from it. */
  ghost predicate Renewed(pool: Pool, keyTo: map<Key, nat>, d: nat) {
    forall x <- keyTo :: keyTo[x] < |pool| && pool[keyTo[x]].key == x && Anew(pool[keyTo[x]], d)
  }

  ghost predicate Anew(c: Counter, d: nat) {
    c.inLast && c.prev == FromCheckpoint && c.c1 == -(d as int) && c.c2 == d
  }

  lemma RenewedIsInTune(third: Third, cps: seq<Checkpoint>, c: Checkpoint, snap: map<Key, SnapshotCounter>, pool: Pool,
                        keyTo: map<Key, nat>, deleted: map<Key, nat>)
    requires cps != [] && cps[|cps| - 1] == c && snap == SnapshotOf(c.counts, c.total) && deleted == map[]
    requires Renewed(pool, keyTo, Allow(third, c.total)) && keyTo.Keys == c.counts.Keys
    ensures Tuned(third, cps, snap, pool, keyTo, c.counts, 0)
    ensures Linked(cps, snap, pool, keyTo, deleted)
  {
    hide Allow;
    assert snap.Keys == c.counts.Keys;
  }

  lemma RenewedStill(was: Pool, pool: Pool, keyTo: map<Key, nat>, d: nat, i: nat)
    requires Renewed(was, keyTo, d) && i < |was| == |pool| && pool == was[i := pool[i]] && i !in keyTo.Values
    ensures Renewed(pool, keyTo, d)
  {
    forall x <- keyTo ensures keyTo[x] != i { assert keyTo[x] in keyTo.Values; }
  }

  lemma SnapshotFacts(third: Third, cps: seq<Checkpoint>, c: Checkpoint, h: multiset<Key>)
    requires NoOvercount(c.counts, h)
    ensures var snap := SnapshotOf(c.counts, c.total);
            && RecordedUpTo(snap, h) && |snap| == |c.counts|
            && NoneAbove(third, cps + [c], snap, c.counts) && NoneBelow(third, cps + [c], snap, c.counts)
  {
    hide Allow;
    var snap := SnapshotOf(c.counts, c.total);
    assert snap.Keys == c.counts.Keys;
    assert |snap| == |snap.Keys| && |c.counts| == |c.counts.Keys|;
  }

  /** More deltas on the last checkpoint leave its counts and its total alone. */
  lemma LoggedStaysInTune(third: Third, cps: seq<Checkpoint>, news: seq<Delta>, snap: map<Key, SnapshotCounter>,
                          pool: Pool,
                          keyTo: map<Key, nat>, deleted: map<Key, nat>, cnt: Table, s: nat)
    requires cps != [] && Tuned(third, cps, snap, pool, keyTo, cnt, s) && Linked(cps, snap, pool, keyTo, deleted)
    ensures Tuned(third, Log(cps, news), snap, pool, keyTo, cnt, s)
        && Linked(Log(cps, news), snap, pool, keyTo, deleted)
    ensures forall cur :: NoneAbove(third, cps, snap, cur) ==> NoneAbove(third, Log(cps, news), snap, cur)
    ensures forall cur :: NoneBelow(third, cps, snap, cur) ==> NoneBelow(third, Log(cps, news), snap, cur)
  {
    hide Allow;
    var cps' := Log(cps, news);
    assert cps'[|cps'| - 1].counts == cps[|cps| - 1].counts && cps'[|cps'| - 1].total == cps[|cps| - 1].total;
    assert forall x :: Slack(third, cps', snap, x) == Slack(third, cps, snap, x);
    forall x <- keyTo ensures TunedAt(third, cps', snap, pool[keyTo[x]], Get(cnt, x), s) {
      assert TunedAt(third, cps, snap, pool[keyTo[x]], Get(cnt, x), s);
    }
    forall cur | NoneAbove(third, cps, snap, cur) ensures NoneAbove(third, cps', snap, cur) {
      forall x ensures NotAbove(third, cps', snap, x, Get(cur, x)) {
        assert NotAbove(third, cps, snap, x, Get(cur, x));
      }
    }
  }

  // ----- why the log is good enough

  /** The count v of key x has not risen above what its record allows. */
  ghost predicate NotAbove(third: Third, cps: seq<Checkpoint>, snap: map<Key, SnapshotCounter>, x: Key, v: nat) {
    v <= Base(snap, x) + Slack(third, cps, snap, x)
  }

  ghost predicate NoneAbove(third: Third, cps: seq<Checkpoint>, snap: map<Key, SnapshotCounter>, cur: Table) {
    forall x: Key :: NotAbove(third, cps, snap, x, Get(cur, x))
  }

  /** The count of key x has not fallen below what its record allows. */
  ghost predicate NoneBelow(third: Third, cps: seq<Checkpoint>, snap: map<Key, SnapshotCounter>, cur: Table) {
    forall x: Key :: Base(snap, x) <= Get(cur, x) + Slack(third, cps, snap, x)
  }

  ghost predicate RecordedUpTo(snap: map<Key, SnapshotCounter>, h: multiset<Key>) {
    forall x <- snap :: snap[x].cnt <= h[x]
  }

  /**
   No overestimate and no large underestimate, even when recorded counts have since fallen:
   a recorded count was never above the true one, which only grows.
   */
  lemma NotAboveIsWithin(third: Third, k: nat, est: Table, cps: seq<Checkpoint>, snap: map<Key, SnapshotCounter>,
                         cur: Table, h: multiset<Key>)
    requires k as real * third >= 1.0 && Credit(k, cur, h)
    requires Matches(third, est, snap) && NoneAbove(third, cps, snap, cur) && RecordedUpTo(snap, h)
    requires BaseTotal(cps) <= |h| && TotalsUpTo(snap, |h|)
    ensures Within(third, est, h)
  {
    hide Good, Owed, NotAbove, Recorded;
    forall x: Key ensures Good(third, est, h, x) {
      assert Owed(k, cur, h, x);
      assert Get(est, x) == Recorded(third, snap, x);
      assert NotAbove(third, cps, snap, x, Get(cur, x));
      NotAboveIsGood(third, k, est, cps, snap, Get(cur, x), cur, h, x);
    }
  }

  lemma NotAboveIsGood(third: Third, k: nat, est: Table, cps: seq<Checkpoint>, snap: map<Key, SnapshotCounter>, v: nat,
                       cur: Table, h: multiset<Key>, x: Key)
    requires k as real * third >= 1.0 && Owed(k, cur, h, x) && v == Get(cur, x)
    requires Get(est, x) == Recorded(third, snap, x) && NotAbove(third, cps, snap, x, v)
    requires x in snap ==> snap[x].cnt <= h[x] && snap[x].lastTotal <= |h|
    requires BaseTotal(cps) <= |h|
    ensures Good(third, est, h, x)
  {
    hide Allow, Sum, Times, Good;
    AllowGrows(third, if x in snap then snap[x].lastTotal else BaseTotal(cps), |h|);
    AllowedIsGood(third, k, est, h, x, h[x] - v);
  }

  /** Counters at most at the pending amount have not risen above their records. */
  lemma TunedIsNotAbove(third: Third, cps: seq<Checkpoint>, snap: map<Key, SnapshotCounter>, pool: Pool,
                        keyTo: map<Key, nat>, s: Summary, sub: nat)
    requires Tuned(third, cps, snap, pool, keyTo, s.cnt, sub) && keyTo.Keys == s.cnt.Keys
    requires forall x <- keyTo :: pool[keyTo[x]].c1 <= sub + s.delta
    ensures NoneAbove(third, cps, snap, s.Effective())
  {
    hide Allow;
    forall x: Key ensures NotAbove(third, cps, snap, x, Get(s.Effective(), x)) {
      if x in keyTo { assert TunedAt(third, cps, snap, pool[keyTo[x]], Get(s.cnt, x), sub); }
    }
  }

  lemma TunedIsNotBelow(third: Third, cps: seq<Checkpoint>, snap: map<Key, SnapshotCounter>, pool: Pool,
                        keyTo: map<Key, nat>, s: Summary, sub: nat)
    requires Tuned(third, cps, snap, pool, keyTo, s.cnt, sub) && keyTo.Keys == s.cnt.Keys && snap.Keys <= keyTo.Keys
    requires forall x <- keyTo :: pool[keyTo[x]].c2 >= sub + s.delta && s.cnt[x] > s.delta
    ensures NoneBelow(third, cps, snap, s.Effective())
  {
    hide Allow;
    forall x: Key ensures Base(snap, x) <= Get(s.Effective(), x) + Slack(third, cps, snap, x) {
      if x in keyTo { assert TunedAt(third, cps, snap, pool[keyTo[x]], Get(s.cnt, x), sub); }
    }
  }

  // ----- what a change of timestamp records

  /** The counts that have risen above what their records allow. */
  ghost function Risers(third: Third, base: nat, snap: map<Key, SnapshotCounter>, cur: Table): set<Key> {
    set x | x in cur && cur[x] > Base(snap, x) && !Close(third, snap, base, x, cur[x])
  }

  /** The two sides of a counter show whether its count has left the range its record allows, and on which side. */
  lemma SidesShow(third: Third, cps: seq<Checkpoint>, snap: map<Key, SnapshotCounter>, pool: Pool,
                  keyTo: map<Key, nat>, s: Summary, sub: nat, x: Key)
    requires Tuned(third, cps, snap, pool, keyTo, s.cnt, sub) && x in keyTo && x in s.cnt && s.cnt[x] > s.delta
    ensures var i, v := keyTo[x], s.cnt[x] - s.delta;
            && i < |pool| && x in s.Effective() && s.Effective()[x] == v
            && (Close(third, snap, BaseTotal(cps), x, v) <==> pool[i].c1 <= sub + s.delta <= pool[i].c2)
            && (pool[i].c1 > sub + s.delta ==> v > Base(snap, x))
            && (pool[i].c2 < sub + s.delta ==> v < Base(snap, x))
  {
    hide Allow;
    assert TunedAt(third, cps, snap, pool[keyTo[x]], Get(s.cnt, x), sub);
  }

  /** The keys found so far are recorded anew and listed, each once. */
  ghost predicate Listed(third: Third, snap: map<Key, SnapshotCounter>, base: nat, cur: Table, ts: nat, total: nat,
                         found: set<Key>, news: seq<Delta>, snap': map<Key, SnapshotCounter>)
  {
    && found <= Drifters(third, snap, base, cur)
    && Redone(snap, found, cur, total, snap')
    && NewsOf(found, news, cur, ts, total)
  }

  lemma ListedNone(third: Third, snap: map<Key, SnapshotCounter>, base: nat, cur: Table, ts: nat, total: nat)
    ensures Listed(third, snap, base, cur, ts, total, {}, [], snap)
  {
    hide *;
    NoNews(cur, ts, total);
    RedoneNone(snap, cur, total);
    ListedIs(third, snap, base, cur, ts, total, {}, [], snap);
  }

  lemma ListedIs(third: Third, snap: map<Key, SnapshotCounter>, base: nat, cur: Table, ts: nat, total: nat,
                 found: set<Key>, news: seq<Delta>, snap': map<Key, SnapshotCounter>)
    requires found <= Drifters(third, snap, base, cur)
    requires Redone(snap, found, cur, total, snap') && NewsOf(found, news, cur, ts, total)
    ensures Listed(third, snap, base, cur, ts, total, found, news, snap')
  {
  }

  lemma ListedParts(third: Third, snap: map<Key, SnapshotCounter>, base: nat, cur: Table, ts: nat, total: nat,
                    found: set<Key>, news: seq<Delta>, snap': map<Key, SnapshotCounter>)
    requires Listed(third, snap, base, cur, ts, total, found, news, snap')
    ensures found <= Drifters(third, snap, base, cur) <= cur.Keys && |news| == |found|
    ensures Redone(snap, found, cur, total, snap') && NewsOf(found, news, cur, ts, total)
  {
    hide Allow, NewsOf, Redone, Drifters;
    DriftersAreCounted(third, snap, base, cur);
    NewsCount(found, news, cur, ts, total);
  }

  /** A count out of its range has not been recorded yet. */
  lemma NotListed(third: Third, snap: map<Key, SnapshotCounter>, base: nat, cur: Table, ts: nat, total: nat,
                  found: set<Key>, news: seq<Delta>, snap': map<Key, SnapshotCounter>, x: Key)
    requires Listed(third, snap, base, cur, ts, total, found, news, snap')
    requires x in cur && !Close(third, snap', base, x, cur[x])
    ensures x !in found && x in Drifters(third, snap, base, cur)
  {
    hide Allow, NewsOf;
    if x !in found { DrifterStays(third, snap, base, cur, found, total, snap', x); }
  }

  lemma ListedMore(third: Third, snap: map<Key, SnapshotCounter>, base: nat, cur: Table, ts: nat, total: nat,
                   found: set<Key>, news: seq<Delta>, snap': map<Key, SnapshotCounter>, x: Key, v: nat)
    requires Listed(third, snap, base, cur, ts, total, found, news, snap')
    requires x in cur && v == cur[x] > 0 && !Close(third, snap', base, x, v)
    ensures x !in found
    ensures Listed(third, snap, base, cur, ts, total, found + {x}, news + [Delta(ts, total, x, v)],
              snap'[x := SnapshotCounter(v, total)])
  {
    hide *;
    GetIs(cur, x);
    NotListed(third, snap, base, cur, ts, total, found, news, snap', x);
    ListedParts(third, snap, base, cur, ts, total, found, news, snap');
    NewsMore(found, news, cur, ts, total, Delta(ts, total, x, v));
    var snap'' := snap'[x := SnapshotCounter(v, total)];
    RedoneMore(snap, found, cur, total, snap', x, snap'');
    ListedIs(third, snap, base, cur, ts, total, found + {x}, news + [Delta(ts, total, x, v)], snap'');
  }

  lemma GetIs(t: Table, x: Key)
    requires x in t
    ensures Get(t, x) == t[x]
  {
  }

  /** Once no count is above its range, all that were have been listed; once none is out of it, all drifters. */
  lemma ListedAll(third: Third, snap: map<Key, SnapshotCounter>, base: nat, cur: Table, ts: nat, total: nat,
                  found: set<Key>, news: seq<Delta>, snap': map<Key, SnapshotCounter>)
    requires Listed(third, snap, base, cur, ts, total, found, news, snap')
    requires forall x <- cur :: cur[x] > Base(snap', x) ==> Close(third, snap', base, x, cur[x])
    ensures Risers(third, base, snap, cur) <= found
    ensures (forall x <- cur :: Close(third, snap', base, x, cur[x])) ==> found == Drifters(third, snap, base, cur)
  {
    hide Allow, NewsOf;
    forall x <- cur | x !in found
      ensures Base(snap', x) == Base(snap, x)
        && Close(third, snap', base, x, cur[x]) == Close(third, snap, base, x, cur[x])
    {
      DrifterStays(third, snap, base, cur, found, total, snap', x);
      assert x in snap' <==> x in snap;
    }
  }

  /**
   A change of timestamp records the keys that are gone and the counts that have risen, and of the counts that
   have fallen those that the second heap shows: all of them, if it is in order.
   */
  ghost predicate HeapStep(third: Third, capacity: nat, sorted: bool, cps: seq<Checkpoint>, n: nat,
                           snap: map<Key, SnapshotCounter>, cur: Table, ts: nat, total: nat, cps': seq<Checkpoint>,
                           n': nat)
  {
    exists keys: set<Key> ::
      && Found(third, sorted, BaseTotal(cps), snap, cur, keys)
      && LogsKeys(capacity, keys, cps, n, cur, ts, total, cps', n')
  }

  ghost predicate Found(third: Third, sorted: bool, base: nat, snap: map<Key, SnapshotCounter>, cur: Table,
                        keys: set<Key>)
  {
    && (snap.Keys - cur.Keys) + Risers(third, base, snap, cur) <= keys <= Due(third, snap, base, cur)
    && (sorted ==> keys == Due(third, snap, base, cur))
  }

  lemma DueIsFound(third: Third, sorted: bool, base: nat, snap: map<Key, SnapshotCounter>, cur: Table)
    ensures Found(third, sorted, base, snap, cur, Due(third, snap, base, cur))
  {
    hide Close;
  }

  lemma FoundIs(third: Third, sorted: bool, base: nat, snap: map<Key, SnapshotCounter>, cur: Table, found: set<Key>)
    requires Risers(third, base, snap, cur) <= found <= Drifters(third, snap, base, cur)
    requires sorted ==> found == Drifters(third, snap, base, cur)
    ensures Found(third, sorted, base, snap, cur, found + (snap.Keys - cur.Keys))
  {
    hide Drifters, Risers;
  }

  lemma HeapStepIs(third: Third, capacity: nat, sorted: bool, cps: seq<Checkpoint>, n: nat,
                   snap: map<Key, SnapshotCounter>, cur: Table, ts: nat, total: nat, cps': seq<Checkpoint>, n': nat,
                   base: nat, keys: set<Key>)
    requires base == BaseTotal(cps) && Found(third, sorted, base, snap, cur, keys)
    requires LogsKeys(capacity, keys, cps, n, cur, ts, total, cps', n')
    ensures HeapStep(third, capacity, sorted, cps, n, snap, cur, ts, total, cps', n')
  {
    hide Found, LogsKeys, BaseTotal;
  }

  /** With the second heap in order the two update modes record the same keys; only their capacities differ. */
  lemma HeapsFindWhatIsDue(third: Third, cps: seq<Checkpoint>, n: nat, snap: map<Key, SnapshotCounter>, cur: Table,
                           ts: nat, total: nat, cps': seq<Checkpoint>, n': nat)
    ensures HeapStep(third, FloorLog2(total), true, cps, n, snap, cur, ts, total, cps', n') <==>
            LogStep(third, cps, n, snap, cur, ts, total, cps', n')
  {
    hide LogsKeys, Due;
    DueIsFound(third, true, BaseTotal(cps), snap, cur);
  }

  lemma DriftersAreDue(third: Third, snap: map<Key, SnapshotCounter>, base: nat, cur: Table)
    ensures |Drifters(third, snap, base, cur)| <= |Due(third, snap, base, cur)|
    ensures forall found :: found <= Drifters(third, snap, base, cur) ==>
                |found + (snap.Keys - cur.Keys)| <= |Due(third, snap, base, cur)|
  {
    hide Drifters;
    var due := Due(third, snap, base, cur);
    Subset(Drifters(third, snap, base, cur), due);
    forall found | found <= Drifters(third, snap, base, cur) ensures |found + (snap.Keys - cur.Keys)| <= |due| {
      Subset(found + (snap.Keys - cur.Keys), due);
    }
  }

  lemma RedoneKeys(snap: map<Key, SnapshotCounter>, found: set<Key>, cur: Table, total: nat,
                   snap': map<Key, SnapshotCounter>)
    requires Redone(snap, found, cur, total, snap')
    ensures snap'.Keys == snap.Keys + found
  {
  }

  lemma LinkedKeys(cps: seq<Checkpoint>, snap: map<Key, SnapshotCounter>, pool: Pool, keyTo: map<Key, nat>,
                   deleted: map<Key, nat>)
    requires Linked(cps, snap, pool, keyTo, deleted) && keyTo.Keys !! deleted.Keys && Serves(pool, deleted)
    ensures deleted.Keys == snap.Keys - keyTo.Keys
  {
    assert forall x <- deleted :: Resolves(cps, snap, pool[deleted[x]]);
  }

  /** One more key that is gone joins the list. */
  lemma GoneNext(found: set<Key>, missing: set<Key>, deleted: map<Key, nat>, news: seq<Delta>, cur: Table, ts: nat,
                 total: nat, x: Key)
    requires NewsOf(found + (missing - deleted.Keys), news, cur, ts, total) && x in deleted && deleted.Keys <= missing
    requires found <= cur.Keys && cur.Keys !! missing
    ensures NewsOf(found + (missing - Without(deleted, x).Keys), news + [Delta(ts, total, x, 0)], cur, ts, total)
    ensures |news| + 1 <= |found + missing| && Without(deleted, x).Keys <= missing
  {
    hide *;
    var gone := missing - deleted.Keys;
    OneGoes(found, missing, deleted, gone, cur, x);
    NewsCount(found + gone, news, cur, ts, total);
    OneNotFound(found, gone, missing, x);
    GetNone(cur, x);
    NewsMoreFound(found, gone, news, cur, ts, total, Delta(ts, total, x, 0));
  }

  lemma OneGoes(found: set<Key>, missing: set<Key>, deleted: map<Key, nat>, gone: set<Key>, cur: Table, x: Key)
    requires gone == missing - deleted.Keys && x in deleted && deleted.Keys <= missing
    requires found <= cur.Keys && cur.Keys !! missing
    ensures gone <= missing && x in missing && x !in gone && x !in found && x !in cur
    ensures gone + {x} == missing - Without(deleted, x).Keys && Without(deleted, x).Keys <= missing
  {
  }

  // ----- what one occurrence does to the counts

  /** The four cases of a unit update. */
  lemma UnitStep(s: Summary, x: Key)
    requires s.Valid()
    ensures var r := Step(s, x, 1, false);
            if x in s.cnt then r.cnt == s.cnt[x := s.cnt[x] + 1] && r.delta == s.delta
            else if |s.cnt| < s.k - 1 then r.cnt == s.cnt[x := 1] && r.delta == s.delta
            else if Below(s.delta + 1, s.minCnt) then r.cnt == s.cnt && r.delta == s.delta + 1
            else r.cnt == Subtract(s.cnt, s.delta + 1) && r.delta == 0
  {
    hide MinOf;
  }

  lemma EffectiveKeys(s: Summary)
    requires s.Valid()
    ensures s.Effective().Keys == s.cnt.Keys
  {
  }

  /** A subtraction moves as much from the counters to the amount subtracted. */
  lemma SubtractTuned(third: Third, cps: seq<Checkpoint>, snap: map<Key, SnapshotCounter>, pool: Pool,
                      keyTo: map<Key, nat>, cnt: Table, s: nat, m: nat)
    requires Tuned(third, cps, snap, pool, keyTo, cnt, s) && keyTo.Keys <= Subtract(cnt, m).Keys
    ensures Tuned(third, cps, snap, pool, keyTo, Subtract(cnt, m), s + m)
  {
    hide Allow;
    forall x <- keyTo ensures TunedAt(third, cps, snap, pool[keyTo[x]], Get(Subtract(cnt, m), x), s + m) {
      assert TunedAt(third, cps, snap, pool[keyTo[x]], Get(cnt, x), s);
      assert x in Subtract(cnt, m);
    }
  }

  ghost predicate Different(s: seq<Key>) {
    forall i, j :: 0 <= i < j < |s| ==> s[i] != s[j]
  }

  lemma {:induction false} FewKeysCountOnce(k: nat, s: seq<Key>)
    requires 2 <= k && |s| < k && Different(s)
    ensures var r := Run(k, s);
            && (forall x :: x in r.cnt <==> x in s) && (forall x <- r.cnt :: r.cnt[x] == 1)
            && |r.cnt| == |s| && r.delta == 0 && (s != [] ==> r.minCnt == Finite(1))
    decreases |s|
  {
    hide Settle, MinOf;
    if s != [] {
      var init, x := s[..|s| - 1], s[|s| - 1];
      FewKeysCountOnce(k, init);
      assert s == init + [x];
      Grown(Run(k, init).cnt, x, 1);
    }
  }

  /** After k different keys no counter is left, and the heaps are empty. */
  lemma KDifferentKeysLeaveNothing(k: nat, s: seq<Key>)
    requires 2 <= k && |s| == k && Different(s)
    ensures Run(k, s).cnt == map[]
  {
    hide Settle, MinOf;
    var init, x := s[..|s| - 1], s[|s| - 1];
    FewKeysCountOnce(k, init);
    UnitStep(Run(k, init), x);
  }

  lemma RunMore(k: nat, s: seq<Key>, x: Key)
    requires 0 < k
    ensures Run(k, s + [x]) == Step(Run(k, s), x, 1, false) && Run(k, []) == Empty(k)
  {
    hide Step;
    assert (s + [x])[..|s|] == s;
  }

  // ----- no counter is lost

  lemma IdleSet(pool: Pool, free: seq<nat>, taken: set<nat>) returns (idle: set<nat>)
    requires Idle(pool, free, taken)
    ensures (forall f :: f in idle <==> f in free) && |idle| == |free| && idle !! taken
        && forall f <- idle :: f < |pool|
  {
    idle := {};
    var n := 0;
    while n < |free|
      invariant 0 <= n <= |free| && |idle| == n && forall f :: f in idle <==> f in free[..n]
    {
      assert free[..n + 1] == free[..n] + [free[n]];
      assert free[n] !in free[..n];
      idle := idle + {free[n]};
      n := n + 1;
    }
    assert free[..n] == free;
  }

  lemma {:induction false} AllBelow(a: set<nat>, n: nat)
    requires (forall i <- a :: i < n) && |a| == n
    ensures forall i :: 0 <= i < n ==> i in a
  {
    if n > 0 {
      if n - 1 !in a {
        AtMost(a, n - 1);
      } else {
        AllBelow(a - {n - 1}, n - 1);
      }
    }
  }

  lemma {:induction false} AtMost(a: set<nat>, n: nat)
    requires forall i <- a :: i < n
    ensures |a| <= n
  {
    if n > 0 { AtMost(a - {n - 1}, n - 1); }
  }

  /** Every counter of the pool is live, kept or free, and only one of these. */
  lemma PoolIsShared(k: nat, pool: Pool, free: seq<nat>, keyTo: map<Key, nat>, deleted: map<Key, nat>, i: nat)
    requires Staffed(k, pool, free, keyTo, deleted) && i < 2 * (k - 1)
    ensures i in keyTo.Values || i in deleted.Values || i in free
    ensures !(i in keyTo.Values && i in deleted.Values) && !(i in free && (i in keyTo.Values || i in deleted.Values))
  {
    hide *;
    StaffedParts(k, pool, free, keyTo, deleted);
    var idle := IdleSet(pool, free, keyTo.Values + deleted.Values);
    ApartServe(pool, keyTo, deleted);
    ValuesCount(pool, keyTo);
    ValuesCount(pool, deleted);
    forall j <- keyTo.Values ensures j < |pool| { ServedBy(pool, keyTo, j); }
    forall j <- deleted.Values ensures j < |pool| { ServedBy(pool, deleted, j); }
    AllTaken(keyTo.Values, deleted.Values, idle, |pool|, i);
  }

  lemma AllTaken(a: set<nat>, b: set<nat>, c: set<nat>, n: nat, i: nat)
    requires a !! b && c !! (a + b) && |a| + |b| + |c| == n && i < n
    requires (forall j <- a :: j < n) && (forall j <- b :: j < n) && (forall j <- c :: j < n)
    ensures i in a || i in b || i in c
  {
    Disjoint(a, b, c);
    AllBelow(a + b + c, n);
    assert i in a + b + c;
  }

  lemma Disjoint(a: set<nat>, b: set<nat>, c: set<nat>)
    requires a !! b && c !! (a + b)
    ensures |a + b + c| == |a| + |b| + |c|
  {
    assert |a + b| == |a| + |b|;
  }
}
