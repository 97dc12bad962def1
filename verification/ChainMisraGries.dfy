/**
 `ChainMisraGries` in its old update mode (pmmg.cpp): a streamed sketch whose counters are
 logged at every change of timestamp once they have drifted by a third of the tolerance.
 */
module ChainSketch {
  import opened Products
  import opened Counts
  import opened MisraGriesSpec
  import opened MisraGriesSketch
  import opened ChainLog
  import opened ChainQuery
  import opened Timeline

  class ChainMisraGries {
    const third: Third
    const k: nat
    const sketch: MisraGries
    var total: nat
    var lastTs: nat
    var snapshot: map<Key, SnapshotCounter>
    var checkpoints: seq<Checkpoint>
    var numDeltas: nat
    ghost var events: seq<Event>

    function Last(): Checkpoint
      requires checkpoints != []
      reads `checkpoints
    {
      checkpoints[|checkpoints| - 1]
    }

    /** The sketch summarises everything that came. */
    ghost predicate SketchValid()
      reads `total, `events, `lastTs, sketch
    {
      && sketch.k == k && k as real * third >= 1.0
      && sketch.State().Valid()
      && Credit(k, sketch.State().Effective(), Keys(events))
      && NoOvercount(sketch.cnt, Keys(events))
      && total == |events| && EndsAt(events, lastTs)
    }

    /** The snapshot is what the log amounts to. */
    ghost predicate LogValid()
      reads `checkpoints, `snapshot, `total, `numDeltas
    {
      checkpoints != [] ==>
        && Matches(third, Full(third, checkpoints), snapshot)
        && TotalsUpTo(snapshot, total)
        && Last().total <= total
        && |Last().deltas| == numDeltas <= FloorLog2(total)
    }

    ghost predicate Ordered()
      reads `checkpoints, `events, `lastTs
    {
      && (forall i, j :: 0 <= i < j < |checkpoints| ==> checkpoints[i].ts < checkpoints[j].ts)
      && (forall c <- checkpoints :: Started(events, c.ts))
      && (lastTs > 0 ==> Started(events, lastTs))
    }

    /** Every query before ts, once time has started, is answered within the tolerance. */
    ghost predicate GoodBefore(ts: nat)
      reads `checkpoints, `events
    {
      forall t: nat | t < ts && Started(events, t) ::
        Within(third, EstimateAt(third, checkpoints, t), Seen(events, t))
    }

    ghost predicate LoggedBefore(ts: nat)
      reads `checkpoints
    {
      checkpoints != [] ==> ts > 0 && DatedUpTo(checkpoints, ts - 1)
    }

    ghost predicate Valid()
      reads this, sketch
    {
      && SketchValid()
      && LogValid()
      && Ordered()
      && LoggedBefore(lastTs)
      && GoodBefore(lastTs)
    }

    constructor (third: Third)
      ensures Valid() && events == [] && lastTs == 0 && this.third == third && fresh(sketch)
    {
      CeilCovers(third);
      this.third := third;
      k := Ceil(1.0 / third);
      sketch := new MisraGries(Ceil(1.0 / third));
      total, lastTs, snapshot, checkpoints, numDeltas, events := 0, 0, map[], [], 0, [];
    }

    /** The log describes the sketch of this moment well enough. */
    ghost predicate Current()
      reads `checkpoints, `snapshot, `lastTs, sketch
    {
      && checkpoints != [] && DatedUpTo(checkpoints, lastTs)
      && sketch.delta == 0
      && AllClose(third, snapshot, Last().total, sketch.cnt)
    }

    /** `make_checkpoint_old`. */
    method MakeCheckpoint()
      requires SketchValid() && lastTs > 0 && sketch.delta == 0
      requires forall c <- checkpoints :: c.ts < lastTs
      requires Ordered()
      modifies this`checkpoints, this`numDeltas, this`snapshot
      ensures LogValid() && Ordered() && Current()
      ensures SameBefore(third, old(checkpoints), checkpoints, lastTs)
      ensures checkpoints == old(checkpoints) + [Checkpoint(lastTs, total, sketch.cnt, [])] && numDeltas == 0
    {
      hide Matches, TotalsUpTo, AllClose, Full, SameBefore, Started;
      var c := Checkpoint(lastTs, total, sketch.cnt, []);
      CheckpointKeepsPast(third, checkpoints, c);
      FreshMatches(third, checkpoints, c);
      checkpoints := checkpoints + [c];
      numDeltas := 0;
      snapshot := SnapshotOf(sketch.cnt, total);
    }

    ghost predicate Recording(news: seq<Delta>)
      reads `checkpoints, `snapshot, `total, `lastTs
    {
      && checkpoints != []
      && Matches(third, Full(third, Log(checkpoints, news)), snapshot)
      && TotalsUpTo(snapshot, total)
      && (forall d <- news :: d.ts == lastTs)
    }

    method Record(news: seq<Delta>, x: Key, v: nat) returns (more: seq<Delta>)
      requires Recording(news) && v > 0
      modifies this`snapshot
      ensures Recording(more) && more == news + [Delta(lastTs, total, x, v)]
      ensures snapshot == old(snapshot)[x := SnapshotCounter(v, total)]
    {
      var d := Delta(lastTs, total, x, v);
      more := news + [d];
      LogOne(third, checkpoints, news, d);
      RecordMatches(third, Full(third, Log(checkpoints, news)), snapshot, d);
      snapshot := snapshot[x := SnapshotCounter(v, total)];
    }

    method Erase(news: seq<Delta>, x: Key) returns (more: seq<Delta>)
      requires Recording(news)
      modifies this`snapshot
      ensures Recording(more) && more == news + [Delta(lastTs, total, x, 0)]
      ensures snapshot == old(snapshot) - {x}
    {
      var d := Delta(lastTs, total, x, 0);
      more := news + [d];
      LogOne(third, checkpoints, news, d);
      RecordMatches(third, Full(third, Log(checkpoints, news)), snapshot, d);
      snapshot := snapshot - {x};
    }

    /** First loop: recorded keys that the sketch has dropped. */
    method RecordMissing(capacity: nat) returns (news: seq<Delta>, full: bool)
      requires checkpoints != [] && Recording([]) && numDeltas <= capacity
      modifies this`snapshot
      ensures Recording(news)
      ensures !full ==> numDeltas + |news| <= capacity
      ensures !full ==> snapshot == old(snapshot) - (old(snapshot).Keys - sketch.cnt.Keys)
      ensures !full ==> NewsOf(old(snapshot).Keys - sketch.cnt.Keys, news, sketch.cnt, lastTs, total)
      ensures full ==> numDeltas + |old(snapshot).Keys - sketch.cnt.Keys| > capacity
    {
      hide *;
      news, full := [], false;
      var todo := snapshot.Keys;
      ghost var gone: set<Key>, all := {}, snapshot.Keys - sketch.cnt.Keys;
      NoNews(sketch.cnt, lastTs, total);
      while todo != {} && !full
        invariant todo <= old(snapshot).Keys && checkpoints != []
        invariant Recording(news) && NewsOf(gone, news, sketch.cnt, lastTs, total)
        invariant gone <= all && gone !! todo && snapshot == old(snapshot) - gone
        invariant !full ==> all - todo <= gone && numDeltas + |news| <= capacity
        invariant full ==> numDeltas + |all| > capacity
      {
        var x :| x in todo;
        todo := todo - {x};
        if x !in sketch.cnt {
          NewsCount(gone, news, sketch.cnt, lastTs, total);
          if numDeltas + |news| + 1 > capacity {
            OneLeftOut(gone, all, x);
            full := true;
          } else {
            GetNone(sketch.cnt, x);
            NewsMore(gone, news, sketch.cnt, lastTs, total, Delta(lastTs, total, x, 0));
            news := Erase(news, x);
            gone := gone + {x};
          }
        }
      }
      if !full { assert gone == all; }
    }

    predicate Drifted(x: Key)
      requires checkpoints != [] && x in sketch.cnt
      reads `checkpoints, `snapshot, sketch
    {
      if x !in snapshot then sketch.cnt[x] > Allow(third, Last().total)
      else
        var c, d := snapshot[x].cnt, Allow(third, snapshot[x].lastTotal);
        sketch.cnt[x] < Excess(c, d) || sketch.cnt[x] > c + d
    }

    /** Second loop: counters that left the range their record allows. */
    method RecordDrifted(capacity: nat, missing: seq<Delta>, ghost gone: set<Key>)
      returns (news: seq<Delta>, full: bool)
      requires checkpoints != [] && Recording(missing) && numDeltas + |missing| <= capacity
      requires snapshot.Keys <= sketch.cnt.Keys && Positive(sketch.cnt)
      requires NewsOf(gone, missing, sketch.cnt, lastTs, total) && gone !! sketch.cnt.Keys
      modifies this`snapshot
      ensures Recording(news)
      ensures !full ==> AllClose(third, snapshot, Last().total, sketch.cnt) && numDeltas + |news| <= capacity
      ensures !full ==>
          NewsOf(gone + Drifters(third, old(snapshot), Last().total, sketch.cnt), news, sketch.cnt, lastTs, total)
      ensures full ==> numDeltas + |gone + Drifters(third, old(snapshot), Last().total, sketch.cnt)| > capacity
    {
      hide *;
      news, full := missing, false;
      var todo := sketch.cnt.Keys;
      ghost var snap, base := snapshot, Last().total;
      ghost var found: set<Key>, all := {}, Drifters(third, snap, base, sketch.cnt);
      assert gone + found == gone;
      RedoneNone(snap, sketch.cnt, total);
      DriftersAreCounted(third, snap, base, sketch.cnt);
      while todo != {} && !full
        invariant todo <= sketch.cnt.Keys && found <= all && found !! todo
        invariant NewsOf(gone + found, news, sketch.cnt, lastTs, total)
        invariant Redone(snap, found, sketch.cnt, total, snapshot)
        invariant Recording(news) && checkpoints != []
        invariant !full ==> all - todo <= found && numDeltas + |news| <= capacity
        invariant full ==> numDeltas + |gone + all| > capacity
      {
        var x :| x in todo;
        todo := todo - {x};
        DrifterStays(third, snap, base, sketch.cnt, found, total, snapshot, x);
        IsDrifted(x);
        if Drifted(x) {
          NewsCount(gone + found, news, sketch.cnt, lastTs, total);
          if numDeltas + |news| + 1 > capacity {
            OneNotFound(gone, found, all, x);
            full := true;
          } else {
            GetOne(sketch.cnt, x);
            NewsMoreFound(gone, found, news, sketch.cnt, lastTs, total, Delta(lastTs, total, x, sketch.cnt[x]));
            RedoneMore(snap, found, sketch.cnt, total, snapshot, x,
                       snapshot[x := SnapshotCounter(sketch.cnt[x], total)]);
            news := Record(news, x, sketch.cnt[x]);
            found := found + {x};
          }
        }
      }
      if !full {
        assert found == all;
        RedoneIsClose(third, snap, base, sketch.cnt, total, snapshot);
      }
    }

    lemma IsDrifted(x: Key)
      requires checkpoints != [] && x in sketch.cnt
      ensures Drifted(x) <==> !Close(third, snapshot, Last().total, x, sketch.cnt[x])
    {
      hide Allow;
    }

    /** Hang the new deltas on the last checkpoint. */
    method AppendDeltas(news: seq<Delta>)
      requires Recording(news) && LastFits(news) && Ordered() && DatedUpTo(checkpoints, lastTs)
      modifies this`checkpoints, this`numDeltas
      ensures LogValid() && Ordered()
      ensures DatedUpTo(checkpoints, lastTs) && checkpoints != [] && Last().total == old(Last().total)
      ensures SameBefore(third, old(checkpoints), checkpoints, lastTs)
      ensures checkpoints == Log(old(checkpoints), news) && numDeltas == old(numDeltas) + |news|
    {
      hide Matches, Full, SameBefore, TotalsUpTo, Started;
      ghost var cps := checkpoints;
      LogKeepsPast(third, cps, news, lastTs);
      checkpoints := Log(checkpoints, news);
      numDeltas := numDeltas + |news|;
      forall c <- checkpoints ensures Started(events, c.ts) && c.ts <= lastTs {
        if c == Last() { assert cps[|cps| - 1] in cps; }
      }
    }

    ghost predicate LastFits(news: seq<Delta>)
      reads `checkpoints, `numDeltas, `total
    {
      && checkpoints != []
      && |Last().deltas| == numDeltas && numDeltas + |news| <= FloorLog2(total)
      && Last().total <= total
    }

    /** Log what has changed since the snapshot, or start afresh when that takes too many deltas. */
    method LogChanges()
      requires checkpoints != [] && Recording([]) && LastFits([]) && Ordered() && lastTs > 0
      requires DatedUpTo(checkpoints, lastTs) && forall c <- checkpoints :: c.ts < lastTs
      requires SketchValid() && sketch.delta == 0 && Positive(sketch.cnt)
      modifies this`checkpoints, this`numDeltas, this`snapshot
      ensures LogValid() && Ordered() && Current()
      ensures SameBefore(third, old(checkpoints), checkpoints, lastTs)
      ensures LogStep(third, old(checkpoints), old(numDeltas), old(snapshot), sketch.cnt, lastTs, total,
                checkpoints, numDeltas)
    {
      hide Recording, LogValid, SameBefore, AllClose, Started, DatedUpTo, SketchValid, Log, Ordered, NewsOf, Drifters;
      hide LogsKeys;
      var capacity := FloorLog2(total);
      ghost var snap, cps := snapshot, checkpoints;
      ghost var gone, base := snap.Keys - sketch.cnt.Keys, Last().total;
      ghost var due := Due(third, snap, base, sketch.cnt);
      var news, full := RecordMissing(capacity);
      if !full {
        DriftersStay(third, snap, snapshot, base, sketch.cnt);
        news, full := RecordDrifted(capacity, news, gone);
      } else {
        MoreDue(third, snap, base, sketch.cnt);
      }
      if full {
        MakeCheckpoint();
        LogsNew(capacity, due, cps, old(numDeltas), sketch.cnt, lastTs, total, checkpoints, numDeltas);
      } else {
        AppendDeltas(news);
        LogsMore(capacity, due, cps, old(numDeltas), sketch.cnt, lastTs, total, checkpoints, numDeltas, news);
      }
    }

    /** What a change of timestamp does before the new occurrence is counted. */
    method Boundary()
      requires SketchValid() && LogValid() && Ordered() && lastTs > 0
      requires LoggedBefore(lastTs)
      modifies this`checkpoints, this`numDeltas, this`snapshot, sketch
      ensures SketchValid() && LogValid() && Ordered() && Current()
      ensures SameBefore(third, old(checkpoints), checkpoints, lastTs)
      ensures sketch.cnt == old(sketch.State().Effective())
      ensures LogStep(third, old(checkpoints), old(numDeltas), old(snapshot), sketch.cnt, lastTs, total,
                checkpoints, numDeltas)
    {
      hide Matches, SameBefore, Full, TotalsUpTo, Started, AllClose, Positive, Credit, Keys, Subtract, Due,
          NewsOf;
      sketch.Settled();
      if checkpoints == [] {
        MakeCheckpoint();
      } else {
        LogNone(third, checkpoints);
        LogChanges();
      }
    }

    /** From the end of a timestamp until the next one the log answers within the tolerance. */
    lemma CurrentIsGood(t: nat)
      requires SketchValid() && LogValid() && Current() && lastTs <= t
      ensures Within(third, EstimateAt(third, checkpoints, t), Seen(events, t))
    {
      hide Credit, Matches, TotalsUpTo, AllClose, Full, NoOvercount, Within, EstimateAt, Seen, Keys;
      SeenAll(events, t);
      FullFromLast(third, checkpoints, t);
      EffectiveIsRaw(sketch.State());
      CloseIsWithin(third, k, Full(third, checkpoints), snapshot, Last().total, sketch.cnt, Keys(events));
    }

    lemma SameIsGood(cps: seq<Checkpoint>, ts: nat)
      requires SketchValid() && LogValid() && Current()
      requires SameBefore(third, cps, checkpoints, lastTs)
      requires forall t: nat | t < lastTs && Started(events, t) ::
                 Within(third, EstimateAt(third, cps, t), Seen(events, t))
      ensures GoodBefore(ts)
    {
      hide SketchValid, LogValid, Current, Within, Started;
      forall t: nat | t < ts && Started(events, t)
        ensures Within(third, EstimateAt(third, checkpoints, t), Seen(events, t))
      {
        if t < lastTs {
          assert EstimateAt(third, cps, t) == EstimateAt(third, checkpoints, t);
        } else {
          CurrentIsGood(t);
        }
      }
    }

    method AdvanceTo(ts: nat)
      requires Valid() && lastTs <= ts
      modifies this`checkpoints, this`numDeltas, this`snapshot, sketch
      ensures SketchValid() && LogValid() && Ordered() && LoggedBefore(ts) && GoodBefore(ts)
      ensures old(lastTs) == 0 || old(lastTs) == ts ==> checkpoints == old(checkpoints) && numDeltas == old(numDeltas)
      ensures old(lastTs) != 0 && old(lastTs) != ts ==>
                LogStep(third, old(checkpoints), old(numDeltas), old(snapshot), old(sketch.State().Effective()),
                  lastTs, total, checkpoints, numDeltas)
    {
      hide SketchValid, LogValid, Ordered, Within, SameBefore, LogStep;
      ghost var cps := checkpoints;
      if lastTs > 0 && ts != lastTs {
        Boundary();
        SameIsGood(cps, ts);
      } else if ts != lastTs {
        NotStarted();
      }
    }

    lemma NotStarted()
      requires SketchValid() && lastTs == 0
      ensures forall t :: !Started(events, t)
    {
    }

    /** `update_old` with a single occurrence: the log changes with the timestamp only, and no more than it must. */
    method Update(ts: nat, key: Key)
      requires Valid() && lastTs <= ts
      modifies this, sketch
      ensures Valid() && events == old(events) + [Event(ts, key)] && lastTs == ts
      ensures old(lastTs) == 0 || old(lastTs) == ts ==> checkpoints == old(checkpoints) && numDeltas == old(numDeltas)
      ensures old(lastTs) != 0 && old(lastTs) != ts ==>
                LogStep(third, old(checkpoints), old(numDeltas), old(snapshot), old(sketch.State().Effective()),
                  old(lastTs), old(total), checkpoints, numDeltas)
    {
      hide LogStep, Valid, SketchValid, LogValid, Ordered, LoggedBefore, GoodBefore;
      AdvanceTo(ts);
      Count(ts, key);
    }

    lemma AppendIsGood(e: Event, now: seq<Event>)
      requires GoodBefore(e.ts) && now == events + [e]
      ensures forall t: nat | t < e.ts && Started(now, t) ::
                Within(third, EstimateAt(third, checkpoints, t), Seen(now, t))
    {
      hide Started, Within, EstimateAt, Seen;
      forall t: nat | t < e.ts && Started(now, t)
        ensures Within(third, EstimateAt(third, checkpoints, t), Seen(now, t))
      {
        Append(events, e, t);
      }
    }

    /** The sketch takes the occurrence. */
    method Feed(key: Key, ghost h: multiset<Key>)
      requires sketch.State().Valid() && Credit(sketch.k, sketch.State().Effective(), h) && NoOvercount(sketch.cnt, h)
      modifies sketch
      ensures sketch.State().Valid()
      ensures Credit(sketch.k, sketch.State().Effective(), Occurs(h, key, 1))
          && NoOvercount(sketch.cnt, Occurs(h, key, 1))
    {
      hide *;
      sketch.Update(key, h);
    }

    method Count(ts: nat, key: Key)
      requires SketchValid() && LogValid() && Ordered() && LoggedBefore(ts) && GoodBefore(ts) && lastTs <= ts
      modifies this`lastTs, this`total, this`events, sketch
      ensures Valid() && events == old(events) + [Event(ts, key)] && lastTs == ts
    {
      hide *;
      ghost var e := Event(ts, key);
      SketchParts();
      LogLater();
      AppendKeys(events, e);
      AppendIsGood(e, events + [e]);
      EndsMore(events, e, lastTs);
      Feed(key, Keys(events));
      OrderedMore(e, events + [e]);
      lastTs := ts;
      total := total + 1;
      events := events + [e];
      SketchIs();
      LogIs();
      ValidIs();
    }

    lemma SketchParts()
      requires SketchValid()
      ensures sketch.k == k && k as real * third >= 1.0 && sketch.State().Valid()
      ensures Credit(k, sketch.State().Effective(), Keys(events)) && NoOvercount(sketch.cnt, Keys(events))
      ensures total == |events| && EndsAt(events, lastTs)
    {
      hide Credit, NoOvercount, Keys, EndsAt;
    }

    lemma SketchIs()
      requires sketch.k == k && k as real * third >= 1.0 && sketch.State().Valid()
      requires Credit(k, sketch.State().Effective(), Keys(events)) && NoOvercount(sketch.cnt, Keys(events))
      requires total == |events| && EndsAt(events, lastTs)
      ensures SketchValid()
    {
      hide Credit, NoOvercount, Keys, EndsAt;
    }

    /** The log is in order for a total of n. */
    ghost predicate LogUpTo(n: nat)
      reads `checkpoints, `snapshot, `numDeltas
    {
      checkpoints != [] ==>
        && Matches(third, Full(third, checkpoints), snapshot) && TotalsUpTo(snapshot, n)
        && Last().total <= n && |Last().deltas| == numDeltas <= FloorLog2(n)
    }

    lemma LogLater()
      requires LogValid()
      ensures LogUpTo(total + 1)
    {
      hide Matches, Full;
      FloorLog2Monotone(total, total + 1);
    }

    lemma LogIs()
      requires LogUpTo(total)
      ensures LogValid()
    {
      hide Matches, Full, TotalsUpTo;
    }

    lemma OrderedMore(e: Event, now: seq<Event>)
      requires Ordered() && now == events + [e]
      ensures forall i, j :: 0 <= i < j < |checkpoints| ==> checkpoints[i].ts < checkpoints[j].ts
      ensures (forall c <- checkpoints :: Started(now, c.ts)) && (e.ts > 0 ==> Started(now, e.ts))
    {
      hide Started;
      AppendStarts(events, e);
    }

    lemma ValidIs()
      requires SketchValid() && LogValid() && LoggedBefore(lastTs)
      requires forall i, j :: 0 <= i < j < |checkpoints| ==> checkpoints[i].ts < checkpoints[j].ts
      requires (forall c <- checkpoints :: Started(events, c.ts)) && (lastTs > 0 ==> Started(events, lastTs))
      requires forall t: nat | t < lastTs && Started(events, t) ::
                 Within(third, EstimateAt(third, checkpoints, t), Seen(events, t))
      ensures Valid()
    {
      hide SketchValid, LogValid, LoggedBefore, Started, Within, EstimateAt, Seen;
    }

    /** `create_tmp_cnt_at` */
    method CreateTmpCntAt(ts: nat) returns (est: Table)
      requires Valid()
      ensures est == EstimateAt(third, checkpoints, ts)
      ensures ts < lastTs ==> (Within(third, est, Seen(events, ts)) <==>
          Started(events, ts) || ZeroDatedAreLight(third, events))
      ensures !Started(events, ts) ==> est == map[]
    {
      hide SketchValid, LogValid, LoggedBefore, Started, Seen, Within, ZeroDatedAreLight;
      est := TmpCntAt(third, checkpoints, ts);
      if !Started(events, ts) {
        forall c <- checkpoints ensures ts < c.ts { StartedBy(c, ts); }
        EmptyBefore(third, checkpoints, ts);
        EmptyIsWithin(third, events, ts);
      }
    }

    lemma StartedBy(c: Checkpoint, ts: nat)
      requires Ordered() && c in checkpoints
      ensures c.ts <= ts ==> Started(events, ts)
    {
      assert Started(events, c.ts);
      if c.ts <= ts { StartedLater(events, c.ts, ts); }
    }

    /** The counters `estimate_heavy_hitters` looks at: the sketch itself from the last timestamp on. */
    method Estimates(ts: nat) returns (est: Table)
      requires Valid()
      ensures ts < lastTs ==> est == EstimateAt(third, checkpoints, ts)
      ensures ts >= lastTs ==> Near(k, est, Seen(events, ts))
      ensures Within(third, est, Seen(events, ts)) <==>
          ts >= lastTs || Started(events, ts) || ZeroDatedAreLight(third, events)
    {
      hide Within, ZeroDatedAreLight, Seen, Started, Near;
      if ts >= lastTs {
        SeenAll(events, ts);
        PresentIsWithin(third, k, sketch.State(), Keys(events));
        return sketch.cnt;
      }
      est := CreateTmpCntAt(ts);
    }
  }

  /** An occurrence dated 0 followed by a later one: asked for a time between, the sketch has forgotten the first. */
  method ZeroTimeRun(third: Third, x: Key, y: Key) returns (sketch: ChainMisraGries, est: Table)
    requires third < 1.0 / 3.0
    ensures sketch.Valid() && sketch.events == [Event(0, x), Event(5, y)]
    ensures est == map[] && !Within(third, est, Seen(sketch.events, 3))
  {
    hide *;
    sketch := new ChainMisraGries(third);
    sketch.Update(0, x);
    sketch.Update(5, y);
    est := sketch.CreateTmpCntAt(3);
    assert [] + [Event(0, x)] + [Event(5, y)] == [Event(0, x), Event(5, y)];
    NotYetStarted(x, y);
    OneZeroDatedIsHeavy(third, x, Event(5, y));
  }

  lemma NotYetStarted(x: Key, y: Key)
    ensures !Started([Event(0, x), Event(5, y)], 3)
  {
  }
}
