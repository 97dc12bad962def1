/** Merging stored sketches, which are kept with no pending subtraction. */
module MergeStored {
  import opened Counts
  import opened MisraGriesSpec
  import opened MisraGriesSketch

  /** `merge` of two stored sketches. */
  method MergeTables(k: nat, a: Table, b: Table) returns (r: Table)
    requires Positive(a) && Positive(b)
    ensures Merged(k, a, b, r)
  {
    var mg := new MisraGries.Holding(k, a);
    var other := new MisraGries.Holding(k, b);
    EffectiveIsRaw(mg.State());
    EffectiveIsRaw(other.State());
    mg.Merge(other);
    r := mg.cnt;
  }

  /** Merge a stored sketch into a running one. */
  method MergeInto(mg: MisraGries, t: Table)
    requires mg.Mergeable() && Positive(t)
    modifies mg
    ensures Merged(mg.k, old(mg.State().Effective()), t, mg.State().Effective())
    ensures mg.Mergeable() && mg.delta == 0 && mg.cnt == mg.State().Effective()
  {
    hide Merged;
    var other := new MisraGries.Holding(mg.k, t);
    EffectiveIsRaw(other.State());
    mg.Merge(other);
    EffectiveIsRaw(mg.State());
  }
}

/** `TreeMisraGries` (pmmg.cpp): a binary-counter forest of purged counters for past queries. */
module TreeSketch {
  import opened Products
  import opened Counts
  import opened MisraGriesSpec
  import opened MisraGriesSketch
  import opened Timeline
  import opened Batches
  import opened MergeStored
  import opened Forest

  /** Merge the sketch of the batches that follow those already in. */
  method MergeNext(mg: MisraGries, t: Table, ghost bs: seq<Batch>, ghost lo: nat, ghost mid: nat)
    requires 0 < mg.k && Storable(mg.k, bs) && mg.Mergeable() && mg.delta == 0 && lo < mid <= |bs|
    requires MergeOf(mg.k, bs[..lo], mg.cnt) && MergeOf(mg.k, bs[lo..mid], t)
    modifies mg
    ensures mg.Mergeable() && mg.delta == 0 && MergeOf(mg.k, bs[..mid], mg.cnt)
  {
    hide MergeOf, Storable, Merged;
    StoredIsPositive(mg.k, bs, lo, mid, t);
    ghost var a := mg.cnt;
    EffectiveIsRaw(mg.State());
    MergeInto(mg, t);
    MergeNewer(mg.k, bs, lo, mid, a, t, mg.cnt);
  }

  /** The walk down a tree that time ts falls into: merge what is not later, skip what is. */
  method Descend(root: Tree, ts: nat, mg: MisraGries, ghost bs: seq<Batch>)
    returns (intersects: bool, est: nat, ghost lo: nat)
    requires 0 < mg.k && Storable(mg.k, bs) && Holds(mg.k, root, bs, true) && Sorted(bs) && ts < root.ts
    requires mg.delta == 0 && mg.cnt == map[] && mg.Mergeable()
    modifies mg
    ensures mg.delta == 0 && mg.Mergeable() && Splits(bs, ts, lo) && lo < |bs|
    ensures intersects <==> lo > 0
    ensures !intersects ==> mg.cnt == map[]
    ensures MergeOf(mg.k, bs[..lo], mg.cnt) && est == if lo == 0 then 0 else bs[lo - 1].total
  {
    hide *;
    var tn := root;
    lo, est, intersects := 0, 0, false;
    ghost var hi, keeps := |bs|, true;
    NothingYet(mg.k, root, bs, ts);
    SplitsAt(bs, ts);
    while tn.Node?
      invariant lo < hi <= |bs| && Holds(mg.k, tn, bs[lo..hi], keeps) && ts < tn.ts
      invariant NotLater(bs, lo, ts) && Later(bs, hi, ts)
      invariant mg.delta == 0 && mg.Mergeable() && MergeOf(mg.k, bs[..lo], mg.cnt)
      invariant (intersects <==> lo > 0) && (!intersects ==> mg.cnt == map[])
      invariant est == if lo == 0 then 0 else bs[lo - 1].total
      decreases tn
    {
      ghost var mid := lo + Size(tn.left);
      ChildrenHold(mg.k, tn, bs, lo, hi, keeps);
      UpTo(bs, mid, ts);
      if tn.left.ts > ts {
        LaterMore(bs, mid - 1, mid, ts);
        tn, hi, keeps := tn.left, mid, true;
      } else {
        MergeNext(mg, tn.left.mg.cnt, bs, lo, mid);
        est, intersects := tn.left.total, true;
        tn, lo, keeps := tn.right, mid, false;
      }
    }
    LeafIsOne(mg.k, tn, bs, lo, hi, keeps);
    UpTo(bs, hi, ts);
  }

  /** The level, the batches still to come at it, when the next is due, and how many occurrences it may hold. */
  datatype Schedule = Schedule(level: nat, remaining: nat, target: nat, maxCnt: nat) {

    /** After the batch cut at a total. */
    function Next(k: nat, total: nat): Schedule
      requires 0 < remaining
    {
      if remaining == 1 then Schedule(level + 1, k, total + 2 * maxCnt, 2 * maxCnt)
      else Schedule(level, remaining - 1, total + maxCnt, maxCnt)
    }
  }

  /** What a batch leaves of the running sketch. */
  ghost function Remnant(third: Third, total: nat, s: Summary): Summary {
    var e := s.Effective();
    var rest := Rest(third, total, e);
    Summary(s.k, rest, if rest == map[] then Infinite else if s.delta == 0 then s.minCnt else MinOf(e), 0)
  }

  ghost predicate CutOne(bs: seq<Batch>, bs': seq<Batch>, ts: nat, total: nat, counts: Table) {
    && |bs'| == |bs| + 1 && bs'[..|bs|] == bs
    && bs'[|bs|].ts == ts && bs'[|bs|].total == total && bs'[|bs|].counts == counts
  }

  ghost predicate Fed(s: Summary, x: Key, s': Summary) {
    s.Valid() && s' == Step(s, x, 1, false)
  }

  class TreeMisraGries {
    const third: Third
    const k: nat
    const cur: MisraGries
    const slots: array<Slot>
    var lastTs: nat
    var total: nat
    var level: nat
    var remaining: nat
    var target: nat
    var maxCnt: nat
    ghost var batches: seq<Batch>
    ghost var events: seq<Event>

    constructor (third: Third)
      ensures Valid() && events == [] && this.third == third && k == Ceil(1.0 / third) && fresh(cur) && fresh(slots)
      ensures lastTs == 0 && total == 0 && Plan() == Schedule(0, 2 * k, 1, 1) && batches == []
          && cur.State() == Empty(k)
    {
      hide ForestValid, CurValid, TargetValid, HistoryValid;
      CeilCovers(third);
      this.third := third;
      k := Ceil(1.0 / third);
      cur := new MisraGries(Ceil(1.0 / third));
      slots := new Slot[64](_ => Free);
      lastTs, total, level, target, maxCnt := 0, 0, 0, 1, 1;
      remaining := 2 * Ceil(1.0 / third);
      batches, events := [], [];
      new;
      NothingYet();
    }

    lemma NothingYet()
      requires 0 < k && cur.State() == Empty(k) && cur.eps == 1.0 / k as real && k as real * third >= 1.0
      requires slots.Length == 64 && forall i :: 0 <= i < 64 ==> slots[i] == Free
      requires lastTs == 0 && total == 0 && level == 0 && target == 1 && maxCnt == 1 && remaining == 2 * k
          && batches == [] && events == []
      ensures CurValid() && ForestValid() && TargetValid() && HistoryValid() && GapsBefore(events, batches, lastTs)
    {
      hide *;
      NoBatches(third, k);
      NothingCounted();
      NothingHeld();
      NothingAimedAt();
      NothingToTell();
    }

    lemma NothingCounted()
      requires 0 < k && cur.State() == Empty(k) && cur.eps == 1.0 / k as real && k as real * third >= 1.0
      requires lastTs == 0 && total == 0 && batches == [] && events == []
      ensures CurValid()
    {
      hide StandsFor;
      EmptyStands(k);
      assert Keys(events) - Purged(batches) == multiset{};
    }

    lemma NothingHeld()
      requires 0 < k && slots.Length == 64 && (forall i :: 0 <= i < 64 ==> slots[i] == Free) && level == 0
          && remaining == 2 * k && batches == []
      requires Storable(k, [])
      ensures ForestValid()
    {
      hide Covers, Binary, Storable;
      AllFree(k, slots[..], 0);
    }

    lemma NothingAimedAt()
      requires 0 < k && level == 0 && target == 1 && maxCnt == 1 && remaining == 2 * k && batches == []
          && Enough(k, 0, 2 * k, 0)
      ensures TargetValid()
    {
      hide Enough;
    }

    lemma NothingToTell()
      requires events == [] && batches == [] && Chronicle(third, k, [], [])
      ensures HistoryValid()
    {
      hide Chronicle;
    }

    /** Slots below the level are empty, those above count the batches in binary. */
    ghost predicate ForestValid()
      reads `level, `remaining, `batches, slots
    {
      && slots.Length == 64 && level <= 64
      && 0 < k && Storable(k, batches)
      && (forall j :: 0 <= j < level ==> slots[j].Free?)
      && Covers(k, slots[..], level, batches)
      && 0 < remaining <= 2 * k && Binary(slots[..], level, 2 * k - remaining)
    }

    /** `while (m_tree[level])`: carry the new tree up to the first free slot. */
    method Hang(leaf: Tree, ghost b: Batch) returns (ok: bool)
      requires slots.Length == 64 && level <= 64 && 0 < k && remaining <= 2 * k
      requires forall j :: 0 <= j < level ==> slots[j].Free?
      requires Storable(k, batches) && Covers(k, slots[..], level, batches)
      requires Binary(slots[..], level, 2 * k - remaining)
      requires Storable(k, [b]) && Holds(k, leaf, [b], true)
      modifies slots
      ensures ok <==> old(exists j :: level <= j < 64 && slots[j].Free?)
      ensures ok ==>
        && (forall j :: 0 <= j < level ==> slots[j].Free?)
        && Covers(k, slots[..], level, batches + [b])
        && Binary(slots[..], level, 2 * k - remaining + 1)
    {
      hide *;
      var tn, i := leaf, level;
      ghost var slots0 := slots[..];
      ghost var all := batches + [b];
      ghost var rest, mine := batches, [b];
      StorableOne(k, batches, b);
      while i < 64 && slots[i].Used?
        invariant level <= i <= 64
        invariant rest + mine == all && Storable(k, all)
        invariant Holds(k, tn, mine, true) && Covers(k, slots[..], i, rest)
        invariant forall j :: 0 <= j < i ==> slots[j].Free?
        invariant forall j :: i <= j < 64 ==> slots[j] == slots0[j]
        invariant forall j :: level <= j < i ==> slots0[j].Used?
      {
        var older := slots[i].tree;
        ghost var n := |rest| - Size(older);
        CarryReady(k, slots[..], i, rest, tn, mine);
        var merged := MergeTables(k, tn.mg.cnt, older.mg.cnt);
        CarryKeeps(k, slots[..], i, rest, tn, mine, merged);
        ghost var before := slots[..];
        tn := Join(older, tn, merged);
        slots[i] := Free;
        assert slots[..] == before[i := Free];
        rest, mine := rest[..n], rest[n..] + mine;
        i := i + 1;
      }
      if i == 64 { return false; }
      ghost var before := slots[..];
      slots[i] := Used(tn);
      assert slots[..] == before[i := Used(tn)];
      HangKeeps(k, before, level, i, rest, tn, mine);
      BinaryCarry(slots0, slots[..], level, i, 2 * k - remaining);
      ok := true;
    }

    /** The sketch and the batches together stand for everything that came. */
    ghost predicate CurValid()
      reads `total, `events, `lastTs, `batches, cur
    {
      && cur.k == k && 0 < k && cur.eps == 1.0 / k as real && k as real * third >= 1.0
      && total == |events| && EndsAt(events, lastTs)
      && Purged(batches) <= Keys(events)
      && StandsFor(cur.State(), Keys(events) - Purged(batches))
    }

    ghost function LastTotal(): nat
      reads `batches
    {
      if batches == [] then 0 else batches[|batches| - 1].total
    }

    ghost predicate TargetValid()
      reads `level, `remaining, `target, `maxCnt, `batches
    {
      && maxCnt == Pow2(level)
      && (batches == [] ==> target == 1 && level == 0)
      && (batches != [] ==> target == LastTotal() + maxCnt && batches[|batches| - 1].room == maxCnt)
      && 0 < remaining && Enough(k, level, remaining, LastTotal())
    }

    ghost predicate HistoryValid()
      reads `batches, `events
    {
      Chronicle(third, k, events, batches)
    }

    ghost predicate CutBefore(ts: nat)
      reads `batches
    {
      forall b <- batches :: b.ts < ts
    }

    ghost predicate Valid()
      reads this, slots, cur
    {
      && CurValid() && ForestValid() && TargetValid() && HistoryValid()
      && CutBefore(lastTs) && GapsBefore(events, batches, lastTs)
      && (lastTs > 0 ==> Started(events, lastTs))
      && LastTotal() <= total && (total > 0 ==> LastTotal() < total)
    }

    /** Move one counter to the leaf's sketch. */
    method Move(leaf: MisraGries, x: Key)
      requires leaf != cur && leaf.State().Valid() && leaf.delta == 0
      requires x in cur.cnt && cur.cnt[x] > 0 && x !in leaf.cnt && |leaf.cnt| < leaf.k - 1
      modifies leaf, cur`cnt
      ensures leaf.State().Valid() && leaf.delta == 0 && leaf.cnt == old(leaf.cnt)[x := old(cur.cnt[x])]
      ensures cur.cnt == old(cur.cnt) - {x}
    {
      leaf.Store(x, cur.cnt[x]);
      cur.cnt := cur.cnt - {x};
    }

    /** The purging loop: counters that reach the threshold move to the leaf's sketch. */
    method MoveLarge(leaf: MisraGries)
      requires leaf != cur && leaf.State().Valid() && leaf.delta == 0 && leaf.cnt == map[]
      requires |cur.cnt| <= leaf.k - 1 && Positive(cur.cnt)
      modifies leaf, cur`cnt
      ensures leaf.State().Valid() && leaf.delta == 0
      ensures leaf.cnt == Large(third, total, old(cur.cnt)) && cur.cnt == Rest(third, total, old(cur.cnt))
    {
      ghost var before := cur.cnt;
      var todo := cur.cnt.Keys;
      assert before - todo == map[] && Large(third, total, map[]) == map[] && before - leaf.cnt.Keys == before;
      hide *;
      while todo != {}
        invariant todo <= cur.cnt.Keys <= before.Keys
        invariant cur.cnt == before - leaf.cnt.Keys && Positive(before)
        invariant leaf.State().Valid() && leaf.delta == 0
        invariant leaf.cnt == Large(third, total, before - todo)
        invariant |before| <= leaf.k - 1
      {
        var x :| x in todo;
        LargeOne(third, total, before, todo, x);
        todo := todo - {x};
        if IsLarge(third, total, cur.cnt[x]) {
          PositiveAt(before, x);
          MinusOne(before, leaf.cnt, x, cur.cnt[x]);
          Move(leaf, x);
        }
      }
      assert before - todo == before;
      RestIsLeft(third, total, before);
    }

    method Purge() returns (leaf: MisraGries)
      requires cur.State().Valid() && cur.delta == 0 && Positive(cur.cnt)
      modifies cur`cnt, cur`minCnt
      ensures fresh(leaf) && leaf.cnt == Large(third, total, old(cur.cnt))
      ensures cur.cnt == Rest(third, total, old(cur.cnt)) && cur.State().Valid()
      ensures cur.minCnt == if cur.cnt == map[] then Infinite else old(cur.minCnt)
    {
      hide Large, Rest, Positive;
      ghost var s := cur.State();
      leaf := new MisraGries(cur.k);
      MoveLarge(leaf);
      if cur.cnt == map[] {
        cur.minCnt := Infinite;
      }
      RestIsLeft(third, total, s.cnt);
      RestIsValid(s, cur.State(), Large(third, total, s.cnt).Keys);
    }

    lemma PositiveAt(t: Table, x: Key)
      requires Positive(t) && x in t
      ensures t[x] > 0
    {
    }

    /** Settle the sketch and move its large counters into a new one. */
    method CutBatch() returns (leaf: MisraGries, ghost b: Batch)
      requires CurValid() && HistoryValid() && CutBefore(lastTs) && Started(events, lastTs)
      requires TargetValid() && 0 < k && LastTotal() < total && target <= total + 1
      modifies cur
      ensures b.ts == lastTs && b.total == total && b.counts == leaf.cnt && b.room == NextRoomOf()
      ensures Chronicle(third, k, events, batches + [b]) && Storable(k, [b])
      ensures Purged(batches + [b]) <= Keys(events)
      ensures StandsFor(cur.State(), Keys(events) - Purged(batches + [b]))
      ensures b.counts == Large(third, total, old(cur.State().Effective()))
      ensures cur.State() == Remnant(third, total, old(cur.State()))
    {
      hide Credit, Purged, Keys, NoOvercount, Large, Rest, Chronicle, Started, Storable, MinOf;
      RoomIsFair();
      ghost var e := cur.State().Effective();
      b := Batch(lastTs, total, Large(third, total, e), Exactly(Large(third, total, e)), Rest(third, total, e),
        NextRoomOf());
      CutFacts(b, e);
      cur.Settled();
      leaf := Purge();
      EffectiveIsRaw(cur.State());
    }

    /** One node less to come at this level, or on to the next level. */
    method Promote(ghost bs: seq<Batch>)
      requires slots.Length == 64 && level <= 64 && 0 < k && 0 < remaining <= 2 * k
      requires forall j :: 0 <= j < level ==> slots[j].Free?
      requires Covers(k, slots[..], level, bs) && Binary(slots[..], level, 2 * k - remaining + 1)
      modifies `level, `remaining, `maxCnt
      ensures level <= 64 && 0 < remaining <= 2 * k
      ensures forall j :: 0 <= j < level ==> slots[j].Free?
      ensures Covers(k, slots[..], level, bs) && Binary(slots[..], level, 2 * k - remaining)
      ensures if old(remaining) == 1 then level == old(level) + 1 && remaining == k && maxCnt == 2 * old(maxCnt)
              else level == old(level) && remaining == old(remaining) - 1 && maxCnt == old(maxCnt)
    {
      hide Covers, Binary;
      remaining := remaining - 1;
      if remaining == 0 {
        PromoteKeeps(k, slots[..], level, bs);
        level := level + 1;
        remaining := k;
        maxCnt := 2 * maxCnt;
      }
    }

    /** The counters cut are storable and account for everything that came so far. */
    lemma CutFacts(b: Batch, e: Table)
      requires CurValid() && HistoryValid() && b.ts == lastTs && b.total == total && e == cur.State().Effective()
      requires b.items == Exactly(b.counts)
      requires b.counts == Large(third, total, e) && b.residue == Rest(third, total, e)
      requires RoomFits(k, b.room, b.total)
      requires CutBefore(lastTs) && Started(events, lastTs)
      ensures Chronicle(third, k, events, batches + [b])
      ensures Purged(batches + [b]) <= Keys(events)
      ensures Credit(k, b.residue, Keys(events) - Purged(batches + [b]))
      ensures NoOvercount(b.residue, Keys(events) - Purged(batches + [b]))
      ensures Storable(k, [b])
    {
      hide Keys, Purged, Large, Rest, AllAccounted, Credit, Small, Started;
      SeenAll(events, lastTs);
      PurgedOne(batches, b);
      CutAccount(third, k, Purged(batches), Keys(events), b, e);
      CutIsAccounted(third, k, events, batches, b);
      CutIsStorable(third, k, total, cur.State(), b);
      CreditNeverOvercounts(k, b.residue, Keys(events) - Purged(batches + [b]));
    }

    ghost function NextRoomOf(): nat
      reads `remaining, `maxCnt
    {
      if remaining == 1 then 2 * maxCnt else maxCnt
    }

    lemma ForestFacts()
      requires ForestValid() && TargetValid() && LastTotal() < total && target <= total + 1
      ensures slots.Length == 64 && level <= 64 && 0 < k && 0 < remaining <= 2 * k
      ensures forall j :: 0 <= j < level ==> slots[j].Free?
      ensures Storable(k, batches) && Covers(k, slots[..], level, batches)
      ensures Binary(slots[..], level, 2 * k - remaining)
      ensures Enough(k, level, remaining, LastTotal()) && total + 1 >= LastTotal() + Pow2(level)
      ensures maxCnt == Pow2(level) && NextRoomOf() == if remaining == 1 then 2 * maxCnt else maxCnt
    {
      hide Storable, Covers, Binary, Enough;
    }

    /** Hang the batch's leaf, then fix the level and the target. */
    method Insert(leaf: Tree, ghost b: Batch) returns (ok: bool)
      requires ForestValid() && TargetValid() && LastTotal() < total && target <= total + 1
      requires Holds(k, leaf, [b], true) && Storable(k, [b]) && b.total == total && b.room == NextRoomOf()
      modifies `level, `remaining, `target, `maxCnt, `batches, slots
      ensures ok <==> 2 * k - old(remaining) + 1 < Pow2(64 - old(level))
      ensures ok ==> ForestValid() && TargetValid() && batches == old(batches) + [b]
      ensures ok ==> Plan() == old(Plan()).Next(k, total)
    {
      hide *;
      ForestFacts();
      NextRoom(k, level, remaining, LastTotal(), total);
      BinaryFull(slots[..], level, 2 * k - remaining);
      ok := Hang(leaf, b);
      if !ok { return; }
      ghost var plan := Plan();
      PlanParts();
      Promote(batches + [b]);
      Retarget(b);
      PlanIs(plan);
    }

    /** Where the cutting of batches has got to. */
    ghost function Plan(): Schedule
      reads `level, `remaining, `target, `maxCnt
    {
      Schedule(level, remaining, target, maxCnt)
    }

    lemma PlanParts()
      ensures Plan() == Schedule(level, remaining, target, maxCnt)
    {
    }

    lemma PlanIs(plan: Schedule)
      requires 0 < plan.remaining && target == total + maxCnt
      requires if plan.remaining == 1 then level == plan.level + 1 && remaining == k && maxCnt == 2 * plan.maxCnt
               else level == plan.level && remaining == plan.remaining - 1 && maxCnt == plan.maxCnt
      ensures Plan() == plan.Next(k, total)
    {
    }

    /** A change to time ts cuts a batch. */
    ghost predicate Due(ts: nat)
      reads `lastTs, `total, `target
    {
      lastTs > 0 && lastTs != ts && total + 1 >= target
    }

    lemma RoomIsFair()
      requires TargetValid() && 0 < k && LastTotal() < total && target <= total + 1
      ensures RoomFits(k, NextRoomOf(), total)
    {
      hide Enough;
      NextRoom(k, level, remaining, LastTotal(), total);
    }

    /** `merge_cur_sketch`; it throws, returning false, when all slots are taken. */
    method MergeCurSketch() returns (ok: bool)
      requires CurValid() && ForestValid() && TargetValid() && HistoryValid() && CutBefore(lastTs)
      requires LastTotal() < total && target <= total + 1 && Started(events, lastTs)
      modifies `level, `remaining, `target, `maxCnt, `batches, slots, cur
      ensures ok <==> 2 * k - old(remaining) + 1 < Pow2(64 - old(level))
      ensures ok ==>
        && CurValid() && ForestValid() && TargetValid() && HistoryValid()
        && batches != [] && LastTotal() == total
        && batches[..|batches| - 1] == old(batches) && batches[|batches| - 1].ts == lastTs
      ensures ok ==> Plan() == old(Plan()).Next(k, total) && cur.State() == Remnant(third, total, old(cur.State()))
      ensures ok ==> CutOne(old(batches), batches, lastTs, total, Large(third, total, old(cur.State().Effective())))
    {
      hide StandsFor, Chronicle, Purged, Keys, Started, Pow2, ForestValid, TargetValid, Storable, Remnant, Large,
          Schedule.Next;
      var leaf, b := CutBatch();
      ok := Insert(Leaf(lastTs, total, Kept(leaf.cnt)), b);
    }

    /** Set the count at which the next batch is cut. */
    method Retarget(ghost b: Batch)
      requires slots.Length == 64 && level <= 64 && 0 < k && 0 < remaining <= 2 * k
      requires forall j :: 0 <= j < level ==> slots[j].Free?
      requires Covers(k, slots[..], level, batches + [b]) && Binary(slots[..], level, 2 * k - remaining)
      requires Storable(k, batches) && Storable(k, [b])
      requires maxCnt == Pow2(level) == b.room && b.total == total && Enough(k, level, remaining, total)
      modifies `target, `batches
      ensures ForestValid() && TargetValid() && batches == old(batches) + [b] && target == total + maxCnt
    {
      hide Storable, Covers, Binary, Enough, Pow2;
      StorableOne(k, batches, b);
      target := total + maxCnt;
      batches := batches + [b];
    }

    /** Cut a batch if the new occurrence reaches the target. */
    method AdvanceTo(ts: nat) returns (ok: bool)
      requires Valid() && lastTs <= ts
      modifies `level, `remaining, `target, `maxCnt, `batches, slots, cur
      ensures ok <==> !old(Due(ts)) || 2 * k - old(remaining) + 1 < Pow2(64 - old(level))
      ensures ok ==>
        && CurValid() && ForestValid() && TargetValid() && HistoryValid()
        && CutBefore(ts) && GapsBefore(events, batches, ts) && LastTotal() <= total
      ensures ok && !old(Due(ts)) ==>
          Plan() == old(Plan()) && batches == old(batches) && cur.State() == old(cur.State())
      ensures ok && old(Due(ts)) ==>
          Plan() == old(Plan()).Next(k, total) && cur.State() == Remnant(third, total, old(cur.State()))
      ensures ok && old(Due(ts)) ==>
        CutOne(old(batches), batches, lastTs, total, Large(third, total, old(cur.State().Effective())))
    {
      hide StandsFor, Chronicle, Purged, Keys, Started, Pow2, Binary, Covers, Storable, Enough, GapsBefore;
      hide Remnant, Large, Schedule.Next;
      ok := true;
      if lastTs > 0 && lastTs != ts {
        ghost var bs := batches;
        TotalIsPositive();
        if total + 1 >= target {
          ForestCount();
          ok := MergeCurSketch();
          if ok {
            CutClosesGap(events, bs, batches[|bs|], ts);
            assert batches == bs + [batches[|bs|]];
          }
        } else {
          RoomCoversGap(events, batches, lastTs, ts);
        }
      } else if ts != lastTs {
        NotStarted(events, batches, ts);
      }
    }

    lemma TotalIsPositive()
      requires Valid() && lastTs > 0
      ensures LastTotal() < total
    {
      var e :| e in events && 0 < e.ts <= lastTs;
    }

    lemma ForestCount()
      requires ForestValid()
      ensures 2 * k - remaining < Pow2(64 - level)
    {
      hide Binary, Covers, Storable, Pow2;
      BinaryFull(slots[..], level, 2 * k - remaining);
    }

    /**
     `update` with a single occurrence: what is cut off, at which counts the next batches are due, and the
     counters left follow from the state before.
     */
    method Update(ts: nat, value: Key) returns (ok: bool)
      requires Valid() && lastTs <= ts
      modifies this, slots, cur
      ensures ok <==> !old(Due(ts)) || 2 * k - old(remaining) + 1 < Pow2(64 - old(level))
      ensures ok ==> Valid() && events == old(events) + [Event(ts, value)] && lastTs == ts && total == old(total) + 1
      ensures ok && !old(Due(ts)) ==>
          Plan() == old(Plan()) && batches == old(batches) && Fed(old(cur.State()), value, cur.State())
      ensures ok && old(Due(ts)) ==> Plan() == old(Plan()).Next(k, old(total))
      ensures ok && old(Due(ts)) ==>
        CutOne(old(batches), batches, old(lastTs), old(total), Large(third, old(total), old(cur.State().Effective())))
      ensures ok && old(Due(ts)) ==> Fed(Remnant(third, old(total), old(cur.State())), value, cur.State())
    {
      hide *;
      ok := AdvanceTo(ts);
      if ok { Count(ts, value); }
    }

    method Count(ts: nat, value: Key)
      requires CurValid() && ForestValid() && TargetValid() && HistoryValid()
      requires CutBefore(ts) && GapsBefore(events, batches, ts) && LastTotal() <= total && lastTs <= ts
      modifies `lastTs, `total, `events, cur
      ensures Valid() && events == old(events) + [Event(ts, value)] && lastTs == ts && total == old(total) + 1
      ensures Fed(old(cur.State()), value, cur.State())
    {
      hide Credit, Purged, Started, Keys, Occurs, AllAccounted, GapsBefore, ForestValid, TargetValid, Step,
          Summary.Valid, Summary.Effective;
      ghost var e := Event(ts, value);
      AppendKeys(events, e);
      AppendStarts(events, e);
      AppendKeepsAccounts(third, k, events, e, batches);
      AppendKeepsGaps(events, e, batches);
      OccursApart(Keys(events), Purged(batches), value);
      cur.Update(value, Keys(events) - Purged(batches));
      lastTs := ts;
      total := total + 1;
      events := events + [e];
    }

    /**
     Find the newest tree with a batch up to ts and merge what of it is not later; the trees
     still to merge start at slot next and hold the batches before m.
     */
    method Search(ts: nat, mg: MisraGries) returns (est: nat, next: nat, ghost n: nat, ghost m: nat)
      requires 0 < k && slots.Length == 64 && level <= 64
      requires Storable(k, batches) && Sorted(batches) && Covers(k, slots[..], level, batches)
      requires mg.k == k && mg.delta == 0 && mg.cnt == map[] && mg.Mergeable()
      modifies mg
      ensures mg.delta == 0 && mg.Mergeable() && Splits(batches, ts, n)
      ensures est == if n == 0 then 0 else batches[n - 1].total
      ensures next <= 64 && m <= n && Covers(k, slots[..], next, batches[..m])
      ensures MergeOf(k, batches[m..n], mg.cnt)
      ensures level <= next && forall j | level <= j < next && slots[j].Used? :: slots[j].tree.ts > ts
    {
      hide *;
      est, next := 0, level;
      n, m := |batches|, |batches|;
      WholeRange(batches, ts);
      while next < 64
        invariant level <= next <= 64 && m <= |batches| && est == 0
        invariant forall j | level <= j < next && slots[j].Used? :: slots[j].tree.ts > ts
        invariant Covers(k, slots[..], next, batches[..m]) && Later(batches, m, ts)
        invariant mg.delta == 0 && mg.cnt == map[] && mg.Mergeable()
      {
        SlotHolds(k, slots[..], next, batches, m, ts);
        if slots[next].Used? {
          var tree := slots[next].tree;
          ghost var c := m - Size(tree);
          if tree.ts > ts {
            var intersects;
            ghost var lo;
            intersects, est, lo := Descend(tree, ts, mg, batches[c..m]);
            WithinTree(k, batches, c, m, ts, lo, mg.cnt);
            m := c;
            if intersects {
              n := c + lo;
              next := next + 1;
              return;
            }
          } else {
            n := m;
            est := tree.total;
            return;
          }
        }
        next := next + 1;
      }
      NothingLeft(k, slots[..], batches, m, ts);
      n := 0;
    }

    /** Merge all trees from slot next up, older and older, asserting that they are dated before ts. */
    method MergeRest(ts: nat, mg: MisraGries, next: nat, ghost bs: seq<Batch>, ghost m: nat) returns (asserted: bool)
      requires 0 < k && slots.Length == 64 && next <= 64
      requires m <= |bs| && Storable(k, bs) && Covers(k, slots[..], next, bs[..m])
      requires mg.k == k && mg.Mergeable() && MergeOf(k, bs[m..], mg.State().Effective())
      modifies mg
      ensures MergeOf(k, bs, mg.State().Effective())
      ensures if m == 0 then mg.State() == old(mg.State()) else mg.cnt == mg.State().Effective()
      ensures asserted <==> forall j | next <= j < 64 && slots[j].Used? :: slots[j].tree.ts < ts
    {
      hide *;
      asserted := true;
      var i := next;
      ghost var rest: nat := m;
      while i < 64
        invariant next <= i <= 64 && rest <= m <= |bs| && mg.k == k && mg.Mergeable()
        invariant asserted <==> forall j | next <= j < i && slots[j].Used? :: slots[j].tree.ts < ts
        invariant Covers(k, slots[..], i, bs[..rest])
        invariant MergeOf(k, bs[rest..], mg.State().Effective())
        invariant if rest == m then mg.State() == old(mg.State()) else mg.cnt == mg.State().Effective()
      {
        RestHolds(k, slots[..], i, bs, rest);
        if slots[i].Used? {
          asserted := asserted && ts > slots[i].tree.ts;
          ghost var c := rest - Size(slots[i].tree);
          ghost var newer := mg.State().Effective();
          MergeInto(mg, slots[i].tree.mg.cnt);
          MergeOlderOf(k, bs, c, rest, slots[i].tree.mg.cnt, newer, mg.State().Effective());
          rest := c;
        }
        i := i + 1;
      }
      AllMerged(k, slots[..], bs, rest, mg.State().Effective());
    }

    /** A tree ends exactly at time ts. */
    ghost predicate RootDated(ts: nat)
      reads `level, slots
    {
      exists j: nat :: level <= j < slots.Length && slots[j].Used? && slots[j].tree.ts == ts
    }

    lemma RootsNotDated(ts: nat, next: nat, m: nat, asserted: bool)
      requires ForestValid() && level <= next && m <= |batches| && Covers(k, slots[..], next, batches[..m])
      requires forall j | level <= j < next && j < 64 && slots[j].Used? :: slots[j].tree.ts > ts
      requires forall b <- batches[..m] :: b.ts <= ts
      requires asserted <==> forall j | next <= j < 64 && slots[j].Used? :: slots[j].tree.ts < ts
      ensures asserted <==> !RootDated(ts)
    {
      hide Storable, Covers, Binary;
      RootsUpTo(k, slots[..], next, batches[..m], ts);
      assert forall j | next <= j < 64 && slots[j].Used? :: slots[..][j].tree.ts <= ts;
    }

    /**
     The merging part of `estimate_heavy_hitters`, and the total count it estimates: exactly the batches
     with a timestamp up to ts are merged, each once, and that is a good answer for time ts. The assertion
     that merged trees are older than ts holds exactly if none is dated ts.
     */
    method MergedAt(ts: nat) returns (mg: MisraGries, est: nat, asserted: bool, ghost n: nat)
      requires Valid()
      ensures fresh(mg) && mg.eps == 1.0 / k as real
      ensures ts < lastTs ==> Splits(batches, ts, n) && MergeOf(k, batches[..n], mg.cnt)
      ensures ts < lastTs ==> est == if n == 0 then 0 else batches[n - 1].total
      ensures ts < lastTs && Started(events, ts) ==> 0 < n && PastNear(third, mg.cnt, est, Seen(events, ts))
      ensures ts < lastTs && Started(events, ts) &&
                (third >= 1.0 / 42.0 || k * (batches[n - 1].room - 2) <= est
                  || Tolerates(third, est, |Seen(events, ts)| - est)) ==>
                Promised(third, mg.cnt, Seen(events, ts))
      ensures asserted <==> ts >= lastTs || !RootDated(ts)
      ensures ts < lastTs && !Started(events, ts) ==> n == 0 && mg.cnt == map[]
      ensures ts >= lastTs ==> Near(k, mg.cnt, Seen(events, ts)) && est == total
    {
      hide *;
      ValidParts();
      if ts >= lastTs {
        mg, asserted := Present(ts);
        SeenAll(events, ts);
        return mg, total, asserted, 0;
      }
      mg, est, asserted, n := Past(ts);
      if Started(events, ts) {
        PastIsNear(third, k, events, batches, lastTs, ts, n, mg.cnt);
        PastPromise(third, k, events, batches, lastTs, ts, n, mg.cnt);
      } else {
        NothingPast(third, k, events, batches, ts, n, mg.cnt);
      }
    }

    lemma ValidParts()
      requires Valid()
      ensures CurValid() && ForestValid() && Sorted(batches) && 0 < k && k as real * third >= 1.0 && CutBefore(lastTs)
      ensures Storable(k, batches) && Chronicle(third, k, events, batches) && GapsBefore(events, batches, lastTs)
      ensures |events| == total && forall ts :: lastTs <= ts ==> EndsAt(events, ts)
    {
      hide Storable, StandsFor, Covers, Binary, GapsBefore, Purged, Keys, AllAccounted, Enough, Started;
    }

    method Past(ts: nat) returns (mg: MisraGries, est: nat, asserted: bool, ghost n: nat)
      requires ForestValid() && Sorted(batches)
      ensures fresh(mg) && mg.eps == 1.0 / k as real
      ensures Splits(batches, ts, n) && MergeOf(k, batches[..n], mg.cnt)
      ensures est == if n == 0 then 0 else batches[n - 1].total
      ensures asserted <==> !RootDated(ts)
    {
      hide RootDated, Storable, Sorted, NotLater, Later, Binary, Covers, MergeOf, Subtract;
      mg := new MisraGries(k);
      var next;
      ghost var m;
      est, next, n, m := Search(ts, mg);
      mg.MergeableIsRaw();
      PastRange(k, slots[..], next, batches, m, n, mg.cnt);
      asserted := MergeRest(ts, mg, next, batches[..n], m);
      assert batches[..n][..m] == batches[..m];
      FirstUpTo(batches, m, n, ts);
      RootsNotDated(ts, next, m, asserted);
    }

    method Present(ts: nat) returns (mg: MisraGries, asserted: bool)
      requires CurValid() && ForestValid() && CutBefore(lastTs) && lastTs <= ts
      ensures fresh(mg) && mg.eps == 1.0 / k as real
      ensures Near(k, mg.cnt, Keys(events)) && asserted
    {
      hide Purged, Keys, MergeOf, Storable, Binary, Covers, Near;
      mg := new MisraGries.Clone(cur);
      ghost var s := cur.State();
      ghost var b := Batch(lastTs, total, s.Effective(), Exactly(s.Effective()), map[], 1);
      ghost var all := batches + [b];
      PseudoBatch(k, s, batches, b);
      ValidIsMergeable(s);
      asserted := MergeRest(ts, mg, level, all, |batches|);
      AllOlder(ts);
      PresentIsNear(k, s, batches, b, mg.State(), Keys(events));
    }

    lemma AllOlder(ts: nat)
      requires ForestValid() && CutBefore(lastTs) && lastTs <= ts
      ensures forall j | level <= j < 64 && slots[j].Used? :: slots[j].tree.ts < ts
    {
      hide Storable, Covers, Binary;
      if batches == [] {
        AllUnused(k, slots[..], level);
      } else {
        assert batches[|batches| - 1].ts < lastTs;
        forall b <- batches ensures b.ts <= lastTs - 1 {}
        RootsUpTo(k, slots[..], level, batches, lastTs - 1);
      }
      assert forall j | level <= j < 64 && slots[j].Used? :: slots[..][j].tree.ts < ts;
    }

    lemma ValidIsMergeable(s: Summary)
      requires s.Valid()
      ensures forall x <- s.cnt :: s.cnt[x] > s.delta
    {
    }

    /**
     `estimate_heavy_hitters`: whatever is frequent up to the last batch by time ts is reported, and
     whatever is reported occurred that often but for the tolerance, with a count as good as the answer's.
     A hit's reported fraction is its count out of est.
     */
    method EstimateHeavyHitters(ts: nat, frac: real)
      returns (hits: map<Key, nat>, est: nat, asserted: bool, ghost n: nat)
      requires Valid() && frac >= third + 1.0 / k as real
      ensures ts < lastTs ==> Splits(batches, ts, n)
      ensures ts < lastTs && n > 0 ==>
        forall x: Key | Frequent(Seen(events, batches[n - 1].ts), x, frac) :: x in hits
      ensures ts >= lastTs && total > 0 ==> forall x: Key | Frequent(Seen(events, ts), x, frac) :: x in hits
      ensures 0 < k
      ensures ts < lastTs && Started(events, ts) ==>
          0 < n && AllOccur(third, k, hits, batches[n - 1].total, frac, Seen(events, ts))
      ensures ts >= lastTs ==> AllOccur(third, k, hits, total, frac, Seen(events, ts))
      ensures est == if ts >= lastTs then total else if n == 0 then 0 else batches[n - 1].total
      ensures ts >= lastTs ==> CountsNear(k, hits, Seen(events, ts))
      ensures ts < lastTs && Started(events, ts) ==> CountsPast(third, hits, est, Seen(events, ts))
      ensures ts < lastTs && Started(events, ts) &&
                (third >= 1.0 / 42.0 || k * (batches[n - 1].room - 2) <= est
                  || Tolerates(third, est, |Seen(events, ts)| - est)) ==>
                CountsPromised(third, hits, Seen(events, ts))
      ensures ts < lastTs && !Started(events, ts) ==> hits == map[]
      ensures asserted <==> ts >= lastTs || !RootDated(ts)
    {
      hide *;
      var mg;
      mg, est, asserted, n := MergedAt(ts);
      SplitsLength(ts, n);
      hits := Report(mg, frac, est);
      CountsOf(third, k, mg.cnt, hits, est, Seen(events, ts));
      NoHits(mg.cnt, hits);
      if ts >= lastTs || Started(events, ts) {
        NeverOver(third, k, mg.cnt, est, Seen(events, ts));
        HitsOccur(third, k, mg.cnt, hits, est, frac, Seen(events, ts));
      }
      if ts < lastTs {
        if n > 0 {
          PastHits(ts, n, mg.cnt, frac);
          HitsAre(mg.cnt, hits, Seen(events, batches[n - 1].ts), Threshold(third, k, est, frac), frac);
        }
      } else if total > 0 {
        PresentHits(ts, mg.cnt, frac);
        HitsAre(mg.cnt, hits, Seen(events, ts), Threshold(third, k, est, frac), frac);
      }
    }

    method Report(mg: MisraGries, frac: real, est: nat) returns (hits: map<Key, nat>)
      requires 0 < k && mg.eps == 1.0 / k as real && frac >= third + mg.eps
      ensures forall x :: x in hits <==> x in mg.cnt && mg.cnt[x] >= Threshold(third, k, est, frac)
      ensures Copied(mg.cnt, hits)
    {
      hits := mg.EstimateHeavyHitters(frac - third, est);
    }

    lemma NoHits(r: Table, hits: map<Key, nat>)
      requires Copied(r, hits)
      ensures r == map[] ==> hits == map[]
    {
    }

    lemma SplitsLength(ts: nat, n: nat)
      requires Valid()
      ensures 0 < k
      ensures Splits(batches, ts, n) ==> n <= |batches|
    {
    }

    lemma PresentHits(ts: nat, r: Table, frac: real)
      requires Valid() && lastTs <= ts && frac >= third + 1.0 / k as real && 0 < total
      requires Near(k, r, Seen(events, ts))
      ensures AllReported(Seen(events, ts), r, Threshold(third, k, total, frac), frac)
    {
      hide Near, Seen, Keys, Purged, StandsFor, ForestValid, TargetValid, HistoryValid, GapsBefore, AllReported,
          Threshold;
      SeenAll(events, ts);
      NearReports(third, k, Seen(events, ts), r, frac);
    }

    lemma PastHits(ts: nat, n: nat, r: Table, frac: real)
      requires Valid() && ts < lastTs && frac >= third + 1.0 / k as real
      requires Splits(batches, ts, n) && MergeOf(k, batches[..n], r) && 0 < n
      ensures AllReported(Seen(events, batches[n - 1].ts), r, Threshold(third, k, batches[n - 1].total, frac), frac)
    {
      hide Seen, Purged, Binary, Covers, TargetValid, MergeOf, Chronicle, Storable, GapsBefore, CurValid, AllReported,
          Threshold;
      PastReports(third, k, events, batches, lastTs, ts, n, r, frac);
    }
  }
}
