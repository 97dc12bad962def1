/** The binary-counter forest of the tree sketches (pmmg.cpp) and the trees batches are merged into. */
module Forest {
  import opened Products
  import opened Counts
  import opened MisraGriesSpec
  import opened Timeline
  import opened Batches

  datatype Tree =
    | Leaf(ts: nat, total: nat, mg: Sketch)
    | Node(ts: nat, total: nat, mg: Sketch, left: Tree, right: Tree)

  datatype Slot = Free | Used(tree: Tree)

  // ----- trees

  function Size(t: Tree): (n: nat)
    ensures n > 0
  {
    match t
    case Leaf(_, _, _) => 1
    case Node(_, _, _, l, r) => Size(l) + Size(r)
  }

  /**
   The tree stands for the batches, oldest first: left children and the root itself keep
   the merge of their batches, right children have handed theirs to the parent.
   */
  ghost predicate Holds(k: nat, t: Tree, bs: seq<Batch>, keeps: bool) {
    && |bs| == Size(t)
    && t.ts == bs[|bs| - 1].ts && t.total == bs[|bs| - 1].total
    && (if keeps then t.mg.Kept? && MergeOf(k, bs, t.mg.cnt) else t.mg.Dropped?)
    && (t.Node? ==> var n := Size(t.left); Holds(k, t.left, bs[..n], true) && Holds(k, t.right, bs[n..], false))
  }

  /** The slots from i on hold the batches, older ones in higher slots. */
  ghost predicate Covers(k: nat, slots: seq<Slot>, i: nat, bs: seq<Batch>)
    decreases |slots| - i
  {
    if i >= |slots| then bs == []
    else match slots[i]
      case Free => Covers(k, slots, i + 1, bs)
      case Used(t) =>
        var n := |bs| - Size(t);
        0 <= n && Holds(k, t, bs[n..], true) && Covers(k, slots, i + 1, bs[..n])
  }

  lemma {:induction false} CoversFrame(k: nat, slots: seq<Slot>, slots': seq<Slot>, i: nat, bs: seq<Batch>)
    requires |slots| == |slots'| && Covers(k, slots, i, bs) && forall j :: i <= j < |slots| ==> slots[j] == slots'[j]
    ensures Covers(k, slots', i, bs)
    decreases |slots| - i
  {
    hide Holds;
    if i < |slots| {
      assert slots[i] == slots'[i];
      match slots[i]
      case Free => CoversFrame(k, slots, slots', i + 1, bs);
      case Used(t) => CoversFrame(k, slots, slots', i + 1, bs[..|bs| - Size(t)]);
    }
  }

  /** One carry: the newer tree joins the older one of its level. */
  function Join(older: Tree, newer: Tree, merged: Table): Tree {
    Node(newer.ts, newer.total, Kept(merged), older, newer.(mg := Dropped))
  }

  lemma {:induction false} DropHolds(k: nat, t: Tree, bs: seq<Batch>)
    requires Holds(k, t, bs, true)
    ensures Holds(k, t.(mg := Dropped), bs, false)
  {
  }

  lemma JoinHolds(k: nat, older: Tree, newer: Tree, merged: Table, bs: seq<Batch>)
    requires 0 < k && Storable(k, bs) && |bs| == Size(older) + Size(newer)
    requires Holds(k, older, bs[..Size(older)], true) && Holds(k, newer, bs[Size(older)..], true)
    requires Merged(k, newer.mg.cnt, older.mg.cnt, merged)
    ensures Holds(k, Join(older, newer, merged), bs, true)
  {
    hide *;
    DropHolds(k, newer, bs[Size(older)..]);
    RootAge(k, older, bs[..Size(older)]);
    RootAge(k, newer, bs[Size(older)..]);
    MergeOlder(k, bs, Size(older), older.mg.cnt, newer.mg.cnt, merged);
    JoinIs(k, older, newer, merged, bs);
  }

  lemma JoinIs(k: nat, older: Tree, newer: Tree, merged: Table, bs: seq<Batch>)
    requires |bs| == Size(older) + Size(newer) && |bs| > 0 && MergeOf(k, bs, merged)
    requires newer.ts == bs[|bs| - 1].ts && newer.total == bs[|bs| - 1].total
    requires Holds(k, older, bs[..Size(older)], true) && Holds(k, newer.(mg := Dropped), bs[Size(older)..], false)
    ensures Holds(k, Join(older, newer, merged), bs, true)
  {
    hide MergeOf;
    assert Size(newer.(mg := Dropped)) == Size(newer);
  }

  /** The sketches a carry merges are proper ones. */
  lemma CarryIsMergeable(k: nat, older: Tree, rest: seq<Batch>)
    requires 0 < k && Storable(k, rest) && Holds(k, older, rest, true)
    ensures Positive(older.mg.cnt)
  {
    hide MergeOf;
    MergeOfCredit(k, rest, older.mg.cnt);
  }

  lemma RootAge(k: nat, t: Tree, bs: seq<Batch>)
    requires Holds(k, t, bs, true)
    ensures bs != [] && t.ts == bs[|bs| - 1].ts && t.total == bs[|bs| - 1].total
    ensures t.mg.Kept? && MergeOf(k, bs, t.mg.cnt)
  {
  }

  lemma LeafIsOne(k: nat, t: Tree, bs: seq<Batch>, lo: nat, hi: nat, keeps: bool)
    requires lo <= hi <= |bs| && t.Leaf? && Holds(k, t, bs[lo..hi], keeps)
    ensures hi == lo + 1 && t.ts == bs[lo].ts
  {
  }

  lemma ChildrenHold(k: nat, t: Tree, bs: seq<Batch>, lo: nat, hi: nat, keeps: bool)
    requires lo < hi <= |bs| && t.Node? && Holds(k, t, bs[lo..hi], keeps)
    ensures var mid := lo + Size(t.left);
            && mid < hi
            && Holds(k, t.left, bs[lo..mid], true) && Holds(k, t.right, bs[mid..hi], false)
            && t.left.ts == bs[mid - 1].ts && t.left.total == bs[mid - 1].total && t.right.ts == t.ts
            && t.left.mg.Kept? && MergeOf(k, bs[lo..mid], t.left.mg.cnt)
  {
    hide MergeOf;
    var n := Size(t.left);
    assert bs[lo..hi][..n] == bs[lo..lo + n] && bs[lo..hi][n..] == bs[lo + n..hi];
  }

  lemma StoredIsPositive(k: nat, bs: seq<Batch>, lo: nat, hi: nat, t: Table)
    requires 0 < k && lo <= hi <= |bs| && Storable(k, bs) && MergeOf(k, bs[lo..hi], t)
    ensures Positive(t)
  {
    hide MergeOf, Positive;
    forall b <- bs[lo..hi] ensures b in bs {}
    assert Storable(k, bs[lo..hi]);
    MergeOfCredit(k, bs[lo..hi], t);
  }

  lemma CarryReady(k: nat, slots: seq<Slot>, i: nat, rest: seq<Batch>, newer: Tree, mine: seq<Batch>)
    requires 0 < k && Storable(k, rest + mine) && i < |slots| && slots[i].Used?
    requires Covers(k, slots, i, rest) && Holds(k, newer, mine, true)
    ensures Size(slots[i].tree) <= |rest|
    ensures newer.mg.Kept? && Positive(newer.mg.cnt)
    ensures slots[i].tree.mg.Kept? && Positive(slots[i].tree.mg.cnt)
  {
    hide *;
    var older := slots[i].tree;
    var n := SlotParts(k, slots, i, rest);
    StorableParts(k, rest[..n], rest[n..], mine, rest + mine);
    CarryIsMergeable(k, older, rest[n..]);
    CarryIsMergeable(k, newer, mine);
    HoldsSize(k, older, rest[n..]);
    HoldsSize(k, newer, mine);
  }

  lemma SlotParts(k: nat, slots: seq<Slot>, i: nat, rest: seq<Batch>) returns (n: nat)
    requires i < |slots| && slots[i].Used? && Covers(k, slots, i, rest)
    ensures n == |rest| - Size(slots[i].tree) && rest == rest[..n] + rest[n..]
    ensures Holds(k, slots[i].tree, rest[n..], true) && Covers(k, slots, i + 1, rest[..n])
  {
    hide Holds;
    n := |rest| - Size(slots[i].tree);
  }

  lemma StorableParts(k: nat, a: seq<Batch>, b: seq<Batch>, c: seq<Batch>, all: seq<Batch>)
    requires Storable(k, all) && all == (a + b) + c
    ensures Storable(k, b) && Storable(k, c) && Storable(k, b + c)
  {
    hide Storable;
    assert all == a + (b + c);
    StorablePart(k, a, b + c);
    StorablePart(k, b, c);
  }

  lemma CarryJoins(k: nat, older: Tree, newer: Tree, merged: Table, a: seq<Batch>, b: seq<Batch>)
    requires 0 < k && Storable(k, a + b) && Holds(k, older, a, true) && Holds(k, newer, b, true)
    requires newer.mg.Kept? && older.mg.Kept? && Merged(k, newer.mg.cnt, older.mg.cnt, merged)
    ensures Holds(k, Join(older, newer, merged), a + b, true)
  {
    hide Holds, Merged, Storable, Join;
    HoldsSize(k, older, a);
    HoldsSize(k, newer, b);
    assert (a + b)[..|a|] == a && (a + b)[|a|..] == b;
    JoinHolds(k, older, newer, merged, a + b);
  }

  /** A carry out of slot i keeps every batch, in order. */
  lemma CarryKeeps(k: nat, slots: seq<Slot>, i: nat, rest: seq<Batch>, newer: Tree, mine: seq<Batch>, merged: Table)
    requires 0 < k && Storable(k, rest + mine) && i < |slots| && slots[i].Used?
    requires Covers(k, slots, i, rest) && Holds(k, newer, mine, true)
    requires Merged(k, newer.mg.cnt, slots[i].tree.mg.cnt, merged)
    ensures var n := |rest| - Size(slots[i].tree);
            && n >= 0
            && Holds(k, Join(slots[i].tree, newer, merged), rest[n..] + mine, true)
            && Covers(k, slots[i := Free], i + 1, rest[..n])
  {
    hide *;
    var older := slots[i].tree;
    var n := SlotParts(k, slots, i, rest);
    CoversFrame(k, slots, slots[i := Free], i + 1, rest[..n]);
    StorableParts(k, rest[..n], rest[n..], mine, rest + mine);
    HoldsSize(k, older, rest[n..]);
    HoldsSize(k, newer, mine);
    CarryJoins(k, older, newer, merged, rest[n..], mine);
  }

  /** The tree comes to rest in the free slot i, with the slots below it empty. */
  lemma HangKeeps(k: nat, slots: seq<Slot>, level: nat, i: nat, rest: seq<Batch>, tn: Tree, mine: seq<Batch>)
    requires level <= i < |slots| && Covers(k, slots, i, rest) && slots[i].Free? && Holds(k, tn, mine, true)
    requires forall j :: level <= j < i ==> slots[j].Free?
    ensures Covers(k, slots[i := Used(tn)], level, rest + mine)
  {
    hide Holds;
    var slots' := slots[i := Used(tn)];
    CoversFrame(k, slots, slots', i + 1, rest);
    HoldsSize(k, tn, mine);
    assert (rest + mine)[|rest|..] == mine && (rest + mine)[..|rest|] == rest;
    CoversEmpty(k, slots', level, i, rest + mine);
  }

  lemma {:induction false} CoversEmpty(k: nat, slots: seq<Slot>, level: nat, i: nat, bs: seq<Batch>)
    requires level <= i <= |slots| && forall j :: level <= j < i ==> slots[j].Free?
    ensures Covers(k, slots, level, bs) == Covers(k, slots, i, bs)
    decreases i - level
  {
    if level < i { CoversEmpty(k, slots, level + 1, i, bs); }
  }

  lemma HoldsSize(k: nat, t: Tree, bs: seq<Batch>)
    requires Holds(k, t, bs, true)
    ensures |bs| == Size(t) && t.mg.Kept?
  {
  }


  // ----- binary counting

  /** Slot level + j is in use exactly when bit j of u is set. */
  ghost predicate Binary(slots: seq<Slot>, i: nat, u: nat)
    decreases |slots| - i
  {
    if i >= |slots| then u == 0
    else slots[i].Used? == (u % 2 == 1) && Binary(slots, i + 1, u / 2)
  }

  /** Nothing in the slots stands for no batches. */
  lemma {:induction false} AllFree(k: nat, slots: seq<Slot>, i: nat)
    requires i <= |slots| && forall j :: i <= j < |slots| ==> slots[j].Free?
    ensures Covers(k, slots, i, []) && Binary(slots, i, 0)
    decreases |slots| - i
  {
    if i < |slots| { AllFree(k, slots, i + 1); }
  }

  lemma {:induction false} BinaryFrame(slots: seq<Slot>, slots': seq<Slot>, i: nat, u: nat)
    requires |slots| == |slots'| && Binary(slots, i, u)
    requires forall j :: i <= j < |slots| ==> slots[j].Used? == slots'[j].Used?
    ensures Binary(slots', i, u)
    decreases |slots| - i
  {
    if i < |slots| { BinaryFrame(slots, slots', i + 1, u / 2); }
  }

  /** Hanging one more tree at slot i, with carries up to slot e, counts one more. */
  lemma {:induction false} BinaryCarry(slots: seq<Slot>, slots': seq<Slot>, i: nat, e: nat, u: nat)
    requires i <= e < |slots| == |slots'| && Binary(slots, i, u)
    requires forall j :: i <= j < e ==> slots[j].Used? && slots'[j].Free?
    requires slots[e].Free? && slots'[e].Used?
    requires forall j :: e < j < |slots| ==> slots[j] == slots'[j]
    ensures Binary(slots', i, u + 1)
    decreases e - i
  {
    if i == e {
      BinaryFrame(slots, slots', i + 1, u / 2);
      assert (u + 1) / 2 == u / 2;
    } else {
      BinaryCarry(slots, slots', i + 1, e, u / 2);
      assert (u + 1) / 2 == u / 2 + 1;
    }
  }

  /** The forest overflows only when it already holds a tree in every slot. */
  lemma {:induction false} BinaryFull(slots: seq<Slot>, i: nat, u: nat)
    requires i <= |slots| && Binary(slots, i, u)
    ensures (forall j :: i <= j < |slots| ==> slots[j].Used?) <==> u + 1 == Pow2(|slots| - i)
    ensures u < Pow2(|slots| - i)
    decreases |slots| - i
  {
    if i < |slots| {
      BinaryFull(slots, i + 1, u / 2);
      assert u == 2 * (u / 2) + u % 2;
    }
  }

  /** Once the bottom slot has been filled 2k times it is free and the next level holds k trees. */
  lemma PromoteKeeps(k: nat, slots: seq<Slot>, level: nat, bs: seq<Batch>)
    requires 0 < k && level <= |slots| && Covers(k, slots, level, bs) && Binary(slots, level, 2 * k)
    ensures level < |slots| && slots[level].Free?
    ensures Covers(k, slots, level + 1, bs) && Binary(slots, level + 1, k)
  {
    assert (2 * k) % 2 == 0 && 2 * k / 2 == k;
  }

  // ----- cutting a batch

  predicate IsLarge(third: Third, total: nat, v: nat) {
    v as real >= total as real * third
  }

  /** The counters that reach the purge threshold. */
  function Large(third: Third, total: nat, t: Table): Table {
    map x | x in t && IsLarge(third, total, t[x]) :: Get(t, x)
  }

  function Rest(third: Third, total: nat, t: Table): Table {
    map x | x in t && !IsLarge(third, total, t[x]) :: Get(t, x)
  }

  ghost predicate Small(third: Third, residue: Table, total: nat) {
    forall x <- residue :: !IsLarge(third, total, residue[x])
  }

  /** One more counter looked at by the purging loop. */
  lemma LargeOne(third: Third, total: nat, t: Table, todo: set<Key>, x: Key)
    requires x in todo && todo <= t.Keys
    ensures Large(third, total, t - (todo - {x})) ==
            if IsLarge(third, total, t[x]) then Large(third, total, t - todo)[x := t[x]]
              else Large(third, total, t - todo)
    ensures x !in Large(third, total, t - todo)
    ensures |Large(third, total, t - todo)| < |t|
  {
    hide IsLarge;
    Subset(Large(third, total, t - todo).Keys, t.Keys);
    assert |Large(third, total, t - todo)| == |Large(third, total, t - todo).Keys|;
    assert |t| == |t.Keys|;
  }

  lemma MinusOne(t: Table, l: Table, x: Key, v: nat)
    ensures t - l.Keys - {x} == t - l[x := v].Keys
  {
  }

  /** The sketch stays valid without the purged counters, its minimum a bound as before. */
  lemma RestIsValid(s: Summary, r: Summary, gone: set<Key>)
    requires s.Valid() && s.delta == 0 && r.k == s.k && r.delta == 0 && r.cnt == s.cnt - gone
    requires r.minCnt == if r.cnt == map[] then Infinite else s.minCnt
    ensures r.Valid()
  {
    SubmapSize(r.cnt, s.cnt);
  }

  /** What is left when the purging loop ends. */
  lemma RestIsLeft(third: Third, total: nat, t: Table)
    ensures t - Large(third, total, t).Keys == Rest(third, total, t)
  {
    hide IsLarge;
  }

  lemma LargeAndRest(third: Third, total: nat, t: Table)
    ensures Add(Large(third, total, t), Rest(third, total, t)) == t
    ensures Small(third, Rest(third, total, t), total)
    ensures |Large(third, total, t)| <= |t| && |Rest(third, total, t)| <= |t|
  {
    hide IsLarge;
    SubmapSize(Large(third, total, t), t);
    SubmapSize(Rest(third, total, t), t);
  }

  // ----- what a batch promises

  /** How the walk down a tree starts: with nothing merged and the whole tree ahead. */
  lemma NothingYet(k: nat, t: Tree, bs: seq<Batch>, ts: nat)
    requires Holds(k, t, bs, true)
    ensures 0 < |bs| && Holds(k, t, bs[0..|bs|], true) && MergeOf(k, bs[..0], map[])
    ensures NotLater(bs, 0, ts) && Later(bs, |bs|, ts)
  {
    assert bs[0..|bs|] == bs;
  }

  /** Two occurrences less than the room of a batch are at most 14/13 k-ths of the total it was cut at. */
  ghost predicate RoomFits(k: nat, room: nat, total: nat) {
    room == 1 || (1 < room && k * (13 * (room - 2)) <= 14 * total)
  }

  /**
   Everything seen when the batch was cut has either been purged into the batches up to it
   or is accounted for by the small counters that stayed behind.
   */
  ghost predicate Accounted(third: Third, k: nat, purged: multiset<Key>, seen: multiset<Key>, b: Batch) {
    && purged <= seen && |seen| == b.total
    && Credit(k, b.residue, seen - purged)
    && Small(third, b.residue, b.total)
    && RoomFits(k, b.room, b.total)
  }

  ghost predicate AllAccounted(third: Third, k: nat, events: seq<Event>, bs: seq<Batch>) {
    forall j :: 0 <= j < |bs| ==> Accounted(third, k, Purged(bs[..j + 1]), Seen(events, bs[j].ts), bs[j])
  }

  ghost predicate Chronicle(third: Third, k: nat, events: seq<Event>, bs: seq<Batch>) {
    && AllAccounted(third, k, events, bs)
    && Sorted(bs)
    && (forall b <- bs :: Started(events, b.ts))
  }

  /** What came after the batch until time t is less than its room. */
  ghost predicate Gap(events: seq<Event>, b: Batch, t: nat) {
    var n := |Seen(events, t)|;
    n == b.total || b.total < n <= b.total + b.room - 2
  }

  ghost predicate GapsBefore(events: seq<Event>, bs: seq<Batch>, ts: nat) {
    forall t: nat, n: nat | t < ts && Started(events, t) && Splits(bs, t, n) :: 0 < n && Gap(events, bs[n - 1], t)
  }

  lemma AppendKeepsAccounts(third: Third, k: nat, events: seq<Event>, e: Event, bs: seq<Batch>)
    requires AllAccounted(third, k, events, bs) && forall b <- bs :: b.ts < e.ts
    ensures AllAccounted(third, k, events + [e], bs)
  {
    hide Accounted, Seen, Purged;
    forall j | 0 <= j < |bs|
      ensures Accounted(third, k, Purged(bs[..j + 1]), Seen(events + [e], bs[j].ts), bs[j])
    {
      assert bs[j] in bs;
      Append(events, e, bs[j].ts);
    }
  }

  lemma AppendKeepsGaps(events: seq<Event>, e: Event, bs: seq<Batch>)
    requires GapsBefore(events, bs, e.ts)
    ensures GapsBefore(events + [e], bs, e.ts)
  {
    hide Seen, Started;
    forall t: nat, n: nat | t < e.ts && Started(events + [e], t) && Splits(bs, t, n)
      ensures 0 < n && Gap(events + [e], bs[n - 1], t)
    {
      Append(events, e, t);
      assert Gap(events, bs[n - 1], t);
    }
  }

  /** Occurrences at time 0 alone start no time. */
  lemma NotStarted(events: seq<Event>, bs: seq<Batch>, ts: nat)
    requires EndsAt(events, 0)
    ensures GapsBefore(events, bs, ts)
  {
  }

  /** A batch cut at time b.ts closes the gap for the times from then until ts. */
  lemma CutClosesGap(events: seq<Event>, bs: seq<Batch>, b: Batch, ts: nat)
    requires GapsBefore(events, bs, b.ts) && EndsAt(events, b.ts) && b.total == |events|
    ensures GapsBefore(events, bs + [b], ts)
  {
    hide Seen, Started;
    var bs' := bs + [b];
    forall t: nat, n: nat | t < ts && Started(events, t) && Splits(bs', t, n)
      ensures 0 < n && Gap(events, bs'[n - 1], t)
    {
      assert bs'[|bs|] == b;
      if t < b.ts {
        assert forall i :: 0 <= i < |bs| ==> bs'[i] == bs[i];
        assert Splits(bs, t, n);
      } else {
        assert n == |bs| + 1;
        SeenAll(events, t);
      }
    }
  }

  /** Without a new batch what came so far still fits the room of the last one. */
  lemma RoomCoversGap(events: seq<Event>, bs: seq<Batch>, last: nat, ts: nat)
    requires GapsBefore(events, bs, last) && EndsAt(events, last)
    requires bs != [] && forall b <- bs :: b.ts <= last
    requires var b := bs[|bs| - 1]; b.total < |events| && |events| + 1 < b.total + b.room
    ensures GapsBefore(events, bs, ts)
  {
    hide Seen, Started;
    forall t: nat, n: nat | t < ts && Started(events, t) && Splits(bs, t, n)
      ensures 0 < n && Gap(events, bs[n - 1], t)
    {
      if t >= last {
        assert forall i :: 0 <= i < |bs| ==> bs[i] in bs;
        assert n == |bs|;
        SeenAll(events, t);
      }
    }
  }

  lemma CutAccount(third: Third, k: nat, purged: multiset<Key>, seen: multiset<Key>, b: Batch, e: Table)
    requires |seen| == b.total && purged <= seen && Credit(k, e, seen - purged) && b.items == Exactly(b.counts)
    requires b.counts == Large(third, b.total, e) && b.residue == Rest(third, b.total, e)
    requires RoomFits(k, b.room, b.total)
    ensures Accounted(third, k, purged + b.items, seen, b)
  {
    hide Credit, Small, Exactly, Rest, Large;
    LargeAndRest(third, b.total, e);
    var h := seen - purged;
    SplitKeepsCredit(k, e, b.counts, b.residue, h);
    assert seen - (purged + Exactly(b.counts)) == h - Exactly(b.counts);
  }

  lemma CutIsStorable(third: Third, k: nat, total: nat, s: Summary, b: Batch)
    requires s.Valid() && s.k == k && b.counts == Large(third, total, s.Effective()) && b.items == Exactly(b.counts)
    ensures Storable(k, [b])
  {
    hide IsLarge, Exactly, Credit;
    SubmapSize(b.counts, s.cnt);
    ExactCredit(k, b.counts);
  }

  /** A fresh batch accounts for everything seen. */
  lemma CutIsAccounted(third: Third, k: nat, events: seq<Event>, bs: seq<Batch>, b: Batch)
    requires AllAccounted(third, k, events, bs) && EndsAt(events, b.ts)
    requires Accounted(third, k, Purged(bs + [b]), Keys(events), b)
    ensures AllAccounted(third, k, events, bs + [b])
  {
    hide Accounted, Seen, Keys, Purged;
    var bs' := bs + [b];
    SeenAll(events, b.ts);
    forall j | 0 <= j < |bs'| ensures Accounted(third, k, Purged(bs'[..j + 1]), Seen(events, bs'[j].ts), bs'[j]) {
      if j < |bs| { assert bs'[..j + 1] == bs[..j + 1]; } else { assert bs'[..j + 1] == bs'; }
    }
  }

  // ----- how large a batch may grow

  /**
   The total at the last batch: 2k batches of at least one occurrence, then at each
   level l as many as k batches of at least 2^l - 1.
   */
  ghost predicate Enough(k: nat, level: nat, remaining: nat, total: nat) {
    if level == 0 then total + remaining >= 2 * k
    else
      var p := Pow2(level);
      p > level && remaining <= k && total >= Times(k, p - level + 1) + Times(p - 1, k - remaining)
  }

  lemma NoBatches(third: Third, k: nat)
    ensures Storable(k, []) && Chronicle(third, k, [], []) && GapsBefore([], [], 0) && Enough(k, 0, 2 * k, 0)
  {
    hide Accounted, Splits, Gap, Started;
  }

  lemma {:induction false} Pow2Exceeds(n: nat)
    ensures Pow2(n) > n && (n > 0 ==> Pow2(n) >= 2 * n)
  {
    if n > 0 { Pow2Exceeds(n - 1); }
  }

  lemma EnoughStep(k: nat, level: nat, remaining: nat, last: nat, total: nat)
    requires 0 < k && 1 < remaining && Enough(k, level, remaining, last)
    requires total > last && total + 1 >= last + Pow2(level)
    ensures Enough(k, level, remaining - 1, total)
  {
  }

  lemma EnoughPromote(k: nat, level: nat, last: nat, total: nat)
    requires 0 < k && Enough(k, level, 1, last)
    requires total > last && total + 1 >= last + Pow2(level)
    ensures Enough(k, level + 1, k, total)
  {
    var p := Pow2(level);
    Pow2Exceeds(level + 1);
    assert Pow2(level + 1) == 2 * p;
    if level == 0 {
      TimesIsProduct(k, 2);
    } else {
      assert Times(p - 1, k) == Times(p - 1, k - 1) + (p - 1);
      TimesSwap(p - 1, k);
      TimesAdd(k, p - level + 1, p - 1);
    }
  }

  lemma TimesSwap(a: nat, b: nat)
    ensures Times(a, b) == Times(b, a)
  {
    TimesIsProduct(a, b);
    TimesIsProduct(b, a);
  }

  lemma {:induction false} Pow2Outgrows(n: nat)
    ensures n > 0 ==> Pow2(n) + 40 >= 14 * n && (n > 3 ==> Pow2(n) >= 16)
  {
    if n > 4 { Pow2Outgrows(n - 1); }
      else if n > 0 { assert Pow2(0) == 1 && Pow2(1) == 2 && Pow2(2) == 4 && Pow2(3) == 8 && Pow2(4) == 16; }
  }

  /** The worst is the first batch of level 4, which may miss 14 after 13k. */
  lemma EnoughRoom(k: nat, level: nat, remaining: nat, total: nat)
    requires 0 < level && Enough(k, level, remaining, total)
    ensures RoomFits(k, Pow2(level), total)
  {
    hide Times;
    var p := Pow2(level);
    Pow2Exceeds(level);
    Pow2Outgrows(level);
    RoomByTimes(k, p - 2, p - level + 1);
  }

  lemma RoomByTimes(k: nat, m: nat, n: nat)
    requires 13 * m <= 14 * n
    ensures k * (13 * m) <= 14 * Times(k, n)
  {
    TimesMonotone(k, 13 * m, 14 * n);
    TimesIsProduct(k, 13 * m);
    TimesIsProduct(k, 14 * n);
    TimesIsProduct(k, n);
    Fourteen(k, n);
  }

  lemma Fourteen(k: nat, n: nat)
    ensures k * (14 * n) == 14 * (k * n)
  {
  }

  /** A batch may hold more than a k-th of what was counted before it only among the first of a level above 3. */
  lemma WindowIsFirst(k: nat, level: nat, remaining: nat, total: nat)
    requires 0 < level && Enough(k, level, remaining, total)
    requires level <= 3 || k * (level - 3) <= (Pow2(level) - 1) * (k - remaining)
    ensures k * (Pow2(level) - 2) <= total
  {
    var p := Pow2(level);
    TimesIsProduct(k, p - level + 1);
    TimesIsProduct(p - 1, k - remaining);
    Levelled(k, p, level);
  }

  lemma Levelled(k: nat, p: nat, level: nat)
    ensures k * (p - 2) == k * (p - level + 1) + k * (level - 3)
    ensures level <= 3 ==> k * (level - 3) <= 0
  {
    if level <= 3 { NotMore(k, level - 3); }
  }

  lemma NotMore(k: nat, d: int)
    requires d <= 0
    ensures k * d <= 0
  {
  }

  /** The level, the nodes still to come at it, and the room they have, after one more batch. */
  lemma NextRoom(k: nat, level: nat, remaining: nat, last: nat, total: nat)
    requires 0 < k && 0 < remaining && Enough(k, level, remaining, last)
    requires total > last && total + 1 >= last + Pow2(level)
    ensures var l, r := if remaining == 1 then level + 1 else level, if remaining == 1 then k else remaining - 1;
            && Enough(k, l, r, total)
            && Pow2(l) == (if remaining == 1 then 2 * Pow2(level) else Pow2(level))
            && RoomFits(k, Pow2(l), total)
  {
    hide Enough;
    var l, r := if remaining == 1 then level + 1 else level, if remaining == 1 then k else remaining - 1;
    if remaining == 1 { EnoughPromote(k, level, last, total); } else { EnoughStep(k, level, remaining, last, total); }
    if l > 0 {
      EnoughRoom(k, l, r, total);
      Pow2Exceeds(l);
    }
  }

  // ----- walking over the slots

  lemma WholeRange(bs: seq<Batch>, t: nat)
    ensures bs[..|bs|] == bs && Later(bs, |bs|, t)
  {
  }

  /** What a slot tells about the batches before m. */
  lemma TopTree(k: nat, slots: seq<Slot>, i: nat, bs: seq<Batch>, m: nat)
    requires i < |slots| && m <= |bs| && Covers(k, slots, i, bs[..m])
    ensures slots[i].Free? ==> Covers(k, slots, i + 1, bs[..m])
    ensures slots[i].Used? ==>
      var c := m - Size(slots[i].tree);
      && 0 <= c < m && Holds(k, slots[i].tree, bs[c..m], true)
      && Covers(k, slots, i + 1, bs[..c])
  {
    hide Holds;
    if slots[i].Used? {
      var c := m - Size(slots[i].tree);
      assert |bs[..m]| == m;
      assert bs[..m][c..] == bs[c..m] && bs[..m][..c] == bs[..c];
    }
  }

  /** What a past query learns from a slot. */
  lemma SlotHolds(k: nat, slots: seq<Slot>, i: nat, bs: seq<Batch>, m: nat, t: nat)
    requires 0 < k && i < |slots| && m <= |bs| && Covers(k, slots, i, bs[..m])
    requires Storable(k, bs) && Sorted(bs) && Later(bs, m, t)
    ensures slots[i].Free? ==> Covers(k, slots, i + 1, bs[..m])
    ensures slots[i].Used? ==>
      var tree := slots[i].tree;
      var c := m - Size(tree);
      && 0 <= c < m
      && Holds(k, tree, bs[c..m], true) && Storable(k, bs[c..m]) && Sorted(bs[c..m])
      && Covers(k, slots, i + 1, bs[..c])
      && tree.total == bs[m - 1].total
      && (tree.ts <= t ==> Splits(bs, t, m) && MergeOf(k, bs[m..m], map[]))
  {
    hide *;
    TopTree(k, slots, i, bs, m);
    if slots[i].Used? {
      var c := m - Size(slots[i].tree);
      StorableRange(k, bs, c, m);
      SortedRange(bs, c, m);
      RootAge(k, slots[i].tree, bs[c..m]);
      UpTo(bs, m, t);
      SplitsAt(bs, t);
      assert bs[m..m] == [];
      NothingMerged(k);
    }
  }

  /** Splitting one tree's batches splits them all, unless none of them is early enough. */
  lemma WithinTree(k: nat, bs: seq<Batch>, c: nat, m: nat, t: nat, lo: nat, r: Table)
    requires c < m <= |bs| && Sorted(bs) && Later(bs, m, t) && Splits(bs[c..m], t, lo)
    requires MergeOf(k, bs[c..m][..lo], r)
    ensures c + lo <= |bs| && Later(bs, c + lo, t)
    ensures 0 < lo ==> Splits(bs, t, c + lo) && bs[c + lo - 1] == bs[c..m][lo - 1]
    ensures MergeOf(k, bs[c..c + lo], r)
  {
    hide MergeOf;
    assert bs[c..m][..lo] == bs[c..c + lo];
    forall i | c + lo <= i < |bs| ensures t < bs[i].ts {
      if i < m { assert bs[i] == bs[c..m][i - c]; }
    }
    if 0 < lo {
      assert bs[c + lo - 1] == bs[c..m][lo - 1];
      UpTo(bs, c + lo, t);
    }
  }

  lemma NothingLeft(k: nat, slots: seq<Slot>, bs: seq<Batch>, m: nat, t: nat)
    requires m <= |bs| && Covers(k, slots, |slots|, bs[..m]) && Later(bs, m, t)
    ensures m == 0 && Splits(bs, t, 0) && MergeOf(k, bs[0..0], map[])
  {
    assert bs[0..0] == [];
  }

  /** A slot's tree is the next older run of batches. */
  /** Trees of batches not later than t are dated t or earlier. */
  lemma {:induction false} RootsUpTo(k: nat, slots: seq<Slot>, i: nat, bs: seq<Batch>, t: nat)
    requires Covers(k, slots, i, bs) && forall b <- bs :: b.ts <= t
    ensures forall j | i <= j < |slots| && slots[j].Used? :: slots[j].tree.ts <= t
    decreases |slots| - i
  {
    hide Holds;
    if i < |slots| {
      match slots[i]
      case Free => RootsUpTo(k, slots, i + 1, bs, t);
      case Used(tree) =>
        var n := |bs| - Size(tree);
        RootAge(k, tree, bs[n..]);
        assert bs[|bs| - 1] in bs && tree.ts == bs[n..][|bs[n..]| - 1].ts;
        RootsUpTo(k, slots, i + 1, bs[..n], t);
    }
  }

  lemma {:induction false} AllUnused(k: nat, slots: seq<Slot>, i: nat)
    requires Covers(k, slots, i, [])
    ensures forall j | i <= j < |slots| :: slots[j].Free?
    decreases |slots| - i
  {
    if i < |slots| { AllUnused(k, slots, i + 1); }
  }

  lemma FirstUpTo(bs: seq<Batch>, m: nat, n: nat, t: nat)
    requires Splits(bs, t, n) && m <= n
    ensures m <= |bs| && forall b <- bs[..m] :: b.ts <= t
  {
  }

  /** The newest batch dates a tree. */
  lemma {:induction false} NewestRoot(k: nat, slots: seq<Slot>, i: nat, bs: seq<Batch>) returns (j: nat)
    requires Covers(k, slots, i, bs) && bs != []
    ensures i <= j < |slots| && slots[j].Used? && slots[j].tree.ts == bs[|bs| - 1].ts
    decreases |slots| - i
  {
    hide Holds;
    match slots[i]
    case Free => j := NewestRoot(k, slots, i + 1, bs);
    case Used(tree) =>
      j := i;
      RootAge(k, tree, bs[|bs| - Size(tree)..]);
  }

  lemma RestHolds(k: nat, slots: seq<Slot>, i: nat, bs: seq<Batch>, m: nat)
    requires 0 < k && i < |slots| && m <= |bs| && Covers(k, slots, i, bs[..m]) && Storable(k, bs)
    ensures slots[i].Free? ==> Covers(k, slots, i + 1, bs[..m])
    ensures slots[i].Used? ==>
      var tree := slots[i].tree;
      var c := m - Size(tree);
      && 0 <= c < m && Covers(k, slots, i + 1, bs[..c])
      && tree.mg.Kept? && MergeOf(k, bs[c..m], tree.mg.cnt) && Positive(tree.mg.cnt)
  {
    hide *;
    TopTree(k, slots, i, bs, m);
    if slots[i].Used? {
      var c := m - Size(slots[i].tree);
      RootAge(k, slots[i].tree, bs[c..m]);
      StoredIsPositive(k, bs, c, m, slots[i].tree.mg.cnt);
    }
  }

  lemma MergeOlderOf(k: nat, bs: seq<Batch>, c: nat, m: nat, older: Table, newer: Table, t: Table)
    requires 0 < k && c < m <= |bs| && Storable(k, bs)
    requires MergeOf(k, bs[c..m], older) && MergeOf(k, bs[m..], newer) && Merged(k, newer, older, t)
    ensures MergeOf(k, bs[c..], t)
  {
    hide Storable, MergeOf, Merged;
    var tail := bs[c..];
    assert tail[..m - c] == bs[c..m] && tail[m - c..] == bs[m..];
    StorableRange(k, bs, c, |bs|);
    assert bs[c..|bs|] == tail;
    MergeOlder(k, tail, m - c, older, newer, t);
  }

  lemma AllMerged(k: nat, slots: seq<Slot>, bs: seq<Batch>, m: nat, t: Table)
    requires m <= |bs| && Covers(k, slots, |slots|, bs[..m]) && MergeOf(k, bs[m..], t)
    ensures m == 0 && MergeOf(k, bs, t)
  {
    hide MergeOf;
    assert |bs[..m]| == m;
    assert bs[0..] == bs;
  }

  // ----- what a query promises

  /** The forest and the running sketch merged are as good as one sketch of everything. */
  lemma PresentCredit(k: nat, e: Table, r: Table, p: multiset<Key>, h: multiset<Key>)
    requires p <= h && Credit(k, e, h - p) && Credit(k, r, p + Exactly(e))
    ensures Near(k, r, h)
  {
    hide Owed, Times, Get, Exactly;
    forall x: Key ensures Get(r, x) <= h[x] && Times(k, h[x] - Get(r, x)) <= |h| {
      PresentOwed(k, e, r, p, h, x);
    }
  }

  lemma PresentOwed(k: nat, e: Table, r: Table, p: multiset<Key>, h: multiset<Key>, x: Key)
    requires p <= h && Owed(k, e, h - p, x) && Owed(k, r, p + Exactly(e), x)
    ensures Get(r, x) <= h[x] && Times(k, h[x] - Get(r, x)) <= |h|
  {
    hide Sum, Exactly, Times;
    assert |h| == |p| + |h - p| by { assert h == p + (h - p); }
    TimesAdd(k, (h - p)[x] - Get(e, x), p[x] + Get(e, x) - Get(r, x));
  }

  lemma RawIsNear(k: nat, s: Summary, h: multiset<Key>)
    requires s.k == k && StandsFor(s, h)
    ensures Near(k, s.cnt, h)
  {
    hide Sum;
    forall x: Key ensures Get(s.cnt, x) <= h[x] && Times(k, h[x] - Get(s.cnt, x)) <= |h| {
      assert Owed(k, s.Effective(), h, x);
      TimesMonotone(k, h[x] - Get(s.cnt, x), h[x] - Get(s.Effective(), x));
    }
  }

  /**
   What merging the first n batches loses of key x: at most N/k in the merges and the
   purges of others, and the residue v below the purge threshold.
   */
  ghost predicate Loss(third: Third, k: nat, f: nat, total: nat, r: nat, v: nat) {
    r + v <= f && Times(k, f - r - v) <= total && v as real < total as real * third
  }

  lemma PastLoss(third: Third, k: nat, purged: multiset<Key>, seen: multiset<Key>, b: Batch, r: Table, x: Key)
    returns (v: nat)
    requires Accounted(third, k, purged, seen, b) && Credit(k, r, purged) && 0 < b.total
    ensures Loss(third, k, seen[x], b.total, Get(r, x), v)
  {
    hide Sum;
    v := Get(b.residue, x);
    assert |seen| == |purged| + |seen - purged| by { assert seen == purged + (seen - purged); }
    assert Owed(k, r, purged, x) && Owed(k, b.residue, seen - purged, x);
    TimesAdd(k, (seen - purged)[x] - v, purged[x] - Get(r, x));
    PositiveShare(third, b.total);
  }

  lemma PositiveShare(third: Third, n: nat)
    requires 0 < n
    ensures n as real * third > 0.0
  {
  }

  /** The key lost at most what the batch lost and what came after the batch. */
  lemma LossBound(third: Third, k: nat, f: nat, total: nat, r: nat, v: nat)
    requires Loss(third, k, f, total, r, v) && k as real * third >= 1.0
    ensures (f - r) as real <= 2.0 * third * total as real
  {
    var u := f - r - v;
    TimesIsProduct(k, u);
    ProductAsReal(k, u);
    LossSum(k as real, third, u as real, v as real, total as real);
  }

  /** What comes after a batch without making another is at most 14/13 thirds of the tolerance. */
  lemma GapBound(third: Third, k: nat, g: nat, b: Batch)
    requires k as real * third >= 1.0 && (g == 0 || (RoomFits(k, b.room, b.total) && g <= b.room - 2))
    ensures 13.0 * g as real <= 14.0 * (third * b.total as real)
  {
    var q, n := third * b.total as real, (14 * b.total) as real;
    if g == 0 {
      Scaled(0.0, b.total as real, third);
    } else {
      var u := 13 * (b.room - 2);
      ProductAsReal(k, u);
      ScaledUp(k as real, third, u as real, k as real * u as real);
      Scaled(k as real * u as real, n, third);
      assert n * third == 14.0 * q;
    }
  }

  /** How good a past answer is: nothing is overcounted, and little is missed, before the last batch and since. */
  ghost predicate PastNear(third: Third, r: Table, total: nat, h: multiset<Key>) {
    && total <= |h| && 13.0 * (|h| - total) as real <= 14.0 * (third * total as real)
    && forall x: Key :: PastNearAt(third, r, total, h, x)
  }

  ghost predicate PastNearAt(third: Third, r: Table, total: nat, h: multiset<Key>, x: Key) {
    Get(r, x) <= h[x] && 13.0 * (h[x] - Get(r, x)) as real <= 40.0 * (third * total as real)
  }

  /**
   Past queries: merging exactly the batches cut by time t never overcounts, and misses of
   key x at most 2/3 of the tolerance at the last of them plus what came since, which is
   little more than another third.
   */
  lemma PastBound(third: Third, k: nat, events: seq<Event>, bs: seq<Batch>, last: nat, t: nat, n: nat, r: Table, x: Key)
    requires 0 < k && k as real * third >= 1.0
    requires Storable(k, bs) && Chronicle(third, k, events, bs) && GapsBefore(events, bs, last)
    requires t < last && Started(events, t) && Splits(bs, t, n) && MergeOf(k, bs[..n], r)
    ensures 0 < n && Get(r, x) <= Seen(events, bs[n - 1].ts)[x] <= Seen(events, t)[x]
    ensures var b := bs[n - 1];
            && b.total <= |Seen(events, t)|
            && (Seen(events, b.ts)[x] - Get(r, x)) as real <= 2.0 * third * b.total as real
            && 13.0 * (|Seen(events, t)| - b.total) as real <= 14.0 * (third * b.total as real)
            && 13.0 * (Seen(events, t)[x] - Get(r, x)) as real <= 40.0 * (third * b.total as real)
  {
    hide *;
    var v := PastBatch(third, k, events, bs, last, t, n, r, x);
    var b := bs[n - 1];
    var f, f' := Seen(events, b.ts), Seen(events, t);
    SeenGrows(events, b.ts, t);
    GrowthOf(f, f', x);
    LossGives(third, k, f[x], b.total, Get(r, x), v);
    LossBound(third, k, f[x], b.total, Get(r, x), v);
    GapBound(third, k, |f'| - b.total, b);
    SumOfLosses(third, b.total, f'[x] - Get(r, x), f[x] - Get(r, x), |f'| - b.total);
  }

  lemma SumOfLosses(third: Third, total: nat, e: nat, a: nat, g: nat)
    requires e <= a + g && a as real <= 2.0 * third * total as real
        && 13.0 * g as real <= 14.0 * (third * total as real)
    ensures 13.0 * e as real <= 40.0 * (third * total as real)
  {
    var q := third * total as real;
    assert 2.0 * third * total as real == 2.0 * q;
  }

  lemma PastIsNear(third: Third, k: nat, events: seq<Event>, bs: seq<Batch>, last: nat, t: nat, n: nat, r: Table)
    requires 0 < k && k as real * third >= 1.0
    requires Storable(k, bs) && Chronicle(third, k, events, bs) && GapsBefore(events, bs, last)
    requires t < last && Started(events, t) && Splits(bs, t, n) && MergeOf(k, bs[..n], r)
    ensures 0 < n <= |bs| && PastNear(third, r, bs[n - 1].total, Seen(events, t))
  {
    hide *;
    PastBoundary(bs, t, n);
    PastIsNearAt(third, k, events, bs, last, t, n, r, 0);
    var total, h := bs[n - 1].total, Seen(events, t);
    forall x: Key ensures PastNearAt(third, r, total, h, x) {
      PastIsNearAt(third, k, events, bs, last, t, n, r, x);
    }
    NearEverywhere(third, r, total, h);
  }

  lemma NearEverywhere(third: Third, r: Table, total: nat, h: multiset<Key>)
    requires total <= |h| && 13.0 * (|h| - total) as real <= 14.0 * (third * total as real)
    requires forall x: Key :: PastNearAt(third, r, total, h, x)
    ensures PastNear(third, r, total, h)
  {
  }

  /** The promise as it is made: never over, and at most the tolerance of all occurrences under. */
  ghost predicate Promised(third: Third, r: Table, h: multiset<Key>) {
    forall x: Key :: PromisedAt(third, r, h, x)
  }

  ghost predicate PromisedAt(third: Third, r: Table, h: multiset<Key>, x: Key) {
    Get(r, x) <= h[x] && (h[x] - Get(r, x)) as real <= 3.0 * (third * |h| as real)
  }

  /** g occurrences since a batch cut at a total are few enough not to be missed. */
  ghost predicate Tolerates(third: Third, total: nat, g: int) {
    g as real * (1.0 - 3.0 * third) <= third * total as real
  }

  /**
   Past queries keep the promise whenever little came since the last batch: always for a third of
   1/42 or more, and for any third if it is at most a k-th of the total at that batch.
   */
  lemma PastPromise(third: Third, k: nat, events: seq<Event>, bs: seq<Batch>, last: nat, t: nat, n: nat, r: Table)
    requires 0 < k && k as real * third >= 1.0
    requires Storable(k, bs) && Chronicle(third, k, events, bs) && GapsBefore(events, bs, last)
    requires t < last && Started(events, t) && Splits(bs, t, n) && MergeOf(k, bs[..n], r)
    ensures 0 < n <= |bs|
    ensures var b, g := bs[n - 1], |Seen(events, t)| - bs[n - 1].total;
            && (third >= 1.0 / 42.0 || k * g <= b.total || k * (b.room - 2) <= b.total ==> Tolerates(third, b.total, g))
            && (Tolerates(third, b.total, g) ==> Promised(third, r, Seen(events, t)))
  {
    hide *;
    PastBoundary(bs, t, n);
    var v := PastBatch(third, k, events, bs, last, t, n, r, 0);
    var b, g := bs[n - 1], |Seen(events, t)| - bs[n - 1].total;
    GapBound(third, k, g, b);
    FewAreTolerated(third, k, b.total, g, b.room);
    if Tolerates(third, b.total, g) {
      var h := Seen(events, t);
      forall x: Key ensures PromisedAt(third, r, h, x) {
        PastPromiseAt(third, k, events, bs, last, t, n, r, x);
      }
      PromisedEverywhere(third, r, h);
    }
  }

  lemma FewAreTolerated(third: Third, k: nat, total: nat, g: nat, room: nat)
    requires k as real * third >= 1.0 && 13.0 * g as real <= 14.0 * (third * total as real)
    requires g == 0 || g <= room - 2
    ensures third >= 1.0 / 42.0 || k * g <= total || k * (room - 2) <= total ==> Tolerates(third, total, g)
  {
    Scaled(0.0, third, total as real);
    if third >= 1.0 / 42.0 {
      WideThird(third, g as real, third * total as real);
    } else if g == 0 {
    } else if k * g <= total || k * (room - 2) <= total {
      FewOfK(third, k, total, g, room);
      Shrinks(third, g as real);
    }
  }

  lemma FewOfK(third: Third, k: nat, total: nat, g: nat, room: nat)
    requires k as real * third >= 1.0 && 0 < g <= room - 2 && (k * g <= total || k * (room - 2) <= total)
    ensures g as real <= third * total as real
  {
    assert k * g <= k * (room - 2);
    ProductAsReal(k, g);
    ScaledUp(k as real, third, g as real, k as real * g as real);
    Scaled(k as real * g as real, total as real, third);
  }

  lemma WideThird(third: Third, g: real, q: real)
    requires third >= 1.0 / 42.0 && 0.0 <= g && 13.0 * g <= 14.0 * q
    ensures g * (1.0 - 3.0 * third) <= q
  {
    Scaled(1.0 - 3.0 * third, 13.0 / 14.0, g);
  }

  lemma Shrinks(third: Third, g: real)
    requires 0.0 <= g
    ensures g * (1.0 - 3.0 * third) <= g
  {
    Scaled(1.0 - 3.0 * third, 1.0, g);
  }

  lemma PromisedEverywhere(third: Third, r: Table, h: multiset<Key>)
    requires forall x: Key :: PromisedAt(third, r, h, x)
    ensures Promised(third, r, h)
  {
  }

  lemma PastPromiseAt(third: Third, k: nat, events: seq<Event>, bs: seq<Batch>, last: nat, t: nat, n: nat, r: Table,
                      x: Key)
    requires 0 < k && k as real * third >= 1.0
    requires Storable(k, bs) && Chronicle(third, k, events, bs) && GapsBefore(events, bs, last)
    requires t < last && Started(events, t) && Splits(bs, t, n) && MergeOf(k, bs[..n], r)
    requires 0 < n <= |bs| && Tolerates(third, bs[n - 1].total, |Seen(events, t)| - bs[n - 1].total)
    ensures PromisedAt(third, r, Seen(events, t), x)
  {
    hide *;
    var v := PastBatch(third, k, events, bs, last, t, n, r, x);
    var b := bs[n - 1];
    var f, h := Seen(events, b.ts), Seen(events, t);
    SeenGrows(events, b.ts, t);
    GrowthOf(f, h, x);
    LossGives(third, k, f[x], b.total, Get(r, x), v);
    LossBound(third, k, f[x], b.total, Get(r, x), v);
    IsPromisedAt(third, r, h, x, b.total, f[x] - Get(r, x), |h| - b.total);
  }

  lemma IsPromisedAt(third: Third, r: Table, h: multiset<Key>, x: Key, total: nat, a: nat, g: nat)
    requires Tolerates(third, total, g) && |h| == total + g
    requires Get(r, x) <= h[x] <= Get(r, x) + a + g && a as real <= 2.0 * third * total as real
    ensures PromisedAt(third, r, h, x)
  {
    hide Get;
    ThreeThirds(third, total as real, (h[x] - Get(r, x)) as real, a as real, g as real, third * total as real,
      |h| as real);
  }

  lemma ThreeThirds(third: Third, total: real, e: real, a: real, g: real, q: real, n: real)
    requires q == third * total && n == total + g && g * (1.0 - 3.0 * third) <= q
    requires e <= a + g && a <= 2.0 * third * total
    ensures e <= 3.0 * (third * n)
  {
    assert third * n == q + third * g;
    assert g * (1.0 - 3.0 * third) == g - 3.0 * (third * g);
    assert 2.0 * third * total == 2.0 * q;
  }

  /** Neither kind of answer overcounts. */
  lemma NeverOver(third: Third, k: nat, r: Table, total: nat, h: multiset<Key>)
    requires Near(k, r, h) || PastNear(third, r, total, h)
    ensures forall x: Key :: Get(r, x) <= h[x]
  {
    hide Get, Times;
    forall x: Key ensures Get(r, x) <= h[x] {
      if PastNear(third, r, total, h) { assert PastNearAt(third, r, total, h, x); }
    }
  }

  lemma PastIsNearAt(third: Third, k: nat, events: seq<Event>, bs: seq<Batch>, last: nat, t: nat, n: nat, r: Table,
                     x: Key)
    requires 0 < k && k as real * third >= 1.0
    requires Storable(k, bs) && Chronicle(third, k, events, bs) && GapsBefore(events, bs, last)
    requires t < last && Started(events, t) && Splits(bs, t, n) && MergeOf(k, bs[..n], r)
    ensures 0 < n <= |bs| && PastNearAt(third, r, bs[n - 1].total, Seen(events, t), x)
    ensures bs[n - 1].total <= |Seen(events, t)|
    ensures 13.0 * (|Seen(events, t)| - bs[n - 1].total) as real <= 14.0 * (third * bs[n - 1].total as real)
  {
    hide *;
    PastBoundary(bs, t, n);
    PastBound(third, k, events, bs, last, t, n, r, x);
    IsNearAt(third, r, bs[n - 1].total, Seen(events, t), x);
  }

  lemma IsNearAt(third: Third, r: Table, total: nat, h: multiset<Key>, x: Key)
    requires Get(r, x) <= h[x] && 13.0 * (h[x] - Get(r, x)) as real <= 40.0 * (third * total as real)
    ensures PastNearAt(third, r, total, h, x)
  {
  }

  lemma PastBoundary(bs: seq<Batch>, t: nat, n: nat)
    requires Splits(bs, t, n)
    ensures n <= |bs|
  {
  }

  lemma LossGives(third: Third, k: nat, f: nat, total: nat, r: nat, v: nat)
    requires Loss(third, k, f, total, r, v)
    ensures r <= f
  {
  }

  /** The facts about the last batch a past query merges. */
  lemma PastBatch(third: Third, k: nat, events: seq<Event>, bs: seq<Batch>, last: nat, t: nat, n: nat, r: Table, x: Key)
    returns (v: nat)
    requires 0 < k
    requires Storable(k, bs) && Chronicle(third, k, events, bs) && GapsBefore(events, bs, last)
    requires t < last && Started(events, t) && Splits(bs, t, n) && MergeOf(k, bs[..n], r)
    ensures 0 < n <= |bs| && bs[n - 1].ts <= t && |Seen(events, bs[n - 1].ts)| == bs[n - 1].total
    ensures var b, g := bs[n - 1], |Seen(events, t)| - bs[n - 1].total;
            && 0 < b.total && g >= 0 && (g == 0 || (RoomFits(k, b.room, b.total) && g <= b.room - 2))
            && Loss(third, k, Seen(events, b.ts)[x], b.total, Get(r, x), v)
  {
    hide MergeOf, Storable, Purged, Seen, Started, Loss, Credit, Small;
    assert 0 < n && Gap(events, bs[n - 1], t);
    var b := bs[n - 1];
    assert b in bs;
    assert Accounted(third, k, Purged(bs[..n - 1 + 1]), Seen(events, b.ts), b);
    StartedIsSeen(events, b.ts);
    assert bs[..n] == bs[0..n];
    StorableRange(k, bs, 0, n);
    MergeOfCredit(k, bs[..n], r);
    v := PastLoss(third, k, Purged(bs[..n]), Seen(events, b.ts), b, r, x);
  }

  /** The running sketch as one more batch. */
  lemma PseudoBatch(k: nat, s: Summary, bs: seq<Batch>, b: Batch)
    requires s.Valid() && s.k == k && Storable(k, bs) && b.counts == s.Effective() && b.items == Exactly(b.counts)
    ensures Storable(k, bs + [b]) && (bs + [b])[..|bs|] == bs && MergeOf(k, (bs + [b])[|bs|..], s.Effective())
  {
    SubmapSize(b.counts, s.cnt);
    ExactCredit(k, b.counts);
    assert (bs + [b])[|bs|..] == [b];
  }

  /** All trees merged into the running sketch, or the sketch alone, are near the truth. */
  lemma PresentIsNear(k: nat, s: Summary, bs: seq<Batch>, b: Batch, r: Summary, h: multiset<Key>)
    requires 0 < k && s.k == k && b.counts == s.Effective() && b.items == Exactly(b.counts) && Storable(k, bs + [b])
    requires Purged(bs) <= h && StandsFor(s, h - Purged(bs))
    requires MergeOf(k, bs + [b], r.Effective())
    requires if bs == [] then r == s else r.cnt == r.Effective()
    ensures Near(k, r.cnt, h)
  {
    hide Storable, MergeOf, Near, Summary.Effective, Exactly;
    if bs == [] {
      assert h - Purged(bs) == h;
      RawIsNear(k, s, h);
    } else {
      PurgedOne(bs, b);
      MergeOfCredit(k, bs + [b], r.Effective());
      PresentCredit(k, s.Effective(), r.Effective(), Purged(bs), h);
    }
  }

  // ----- reporting heavy hitters

  /** A loss of less than a third of the tolerance and N/k never hides a frequent key. */
  lemma LossReports(third: Third, k: nat, f: nat, total: nat, r: nat, v: nat, frac: real)
    requires 0 < k && Loss(third, k, f, total, r, v) && f as real >= frac * total as real
    requires frac >= third + 1.0 / k as real
    ensures r as real > total as real * (frac - third - 1.0 / k as real) >= 0.0
  {
    var n := total as real;
    var u := f - r - v;
    TimesIsProduct(k, u);
    ProductAsReal(k, u);
    Share(k as real, u as real, n);
    var slack := frac - third - 1.0 / k as real;
    Scaled(0.0, slack, n);
    Expand(n, frac, third, 1.0 / k as real);
  }

  lemma PastRange(k: nat, slots: seq<Slot>, i: nat, bs: seq<Batch>, m: nat, n: nat, t: Table)
    requires m <= n <= |bs| && Storable(k, bs) && Covers(k, slots, i, bs[..m]) && MergeOf(k, bs[m..n], t)
    ensures Storable(k, bs[..n]) && Covers(k, slots, i, bs[..n][..m]) && MergeOf(k, bs[..n][m..], t)
  {
    hide Storable, Covers, MergeOf;
    assert bs[..n][..m] == bs[..m] && bs[..n][m..] == bs[m..n];
    StorableRange(k, bs, 0, n);
    assert bs[0..n] == bs[..n];
  }

  /** Key x makes up at least a frac share of the occurrences h. */
  ghost predicate Frequent(h: multiset<Key>, x: Key, frac: real) {
    h[x] as real >= frac * |h| as real
  }

  function Threshold(third: Third, k: nat, total: nat, frac: real): int
    requires 0 < k
  {
    Ceil(total as real * (frac - third - 1.0 / k as real))
  }

  /** Key x is among the counters of r that reach the threshold. */
  predicate Reported(r: Table, x: Key, threshold: int) {
    x in r && r[x] >= threshold
  }

  ghost predicate AllReported(h: multiset<Key>, r: Table, threshold: int, frac: real) {
    forall x: Key | Frequent(h, x, frac) :: Reported(r, x, threshold)
  }

  lemma ReachesThreshold(third: Third, k: nat, r: Table, x: Key, total: nat, frac: real)
    requires 0 < k && Get(r, x) as real > total as real * (frac - third - 1.0 / k as real) >= 0.0
    ensures Reported(r, x, Threshold(third, k, total, frac))
  {
  }

  /** With all occurrences in, nothing frequent is hidden either. */
  lemma NearReports(third: Third, k: nat, h: multiset<Key>, r: Table, frac: real)
    requires 0 < k && Near(k, r, h) && 0 < |h| && frac >= third + 1.0 / k as real
    ensures AllReported(h, r, Threshold(third, k, |h|, frac), frac)
  {
    hide Times, Threshold, Reported;
    PositiveShare(third, |h|);
    forall x: Key | Frequent(h, x, frac) ensures Reported(r, x, Threshold(third, k, |h|, frac)) {
      assert Get(r, x) <= h[x] && Times(k, h[x] - Get(r, x)) <= |h|;
      LossReports(third, k, h[x], |h|, Get(r, x), 0, frac);
      ReachesThreshold(third, k, r, x, |h|, frac);
    }
  }

  lemma PastReports(third: Third, k: nat, events: seq<Event>, bs: seq<Batch>, last: nat, t: nat, n: nat, r: Table,
                    frac: real)
    requires 0 < k && Storable(k, bs) && Chronicle(third, k, events, bs) && GapsBefore(events, bs, last)
    requires t < last && Splits(bs, t, n) && MergeOf(k, bs[..n], r) && 0 < n
    requires frac >= third + 1.0 / k as real
    ensures AllReported(Seen(events, bs[n - 1].ts), r, Threshold(third, k, bs[n - 1].total, frac), frac)
  {
    hide Storable, Chronicle, GapsBefore, Started, MergeOf, Seen, NotLater, Later, Loss, Threshold, Reported;
    var b := bs[n - 1];
    LastStarted(third, k, events, bs, t, n);
    forall x: Key | Frequent(Seen(events, b.ts), x, frac) ensures Reported(r, x, Threshold(third, k, b.total, frac)) {
      var v := PastBatch(third, k, events, bs, last, t, n, r, x);
      LossReports(third, k, Seen(events, b.ts)[x], b.total, Get(r, x), v, frac);
      ReachesThreshold(third, k, r, x, b.total, frac);
    }
  }

  /** What reaches the threshold really occurred that often. */
  lemma ReportedOccurs(third: Third, k: nat, r: Table, hits: map<Key, nat>, total: nat, frac: real, h: multiset<Key>,
                       x: Key)
    requires 0 < k && (forall y :: y in hits <==> y in r && r[y] >= Threshold(third, k, total, frac))
    requires x in hits && Get(r, x) <= h[x]
    ensures h[x] as real >= total as real * (frac - third - 1.0 / k as real)
  {
  }

  /** Every reported key makes up the asked share of the total, less a third of the tolerance and 1/k. */
  ghost predicate AllOccur(third: Third, k: nat, hits: map<Key, nat>, total: nat, frac: real, h: multiset<Key>)
    requires 0 < k
  {
    forall x <- hits :: h[x] as real >= total as real * (frac - third - 1.0 / k as real)
  }

  lemma HitsOccur(third: Third, k: nat, r: Table, hits: map<Key, nat>, total: nat, frac: real, h: multiset<Key>)
    requires 0 < k && (forall y :: y in hits <==> y in r && r[y] >= Threshold(third, k, total, frac))
    requires forall x: Key :: Get(r, x) <= h[x]
    ensures AllOccur(third, k, hits, total, frac, h)
  {
    hide Threshold, Get;
    forall x <- hits ensures h[x] as real >= total as real * (frac - third - 1.0 / k as real) {
      assert Get(r, x) <= h[x];
      ReportedOccurs(third, k, r, hits, total, frac, h, x);
    }
  }

  /** The hits carry the counters of the answer. */
  ghost predicate Copied(r: Table, hits: map<Key, nat>) {
    forall x <- hits :: x in r && hits[x] == r[x]
  }

  /** No reported count is too high, and none misses more than an N/k share. */
  ghost predicate CountsNear(k: nat, hits: map<Key, nat>, h: multiset<Key>) {
    forall x <- hits :: hits[x] <= h[x] && Times(k, h[x] - hits[x]) <= |h|
  }

  /** No reported count is too high, and none misses more than 40/13 thirds of the tolerance. */
  ghost predicate CountsPast(third: Third, hits: map<Key, nat>, total: nat, h: multiset<Key>) {
    forall x <- hits :: PastNearAt(third, hits, total, h, x)
  }

  /** No reported count is too high, and none misses more than the tolerance. */
  ghost predicate CountsPromised(third: Third, hits: map<Key, nat>, h: multiset<Key>) {
    forall x <- hits :: PromisedAt(third, hits, h, x)
  }

  /** What holds of the answer's counters holds of the counts reported. */
  lemma CountsOf(third: Third, k: nat, r: Table, hits: map<Key, nat>, total: nat, h: multiset<Key>)
    requires Copied(r, hits)
    ensures Near(k, r, h) ==> CountsNear(k, hits, h)
    ensures PastNear(third, r, total, h) ==> CountsPast(third, hits, total, h)
    ensures Promised(third, r, h) ==> CountsPromised(third, hits, h)
  {
    hide Times;
    if Near(k, r, h) {
      forall x <- hits ensures hits[x] <= h[x] && Times(k, h[x] - hits[x]) <= |h| { assert Get(r, x) == hits[x]; }
    }
    if PastNear(third, r, total, h) {
      forall x <- hits ensures PastNearAt(third, hits, total, h, x) { assert PastNearAt(third, r, total, h, x); }
    }
    if Promised(third, r, h) {
      forall x <- hits ensures PromisedAt(third, hits, h, x) { assert PromisedAt(third, r, h, x); }
    }
  }

  lemma LastStarted(third: Third, k: nat, events: seq<Event>, bs: seq<Batch>, t: nat, n: nat)
    requires Chronicle(third, k, events, bs) && Splits(bs, t, n) && 0 < n
    ensures Started(events, t)
  {
    hide AllAccounted, Started, Sorted;
    assert bs[n - 1] in bs;
    StartedLater(events, bs[n - 1].ts, t);
  }

  lemma NothingPast(third: Third, k: nat, events: seq<Event>, bs: seq<Batch>, t: nat, n: nat, r: Table)
    requires Chronicle(third, k, events, bs) && Splits(bs, t, n) && MergeOf(k, bs[..n], r) && !Started(events, t)
    ensures n == 0 && r == map[]
  {
    hide Chronicle, Started, NotLater, Later;
    if 0 < n { LastStarted(third, k, events, bs, t, n); }
    assert bs[..0] == [];
  }

  lemma HitsAre(cnt: Table, hits: map<Key, nat>, h: multiset<Key>, threshold: int, frac: real)
    requires forall x :: x in hits <==> x in cnt && cnt[x] >= threshold
    requires AllReported(h, cnt, threshold, frac)
    ensures forall x: Key | Frequent(h, x, frac) :: x in hits
  {
    hide Frequent;
  }
}
