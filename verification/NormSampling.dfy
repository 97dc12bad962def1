/**
 The persistent weighted reservoir of norm_sampling.cpp: every slot keeps all the rows it
 ever held, so that the reservoir of any past time can be read off.
 */
module NormSampling {
  import opened MinHeap
  import opened TopWeights

  /** A row of the stream with the weight drawn for it. */
  datatype Row = Row(ts: nat, weight: real)

  /** `Item`: the row's place in the stream, and the weight it pushed out of its slot. */
  datatype Entry = Entry(ts: nat, row: nat, threshold: real)

  /** `List`: the entries of one slot and the weight of the last of them. */
  datatype Slot = Slot(items: seq<Entry>, weight: real) {
    function Append(ts: nat, row: nat, w: real): Slot {
      Slot(items + [Entry(ts, row, weight)], w)
    }

    /** The weight of entry j: the one its successor has pushed out. */
    function WeightAt(j: nat): real
      requires j < |items|
    {
      if j + 1 < |items| then items[j + 1].threshold else weight
    }

    ghost predicate Rising() {
      forall i, j :: 0 <= i < j < |items| ==> items[i].ts <= items[j].ts
    }

    /** How many entries are not later than ts. */
    ghost function Count(ts: nat): (n: nat)
      ensures n <= |items|
    {
      CountUpTo(items, ts)
    }

    /** The weight of the entry `last_of` finds, if there is one. */
    ghost function HeadAt(ts: nat): Weights {
      if Count(ts) == 0 then multiset{} else multiset{WeightAt(Count(ts) - 1)}
    }

    /** The weight that entry has pushed out. */
    ghost function PushedAt(ts: nat): real {
      if Count(ts) == 0 then 0.0 else items[Count(ts) - 1].threshold
    }
  }

  const EMPTY := Slot([], 0.0)

  ghost function CountUpTo(items: seq<Entry>, ts: nat): (n: nat)
    ensures n <= |items|
  {
    if items == [] then 0 else if items[|items| - 1].ts <= ts then |items| else CountUpTo(items[..|items| - 1], ts)
  }

  lemma {:induction false} CountIs(items: seq<Entry>, ts: nat, n: nat)
    requires n <= |items| && (forall i :: 0 <= i < n ==> items[i].ts <= ts)
        && (forall i :: n <= i < |items| ==> ts < items[i].ts)
    ensures CountUpTo(items, ts) == n
  {
    if n < |items| { CountIs(items[..|items| - 1], ts, n); }
  }

  /** `last_of`: a binary search for the first entry later than ts. */
  method LastOf(slot: Slot, ts: nat) returns (n: nat)
    requires slot.Rising()
    ensures n == slot.Count(ts)
    ensures n <= |slot.items| && (forall i :: 0 <= i < n ==> slot.items[i].ts <= ts)
    ensures forall i :: n <= i < |slot.items| ==> ts < slot.items[i].ts
  {
    var lo, hi := 0, |slot.items|;
    while lo < hi
      invariant 0 <= lo <= hi <= |slot.items|
      invariant forall i :: 0 <= i < lo ==> slot.items[i].ts <= ts
      invariant forall i :: hi <= i < |slot.items| ==> ts < slot.items[i].ts
    {
      var mid := (lo + hi) / 2;
      if ts < slot.items[mid].ts { hi := mid; } else { lo := mid + 1; }
    }
    CountIs(slot.items, ts, lo);
    n := lo;
  }

  /** An entry appended later than ts is not seen at ts. */
  lemma AppendLater(slot: Slot, ts0: nat, row: nat, w: real, ts: nat)
    requires ts < ts0
    ensures slot.Append(ts0, row, w).HeadAt(ts) == slot.HeadAt(ts)
  {
    var s := slot.Append(ts0, row, w);
    assert s.items[..|s.items| - 1] == slot.items;
    var n := slot.Count(ts);
    if 0 < n { assert s.WeightAt(n - 1) == slot.WeightAt(n - 1); }
  }

  lemma AppendSeen(slot: Slot, ts0: nat, row: nat, w: real, ts: nat)
    requires ts0 <= ts
    ensures slot.Append(ts0, row, w).HeadAt(ts) == multiset{w}
  {
  }

  lemma AppendPushes(slot: Slot, ts0: nat, row: nat, w: real, ts: nat)
    ensures slot.Append(ts0, row, w).PushedAt(ts) == if ts0 <= ts then slot.weight else slot.PushedAt(ts)
  {
    var s := slot.Append(ts0, row, w);
    assert s.items[..|s.items| - 1] == slot.items;
  }

  // ----- all slots

  /** The weights the slots show at time ts. */
  ghost function Heads(slots: seq<Slot>, ts: nat): Weights {
    if slots == [] then multiset{} else Heads(slots[..|slots| - 1], ts) + slots[|slots| - 1].HeadAt(ts)
  }

  ghost function UpTo(rows: seq<Row>, ts: nat): Weights {
    if rows == [] then multiset{} else
      UpTo(rows[..|rows| - 1], ts) + if rows[|rows| - 1].ts <= ts then multiset{rows[|rows| - 1].weight} else multiset{}
  }

  lemma {:induction false} HeadsUpdate(slots: seq<Slot>, i: nat, s: Slot, ts: nat)
    requires i < |slots|
    ensures slots[i].HeadAt(ts) <= Heads(slots, ts)
    ensures Heads(slots[i := s], ts) == Heads(slots, ts) - slots[i].HeadAt(ts) + s.HeadAt(ts)
  {
    hide Slot.HeadAt;
    var n := |slots| - 1;
    var h := slots[n].HeadAt(ts);
    if i < n {
      HeadsUpdate(slots[..n], i, s, ts);
      assert slots[i := s][..n] == slots[..n][i := s];
      Rearrange(Heads(slots[..n], ts), slots[i].HeadAt(ts), s.HeadAt(ts), h);
    } else {
      assert slots[i := s][..n] == slots[..n];
      Rearrange(h, h, s.HeadAt(ts), Heads(slots[..n], ts));
      assert h - h + s.HeadAt(ts) == s.HeadAt(ts);
      assert Heads(slots[..n], ts) + h == h + Heads(slots[..n], ts);
      assert Heads(slots[..n], ts) + s.HeadAt(ts) == s.HeadAt(ts) + Heads(slots[..n], ts);
    }
  }

  lemma Rearrange(a: Weights, h: Weights, h': Weights, b: Weights)
    requires h <= a
    ensures h <= a + b && (a - h + h') + b == (a + b) - h + h'
  {
  }

  /** At every time the slots show the k best of the rows seen by then. */
  ghost predicate Persistent(k: nat, slots: seq<Slot>, rows: seq<Row>) {
    forall ts: nat :: Heads(slots, ts) == Best(k, UpTo(rows, ts))
  }

  ghost predicate EndsBy(rows: seq<Row>, ts: nat) {
    forall r <- rows :: r.ts <= ts
  }

  lemma {:induction false} UpToAll(rows: seq<Row>, t: nat, t': nat)
    requires EndsBy(rows, t) && t <= t'
    ensures UpTo(rows, t') == UpTo(rows, t) && |UpTo(rows, t)| == |rows|
  {
    if rows != [] {
      var n := |rows| - 1;
      assert rows[n] in rows;
      forall r <- rows[..n] ensures r in rows {}
      UpToAll(rows[..n], t, t');
    }
  }

  lemma UpToAppend(rows: seq<Row>, r: Row, ts: nat)
    ensures UpTo(rows + [r], ts) == UpTo(rows, ts) + if r.ts <= ts then multiset{r.weight} else multiset{}
  {
    assert (rows + [r])[..|rows|] == rows;
  }

  /** Slot i takes the new row: what it shows from now on changes as a reservoir's content does. */
  lemma AppendPersists(k: nat, slots: seq<Slot>, rows: seq<Row>, i: nat, row: nat, r: Row)
    requires 0 < k && Persistent(k, slots, rows) && i < |slots| && EndsBy(rows, r.ts)
    requires var now := Heads(slots, r.ts);
             Keep(k, now, r.weight) == now - slots[i].HeadAt(r.ts) + multiset{r.weight}
    requires forall ts: nat | r.ts <= ts :: slots[i].HeadAt(ts) == slots[i].HeadAt(r.ts)
    ensures Persistent(k, slots[i := slots[i].Append(r.ts, row, r.weight)], rows + [r])
  {
    hide Best, Heads, UpTo, Keep, Slot.HeadAt, Slot.Append;
    var s := slots[i].Append(r.ts, row, r.weight);
    forall ts: nat ensures Heads(slots[i := s], ts) == Best(k, UpTo(rows + [r], ts)) {
      HeadsUpdate(slots, i, s, ts);
      UpToAppend(rows, r, ts);
      assert Heads(slots, ts) == Best(k, UpTo(rows, ts));
      if ts < r.ts {
        AppendLater(slots[i], r.ts, row, r.weight, ts);
        Cancel(Heads(slots, ts), slots[i].HeadAt(ts));
        assert UpTo(rows, ts) + multiset{} == UpTo(rows, ts);
      } else {
        AppendSeen(slots[i], r.ts, row, r.weight, ts);
        UpToAll(rows, r.ts, ts);
        assert Heads(slots, r.ts) == Best(k, UpTo(rows, r.ts));
        BestKeep(k, UpTo(rows, ts), r.weight);
      }
    }
  }

  lemma Cancel(a: Weights, b: Weights)
    requires b <= a
    ensures a - b + b == a
  {
  }

  /** A row that is not taken changes nothing, now or later. */
  lemma SkipPersists(k: nat, slots: seq<Slot>, rows: seq<Row>, r: Row)
    requires 0 < k && Persistent(k, slots, rows) && EndsBy(rows, r.ts)
    requires forall ts: nat | r.ts <= ts :: Heads(slots, ts) == Heads(slots, r.ts)
    requires Keep(k, Heads(slots, r.ts), r.weight) == Heads(slots, r.ts)
    ensures Persistent(k, slots, rows + [r])
  {
    hide Best, Heads, UpTo, Keep;
    forall ts: nat ensures Heads(slots, ts) == Best(k, UpTo(rows + [r], ts)) {
      UpToAppend(rows, r, ts);
      assert Heads(slots, ts) == Best(k, UpTo(rows, ts));
      if ts < r.ts {
        assert UpTo(rows, ts) + multiset{} == UpTo(rows, ts);
      } else {
        UpToAll(rows, r.ts, ts);
        assert Heads(slots, r.ts) == Best(k, UpTo(rows, r.ts));
        BestKeep(k, UpTo(rows, ts), r.weight);
      }
    }
  }

  // ----- the weights pushed out

  function Larger(a: real, b: real): real {
    if a < b then b else a
  }

  /** The largest weight that the slots' entries of time ts have pushed out, 0 if there is none. */
  ghost function Pushed(slots: seq<Slot>, ts: nat): real {
    if slots == [] then 0.0 else Larger(Pushed(slots[..|slots| - 1], ts), slots[|slots| - 1].PushedAt(ts))
  }

  /**
   The largest weight that was among the k best of the rows by ts and had to leave for a later row,
   0 if there is none.
   */
  ghost function PushedOut(k: nat, rows: seq<Row>, ts: nat): real {
    if rows == [] then 0.0
    else
      var n := |rows| - 1;
      var before := PushedOut(k, rows[..n], ts);
      if rows[n].ts <= ts && Pushes(k, UpTo(rows[..n], ts), rows[n].weight) then
        Larger(before, Least(Best(k, UpTo(rows[..n], ts))))
      else before
  }

  /** A weight that takes the place of the least of the k best. */
  ghost predicate Pushes(k: nat, ws: Weights, w: real) {
    0 < k <= |ws| && Least(Best(k, ws)) < w
  }

  lemma {:induction false} PushedUpdate(slots: seq<Slot>, i: nat, s: Slot, ts: nat)
    requires i < |slots| && (slots[i].PushedAt(ts) <= s.PushedAt(ts) || slots[i].PushedAt(ts) <= 0.0)
    ensures 0.0 <= Pushed(slots, ts)
    ensures Pushed(slots[i := s], ts) == Larger(Pushed(slots, ts), s.PushedAt(ts))
  {
    hide Slot.PushedAt;
    var n := |slots| - 1;
    if i < n {
      PushedUpdate(slots[..n], i, s, ts);
      assert slots[i := s][..n] == slots[..n][i := s];
    } else {
      assert slots[i := s][..n] == slots[..n];
      PushedIsPositive(slots[..n], ts);
    }
  }

  lemma {:induction false} PushedIsPositive(slots: seq<Slot>, ts: nat)
    ensures 0.0 <= Pushed(slots, ts)
  {
    hide Slot.PushedAt;
    if slots != [] { PushedIsPositive(slots[..|slots| - 1], ts); }
  }

  /** What was pushed out came by ts and is no longer among the k best. */
  lemma {:induction false} PushedOutLeft(k: nat, rows: seq<Row>, ts: nat)
    requires 0 < k
    ensures var ws, p := UpTo(rows, ts), PushedOut(k, rows, ts); p == 0.0 || p in ws - Best(k, ws)
  {
    hide Best;
    if rows != [] {
      var n := |rows| - 1;
      var ws, w := UpTo(rows[..n], ts), rows[n].weight;
      PushedOutLeft(k, rows[..n], ts);
      if rows[n].ts <= ts {
        BestKeep(k, ws, w);
        LeavesOne(k, ws, w, PushedOut(k, rows[..n], ts));
      } else {
        assert ws + multiset{} == ws;
      }
    }
  }

  lemma LeavesOne(k: nat, ws: Weights, w: real, p: real)
    requires 0 < k
    ensures p in ws - Best(k, ws) ==> p in (ws + multiset{w}) - Keep(k, Best(k, ws), w)
    ensures Pushes(k, ws, w) ==> Least(Best(k, ws)) in (ws + multiset{w}) - Keep(k, Best(k, ws), w)
  {
    var r := Best(k, ws);
    if k <= |ws| { LeastIn(r); }
  }

  /** At every time the slots tell the largest weight pushed out by then. */
  ghost predicate Remembers(k: nat, slots: seq<Slot>, rows: seq<Row>) {
    forall ts: nat :: Pushed(slots, ts) == PushedOut(k, rows, ts)
  }

  /** A slot's entry has pushed out less than it weighs, or nothing; an empty slot weighs nothing. */
  ghost predicate Surpasses(slot: Slot) {
    && (slot.items == [] ==> slot.weight == 0.0)
    && (slot.items != [] ==> slot.items[0].threshold == 0.0)
    && (forall j :: 0 < j < |slot.items| ==> slot.items[j].threshold < slot.WeightAt(j))
  }

  ghost predicate AllSurpass(slots: seq<Slot>) {
    forall i :: 0 <= i < |slots| ==> Surpasses(slots[i])
  }

  lemma SurpassesMore(slot: Slot, ts: nat, row: nat, w: real)
    requires Surpasses(slot) && (slot.items != [] ==> slot.weight < w)
    ensures Surpasses(slot.Append(ts, row, w))
  {
    var s := slot.Append(ts, row, w);
    forall j | 0 < j < |s.items| ensures s.items[j].threshold < s.WeightAt(j) {
      if j < |slot.items| { assert s.WeightAt(j) == slot.WeightAt(j); }
    }
  }

  /** From the last row on the weight a slot pushed out is less than its own, or nothing. */
  lemma PushedLess(slot: Slot, rows: seq<Row>, t: nat, ts: nat)
    requires Records(slot, rows) && EndsBy(rows, t) && t <= ts && Surpasses(slot)
    ensures slot.PushedAt(ts) <= 0.0 || slot.PushedAt(ts) <= slot.weight
  {
    if slot.items != [] {
      var n := |slot.items| - 1;
      assert rows[slot.items[n].row] in rows;
    }
  }

  /** Slot i takes the new row, which pushes out its last weight. */
  lemma AppendRemembers(k: nat, slots: seq<Slot>, rows: seq<Row>, i: nat, row: nat, r: Row)
    requires 0 < k && Remembers(k, slots, rows) && Persistent(k, slots, rows) && i < |slots| && EndsBy(rows, r.ts)
    requires AllRecord(slots, rows) && AllSurpass(slots)
    requires if |rows| < k then slots[i].items == []
             else Pushes(k, UpTo(rows, r.ts), r.weight) && slots[i].weight == Least(Best(k, UpTo(rows, r.ts)))
    ensures Remembers(k, slots[i := slots[i].Append(r.ts, row, r.weight)], rows + [r])
  {
    hide Best, UpTo, Records, Surpasses, Slot.PushedAt, Slot.Append, EndsBy, Pushed;
    var s := slots[i].Append(r.ts, row, r.weight);
    assert (rows + [r])[..|rows|] == rows;
    forall ts: nat ensures Pushed(slots[i := s], ts) == PushedOut(k, rows + [r], ts) {
      assert Pushed(slots, ts) == PushedOut(k, rows, ts);
      AppendPushes(slots[i], r.ts, row, r.weight, ts);
      if ts < r.ts {
        PushedSame(slots, i, s, ts);
      } else {
        UpToAll(rows, r.ts, ts);
        PushedLess(slots[i], rows, r.ts, ts);
        EmptyPushes(slots[i], ts);
        PushedUpdate(slots, i, s, ts);
      }
    }
  }

  lemma {:induction false} PushedSame(slots: seq<Slot>, i: nat, s: Slot, ts: nat)
    requires i < |slots| && slots[i].PushedAt(ts) == s.PushedAt(ts)
    ensures Pushed(slots[i := s], ts) == Pushed(slots, ts)
  {
    hide Slot.PushedAt;
    var n := |slots| - 1;
    if i < n {
      PushedSame(slots[..n], i, s, ts);
      assert slots[i := s][..n] == slots[..n][i := s];
    } else {
      assert slots[i := s][..n] == slots[..n];
    }
  }

  lemma EmptyPushes(slot: Slot, ts: nat)
    requires Surpasses(slot)
    ensures slot.items == [] ==> slot.weight == 0.0 && slot.PushedAt(ts) == 0.0
  {
  }

  lemma SkipRemembers(k: nat, slots: seq<Slot>, rows: seq<Row>, r: Row)
    requires Remembers(k, slots, rows) && EndsBy(rows, r.ts) && !Pushes(k, UpTo(rows, r.ts), r.weight)
    ensures Remembers(k, slots, rows + [r])
  {
    hide Best, UpTo, Pushes, Pushed, EndsBy;
    assert (rows + [r])[..|rows|] == rows;
    forall ts: nat ensures Pushed(slots, ts) == PushedOut(k, rows + [r], ts) {
      assert Pushed(slots, ts) == PushedOut(k, rows, ts);
      if r.ts <= ts { UpToAll(rows, r.ts, ts); }
    }
  }

  // ----- every row in one place

  /** No row is kept twice. */
  ghost predicate Apart(slots: seq<Slot>) {
    forall a, j, b, q
      | 0 <= a < |slots| && 0 <= j < |slots[a].items| && 0 <= b < |slots| && 0 <= q < |slots[b].items| ::
      slots[a].items[j].row == slots[b].items[q].row ==> a == b && j == q
  }

  lemma AppendApart(slots: seq<Slot>, rows: seq<Row>, i: nat, ts: nat, w: real)
    requires Apart(slots) && AllRecord(slots, rows) && i < |slots|
    ensures Apart(slots[i := slots[i].Append(ts, |rows|, w)])
  {
    var s := slots[i := slots[i].Append(ts, |rows|, w)];
    forall a, j | 0 <= a < |s| && 0 <= j < |s[a].items|
      ensures s[a].items[j].row <= |rows| && (s[a].items[j].row == |rows| <==> a == i && j == |slots[i].items|)
    {
      if a != i || j < |slots[i].items| { assert Records(slots[a], rows) && s[a].items[j] == slots[a].items[j]; }
    }
    forall a, j, b, q | 0 <= a < |s| && 0 <= j < |s[a].items| && 0 <= b < |s| && 0 <= q < |s[b].items|
      && s[a].items[j].row == s[b].items[q].row
      ensures a == b && j == q
    {
      if s[a].items[j].row != |rows| {
        assert s[a].items[j] == slots[a].items[j] && s[b].items[q] == slots[b].items[q];
      }
    }
  }

  // ----- the slots as they are now

  /** The slot's entries are rows of the stream, in order, with their weights. */
  ghost predicate Records(slot: Slot, rows: seq<Row>) {
    && slot.Rising()
    && forall j :: 0 <= j < |slot.items| ==>
         && slot.items[j].row < |rows|
         && rows[slot.items[j].row] == Row(slot.items[j].ts, slot.WeightAt(j))
  }

  ghost predicate AllRecord(slots: seq<Slot>, rows: seq<Row>) {
    forall i :: 0 <= i < |slots| ==> Records(slots[i], rows)
  }

  lemma RecordsMore(slot: Slot, rows: seq<Row>, r: Row)
    requires Records(slot, rows)
    ensures Records(slot, rows + [r])
  {
  }

  lemma RecordsAppend(slot: Slot, rows: seq<Row>, r: Row)
    requires Records(slot, rows) && EndsBy(rows, r.ts)
    ensures Records(slot.Append(r.ts, |rows|, r.weight), rows + [r])
  {
    var s := slot.Append(r.ts, |rows|, r.weight);
    forall j | 0 <= j < |s.items|
      ensures s.items[j].row < |rows| + 1 && (rows + [r])[s.items[j].row] == Row(s.items[j].ts, s.WeightAt(j))
    {
      if j < |slot.items| { assert s.WeightAt(j) == slot.WeightAt(j); }
    }
    forall i, j | 0 <= i < j < |s.items| ensures s.items[i].ts <= s.items[j].ts {
      if j == |slot.items| { assert rows[slot.items[i].row] in rows; }
    }
  }

  /** From the last row on a slot shows its last entry. */
  lemma ShowsLast(slot: Slot, rows: seq<Row>, t: nat, ts: nat)
    requires Records(slot, rows) && EndsBy(rows, t) && t <= ts
    ensures slot.HeadAt(ts) == if slot.items == [] then multiset{} else multiset{slot.weight}
  {
    if slot.items != [] {
      var n := |slot.items| - 1;
      assert rows[slot.items[n].row] in rows;
    }
  }

  lemma {:induction false} HeadsLast(slots: seq<Slot>, rows: seq<Row>, t: nat, ts: nat)
    requires AllRecord(slots, rows) && EndsBy(rows, t) && t <= ts
    ensures Heads(slots, ts) == Heads(slots, t)
  {
    hide Slot.HeadAt, Records, EndsBy;
    if slots != [] {
      var n := |slots| - 1;
      HeadsLast(slots[..n], rows, t, ts);
      ShowsLast(slots[n], rows, t, ts);
      ShowsLast(slots[n], rows, t, t);
    }
  }

  lemma {:induction false} HeadsFrom(slots: seq<Slot>, rows: seq<Row>, t: nat, w: real)
    requires AllRecord(slots, rows) && EndsBy(rows, t) && w in Heads(slots, t)
    ensures exists i :: 0 <= i < |slots| && slots[i].weight == w
  {
    hide Slot.HeadAt, Records, EndsBy;
    var n := |slots| - 1;
    ShowsLast(slots[n], rows, t, t);
    if w in Heads(slots[..n], t) {
      HeadsFrom(slots[..n], rows, t, w);
      var i :| 0 <= i < n && slots[..n][i].weight == w;
      assert slots[i].weight == w;
    }
  }

  // ----- the heap of slots

  function KeyOf(slots: seq<Slot>): nat -> real {
    (i: nat) => if i < |slots| then slots[i].weight else 0.0
  }

  /** The heap lists every slot once. */
  ghost predicate Lists(h: seq<nat>, k: nat) {
    && |h| == k
    && (forall p :: 0 <= p < k ==> h[p] < k)
    && (forall p, q :: 0 <= p < q < k ==> h[p] != h[q])
    && (forall i: nat :: i < k ==> i in h)
  }

  lemma ListsPermuted(a: seq<nat>, b: seq<nat>, k: nat)
    requires Lists(a, k) && |b| == |a| && multiset(a) == multiset(b)
    ensures Lists(b, k)
  {
    forall p | 0 <= p < k ensures b[p] < k { assert b[p] in multiset(a); }
    forall i: nat | i < k ensures i in b {
      assert i in a;
      assert i in multiset(a);
      assert i in multiset(b);
    }
    forall p, q | 0 <= p < q < k ensures b[p] != b[q] {
      Once(a, b[p]);
      Twice(b, p, q);
    }
  }

  lemma Twice(s: seq<nat>, p: nat, q: nat)
    requires p < q < |s|
    ensures s[p] == s[q] ==> multiset(s)[s[p]] >= 2
  {
    assert s == s[..q] + [s[q]] + s[q + 1..];
    assert s[..q][p] in multiset(s[..q]);
  }

  lemma {:induction false} Once(s: seq<nat>, x: nat)
    requires forall p, q :: 0 <= p < q < |s| ==> s[p] != s[q]
    ensures multiset(s)[x] <= 1
  {
    if s != [] {
      var n := |s| - 1;
      assert s == s[..n] + [s[n]];
      Once(s[..n], x);
      if s[n] == x { assert x !in s[..n]; }
    }
  }

  /** The slot on top of the heap shows the least weight of all. */
  lemma TopShowsLeast(slots: seq<Slot>, rows: seq<Row>, t: nat, h: seq<nat>, k: nat)
    requires 0 < k == |slots| && Lists(h, k) && Ordered(KeyOf(slots), h, k)
    requires AllRecord(slots, rows) && EndsBy(rows, t) && forall i :: 0 <= i < k ==> slots[i].items != []
    ensures 0 < |Heads(slots, t)| && Least(Heads(slots, t)) == slots[h[0]].weight
    ensures slots[h[0]].HeadAt(t) == multiset{slots[h[0]].weight}
  {
    hide Ordered, Slot.HeadAt;
    var w := slots[h[0]].weight;
    ShowsLast(slots[h[0]], rows, t, t);
    HeadsUpdate(slots, h[0], EMPTY, t);
    assert w in Heads(slots, t);
    forall y | y in Heads(slots, t) ensures w <= y {
      HeadsFrom(slots, rows, t, y);
      var i :| 0 <= i < k && slots[i].weight == y;
      assert i in h;
      var p :| 0 <= p < k && h[p] == i;
      TopIsLeast(KeyOf(slots), h, k, p);
    }
    LeastIs(Heads(slots, t), w);
  }

  /** The top slot's weight has grown; the rest of the heap is in order. */
  lemma TopGrows(slots: seq<Slot>, h: seq<nat>, k: nat, s: Slot)
    requires 0 < k == |slots| && Lists(h, k) && Ordered(KeyOf(slots), h, k)
    ensures Ready(KeyOf(slots[h[0] := s]), h, k, 0, 0)
  {
    var slots' := slots[h[0] := s];
    forall j | 0 < j < k && Up(j) != 0 ensures Below(KeyOf(slots'), h, j) {
      assert Below(KeyOf(slots), h, j);
      assert h[0] != h[j] && h[0] != h[Up(j)];
    }
  }

  class NormSamplingSketch {
    const k: nat
    const heap: array<nat>
    var seen: nat
    var reservoir: seq<Slot>
    ghost var rows: seq<Row>

    ghost predicate Stored()
      reads this
    {
      && 0 < k == |reservoir| && seen == |rows| && AllRecord(reservoir, rows) && Persistent(k, reservoir, rows)
      && (forall i :: 0 <= i < k ==> (reservoir[i].items == [] <==> seen <= i))
      && Remembers(k, reservoir, rows) && AllSurpass(reservoir) && Apart(reservoir)
    }

    ghost predicate Valid()
      reads this, heap
    {
      && Stored() && heap.Length == k && Lists(heap[..], k)
      && (k <= seen ==> Ordered(KeyOf(reservoir), heap[..], k))
    }

    constructor (k: nat)
      requires 0 < k
      ensures Valid() && rows == []
    {
      this.k := k;
      heap := new nat[k](i => i);
      seen, reservoir, rows := 0, seq(k, _ => EMPTY), [];
      new;
      NothingShown(reservoir);
      NothingPushed(reservoir);
      forall i: nat | i < k ensures i in heap[..] { assert heap[..][i] == i; }
    }

    /** `clear`; the heap keeps its order, to be made anew when the sample is complete again. */
    method Clear()
      requires Valid()
      modifies this
      ensures Valid() && rows == []
    {
      seen, reservoir, rows := 0, seq(k, _ => EMPTY), [];
      NothingShown(reservoir);
      NothingPushed(reservoir);
    }

    lemma {:induction false} NothingShown(slots: seq<Slot>)
      requires forall i :: 0 <= i < |slots| ==> slots[i] == EMPTY
      ensures forall ts: nat :: Heads(slots, ts) == multiset{}
    {
      if slots != [] { NothingShown(slots[..|slots| - 1]); }
    }

    lemma {:induction false} NothingPushed(slots: seq<Slot>)
      requires forall i :: 0 <= i < |slots| ==> slots[i] == EMPTY
      ensures forall ts: nat :: Pushed(slots, ts) == 0.0
    {
      if slots != [] { NothingPushed(slots[..|slots| - 1]); }
    }

    lemma StoredParts()
      requires Stored()
      ensures 0 < k == |reservoir| && seen == |rows| && AllRecord(reservoir, rows) && Persistent(k, reservoir, rows)
      ensures forall i :: 0 <= i < k ==> (reservoir[i].items == [] <==> seen <= i)
      ensures Remembers(k, reservoir, rows) && AllSurpass(reservoir) && Apart(reservoir)
    {
      hide AllRecord, Persistent, Remembers, AllSurpass, Apart;
    }

    lemma StoredIs()
      requires 0 < k == |reservoir| && seen == |rows| && AllRecord(reservoir, rows) && Persistent(k, reservoir, rows)
      requires forall i :: 0 <= i < k ==> (reservoir[i].items == [] <==> seen <= i)
      requires Remembers(k, reservoir, rows) && AllSurpass(reservoir) && Apart(reservoir)
      ensures Stored()
    {
      hide AllRecord, Persistent, Remembers, AllSurpass, Apart;
    }

    /** `update` with the weight drawn for the row. */
    method Update(ts: nat, weight: real)
      requires Valid() && EndsBy(rows, ts)
      modifies this, heap
      ensures Valid() && rows == old(rows) + [Row(ts, weight)]
    {
      hide *;
      ValidParts();
      if seen < k {
        Take(seen, ts, weight);
        if seen == k {
          Order();
        } else {
          ValidIs();
        }
      } else {
        if weight > reservoir[heap[0]].weight {
          Supersede(ts, weight);
        } else {
          Skip(ts, weight);
        }
      }
    }

    /** Append the row to slot i. */
    method Take(i: nat, ts: nat, weight: real)
      requires Stored() && EndsBy(rows, ts) && i < k && (seen < k ==> i == seen)
      requires k <= seen ==>
        && 0 < |Heads(reservoir, ts)| && reservoir[i].weight == Least(Heads(reservoir, ts)) < weight
        && reservoir[i].HeadAt(ts) == multiset{Least(Heads(reservoir, ts))}
      modifies `reservoir, `seen, `rows
      ensures Stored() && rows == old(rows) + [Row(ts, weight)] && seen == old(seen) + 1
      ensures reservoir == old(reservoir)[i := old(reservoir)[i].Append(ts, old(seen), weight)]
    {
      hide *;
      ghost var r := Row(ts, weight);
      StoredParts();
      KeepsOne(i, r);
      AppendPersists(k, reservoir, rows, i, seen, r);
      SlotsRecord(i, r);
      TakesOver(i, r);
      AppendFills(reservoir[i], ts, seen, weight);
      AppendApart(reservoir, rows, i, ts, weight);
      reservoir := reservoir[i := reservoir[i].Append(ts, seen, weight)];
      seen := seen + 1;
      rows := rows + [r];
      StoredIs();
    }

    /** The row pushes out the weight of slot i, or nothing while there are free slots. */
    lemma TakesOver(i: nat, r: Row)
      requires Stored() && EndsBy(rows, r.ts) && i < k && (seen < k ==> i == seen)
      requires k <= seen ==>
        && 0 < |Heads(reservoir, r.ts)| && reservoir[i].weight == Least(Heads(reservoir, r.ts)) < r.weight
      ensures Remembers(k, reservoir[i := reservoir[i].Append(r.ts, seen, r.weight)], rows + [r])
      ensures AllSurpass(reservoir[i := reservoir[i].Append(r.ts, seen, r.weight)])
    {
      hide *;
      StoredParts();
      UpToAll(rows, r.ts, r.ts);
      PersistentAt(k, reservoir, rows, r.ts);
      if k <= seen { PushesIs(k, UpTo(rows, r.ts), r.weight); }
      AppendRemembers(k, reservoir, rows, i, seen, r);
      SurpassesAll(reservoir, i, r.ts, seen, r.weight);
    }

    lemma KeepsOne(i: nat, r: Row)
      requires Stored() && EndsBy(rows, r.ts) && i < k && (seen < k ==> i == seen)
      requires k <= seen ==>
        && 0 < |Heads(reservoir, r.ts)| && Least(Heads(reservoir, r.ts)) <= r.weight
        && reservoir[i].HeadAt(r.ts) == multiset{Least(Heads(reservoir, r.ts))}
      ensures var now := Heads(reservoir, r.ts);
              Keep(k, now, r.weight) == now - reservoir[i].HeadAt(r.ts) + multiset{r.weight}
      ensures forall ts: nat | r.ts <= ts :: reservoir[i].HeadAt(ts) == reservoir[i].HeadAt(r.ts)
    {
      hide Heads, UpTo, Best, Slot.HeadAt, EndsBy, Records, Keep;
      UpToAll(rows, r.ts, r.ts);
      assert Heads(reservoir, r.ts) == Best(k, UpTo(rows, r.ts));
      ShowsLast(reservoir[i], rows, r.ts, r.ts);
      var now := Heads(reservoir, r.ts);
      assert |now| == if seen < k then seen else k by { BestSize(k, UpTo(rows, r.ts)); }
      KeepIs(k, now, r.weight);
      if seen < k { assert now - multiset{} == now; }
      forall ts: nat | r.ts <= ts ensures reservoir[i].HeadAt(ts) == reservoir[i].HeadAt(r.ts) {
        ShowsLast(reservoir[i], rows, r.ts, ts);
      }
    }

    lemma SlotsRecord(i: nat, r: Row)
      requires Stored() && EndsBy(rows, r.ts) && i < k
      ensures AllRecord(reservoir[i := reservoir[i].Append(r.ts, seen, r.weight)], rows + [r])
    {
      hide Records;
      RecordsAppend(reservoir[i], rows, r);
      forall j | 0 <= j < k && j != i ensures Records(reservoir[j], rows + [r]) { RecordsMore(reservoir[j], rows, r); }
    }

    /** The sample is complete: order the slots by weight. */
    method Order()
      requires Stored() && heap.Length == k && Lists(heap[..], k)
      modifies heap
      ensures Valid()
    {
      ghost var h := heap[..];
      Make(heap, k, KeyOf(reservoir));
      ListsPermuted(h, heap[..], k);
    }

    method Supersede(ts: nat, weight: real)
      requires Valid() && EndsBy(rows, ts) && k <= seen && weight > reservoir[heap[0]].weight
      modifies this, heap
      ensures Valid() && rows == old(rows) + [Row(ts, weight)]
    {
      hide *;
      ghost var h := heap[..];
      ValidParts();
      TopShowsLeast(reservoir, rows, ts, h, k);
      TopGrows(reservoir, h, k, reservoir[heap[0]].Append(ts, seen, weight));
      Take(heap[0], ts, weight);
      PushDown(heap, 0, k, KeyOf(reservoir), 0);
      OrderedIs(KeyOf(reservoir), heap[..], k);
      ListsPermuted(h, heap[..], k);
      ValidIs();
    }

    lemma ValidParts()
      requires Valid()
      ensures Stored() && heap.Length == k && Lists(heap[..], k) && 0 < k == |reservoir| && AllRecord(reservoir, rows)
      ensures heap[0] < k && Persistent(k, reservoir, rows)
      ensures k <= seen ==> Ordered(KeyOf(reservoir), heap[..], k) && forall i :: 0 <= i < k ==>
          reservoir[i].items != []
    {
      hide Ordered, AllRecord, Persistent, KeyOf;
    }

    lemma ValidIs()
      requires Stored() && heap.Length == k && Lists(heap[..], k)
      requires k <= seen ==> Ordered(KeyOf(reservoir), heap[..], k)
      ensures Valid()
    {
      hide Lists, Ordered, AllRecord, Persistent, KeyOf, Stored;
    }

    method Skip(ts: nat, weight: real)
      requires Valid() && EndsBy(rows, ts) && k <= seen && weight <= reservoir[heap[0]].weight
      modifies `seen, `rows
      ensures Valid() && rows == old(rows) + [Row(ts, weight)]
    {
      hide *;
      ghost var r := Row(ts, weight);
      ValidParts();
      StoredParts();
      SkipRecords(r);
      seen := seen + 1;
      rows := rows + [r];
      StoredIs();
      ValidIs();
    }

    lemma SkipRecords(r: Row)
      requires Valid() && EndsBy(rows, r.ts) && k <= seen && r.weight <= reservoir[heap[0]].weight
      ensures AllRecord(reservoir, rows + [r]) && Persistent(k, reservoir, rows + [r])
      ensures Remembers(k, reservoir, rows + [r])
    {
      hide Heads, UpTo, Best, Slot.HeadAt, EndsBy, Records, Keep, Ordered, Pushed, PushedOut;
      TopShowsLeast(reservoir, rows, r.ts, heap[..], k);
      UpToAll(rows, r.ts, r.ts);
      assert Heads(reservoir, r.ts) == Best(k, UpTo(rows, r.ts));
      KeepsAll(k, Heads(reservoir, r.ts), r.weight);
      forall ts: nat | r.ts <= ts ensures Heads(reservoir, ts) == Heads(reservoir, r.ts) {
        HeadsLast(reservoir, rows, r.ts, ts);
      }
      SkipPersists(k, reservoir, rows, r);
      SkipRemembers(k, reservoir, rows, r);
      forall j | 0 <= j < k ensures Records(reservoir[j], rows + [r]) { RecordsMore(reservoir[j], rows, r); }
    }

    /** The sampling part of `get_covariance_matrix`: every slot's last row not later than ts. */
    method SampleAt(ts: nat) returns (picks: seq<Entry>, threshold: real)
      requires Valid()
      ensures Picked(picks, rows, ts) && Weighed(picks, rows) == Best(k, UpTo(rows, ts))
      ensures Threshold(picks, threshold) && threshold == PushedOut(k, rows, ts)
      ensures threshold == 0.0 || threshold in UpTo(rows, ts) - Best(k, UpTo(rows, ts))
    {
      hide *;
      ValidParts();
      StoredParts();
      NothingPicked(rows, ts);
      picks, threshold := [], 0.0;
      var i := 0;
      assert reservoir[..0] == [];
      while i < k
        invariant 0 <= i <= k && Picked(picks, rows, ts) && Weighed(picks, rows) == Heads(reservoir[..i], ts)
        invariant Threshold(picks, threshold) && threshold == Pushed(reservoir[..i], ts)
        invariant From(picks, reservoir, i)
      {
        SlotRecords(reservoir, rows, i);
        var n := LastOf(reservoir[i], ts);
        HeadsOneMore(reservoir, i, ts);
        PushedOneMore(reservoir, i, n, ts);
        FromMore(picks, reservoir, i);
        if n > 0 {
          var e := reservoir[i].items[n - 1];
          FromOne(picks, reservoir, i, n);
          PickOne(picks, rows, ts, reservoir[i], n, threshold);
          picks := picks + [e];
          if e.threshold > threshold { threshold := e.threshold; }
        } else {
          PickNone(reservoir[i], ts);
          NoMore(Weighed(picks, rows));
        }
        i := i + 1;
      }
      assert reservoir[..i] == reservoir;
      PersistentAt(k, reservoir, rows, ts);
      RemembersAt(k, reservoir, rows, ts);
      PushedOutLeft(k, rows, ts);
    }
  }

  lemma PushesIs(k: nat, ws: Weights, w: real)
    requires 0 < k <= |ws| && Least(Best(k, ws)) < w
    ensures Pushes(k, ws, w)
  {
  }

  lemma AppendFills(slot: Slot, ts: nat, row: nat, w: real)
    ensures slot.Append(ts, row, w).items != []
  {
  }

  lemma SurpassesAll(slots: seq<Slot>, i: nat, ts: nat, row: nat, w: real)
    requires AllSurpass(slots) && i < |slots| && (slots[i].items != [] ==> slots[i].weight < w)
    ensures AllSurpass(slots[i := slots[i].Append(ts, row, w)])
  {
    hide Surpasses, Slot.Append;
    SurpassesMore(slots[i], ts, row, w);
  }

  /** The entries name different rows that came by time ts. */
  ghost predicate Picked(picks: seq<Entry>, rows: seq<Row>, ts: nat) {
    && (forall e <- picks :: e.row < |rows| && rows[e.row].ts == e.ts <= ts)
    && (forall i, j :: 0 <= i < j < |picks| ==> picks[i].row != picks[j].row)
  }

  /** The weights of the rows the entries name. */
  ghost function Weighed(picks: seq<Entry>, rows: seq<Row>): Weights
    decreases |picks|
  {
    if picks == [] then multiset{} else
      var e := picks[|picks| - 1];
      Weighed(picks[..|picks| - 1], rows) + if e.row < |rows| then multiset{rows[e.row].weight} else multiset{}
  }

  /** The largest of the weights the entries have pushed out. */
  ghost predicate Threshold(picks: seq<Entry>, threshold: real) {
    && 0.0 <= threshold && (forall e <- picks :: e.threshold <= threshold)
    && (threshold == 0.0 || exists e :: e in picks && e.threshold == threshold)
  }

  lemma NothingPicked(rows: seq<Row>, ts: nat)
    ensures Picked([], rows, ts) && Weighed([], rows) == multiset{} == Heads([], ts) && Threshold([], 0.0)
    ensures Pushed([], ts) == 0.0 && forall slots: seq<Slot> :: From([], slots, 0)
  {
  }

  lemma SlotRecords(slots: seq<Slot>, rows: seq<Row>, i: nat)
    requires i < |slots| && AllRecord(slots, rows)
    ensures Records(slots[i], rows) && slots[i].Rising()
  {
  }

  lemma HeadsOneMore(slots: seq<Slot>, i: nat, ts: nat)
    requires i < |slots|
    ensures Heads(slots[..i + 1], ts) == Heads(slots[..i], ts) + slots[i].HeadAt(ts)
  {
    assert slots[..i + 1][..i] == slots[..i];
  }

  /** The entries were picked from the slots before slot i. */
  ghost predicate From(picks: seq<Entry>, slots: seq<Slot>, i: nat) {
    forall e <- picks :: exists a, j :: 0 <= a < i && a < |slots| && 0 <= j < |slots[a].items| && slots[a].items[j] == e
  }

  lemma FromMore(picks: seq<Entry>, slots: seq<Slot>, i: nat)
    requires From(picks, slots, i)
    ensures From(picks, slots, i + 1)
  {
  }

  lemma FromOne(picks: seq<Entry>, slots: seq<Slot>, i: nat, n: nat)
    requires From(picks, slots, i) && Apart(slots) && i < |slots| && 0 < n <= |slots[i].items|
    ensures From(picks + [slots[i].items[n - 1]], slots, i + 1)
    ensures forall e <- picks :: e.row != slots[i].items[n - 1].row
  {
  }

  lemma PushedOneMore(slots: seq<Slot>, i: nat, n: nat, ts: nat)
    requires i < |slots| && n == slots[i].Count(ts) <= |slots[i].items|
    ensures n == 0 ==> Pushed(slots[..i + 1], ts) == Pushed(slots[..i], ts)
    ensures 0 < n && slots[i].items[n - 1].threshold > Pushed(slots[..i], ts) ==>
              Pushed(slots[..i + 1], ts) == slots[i].items[n - 1].threshold
    ensures 0 < n && slots[i].items[n - 1].threshold <= Pushed(slots[..i], ts) ==>
              Pushed(slots[..i + 1], ts) == Pushed(slots[..i], ts)
  {
    assert slots[..i + 1][..i] == slots[..i];
    PushedIsPositive(slots[..i], ts);
  }

  lemma RemembersAt(k: nat, slots: seq<Slot>, rows: seq<Row>, ts: nat)
    requires Remembers(k, slots, rows)
    ensures Pushed(slots, ts) == PushedOut(k, rows, ts)
  {
  }

  lemma PickOne(picks: seq<Entry>, rows: seq<Row>, ts: nat, slot: Slot, n: nat, threshold: real)
    requires Picked(picks, rows, ts) && Records(slot, rows) && 0 < n == slot.Count(ts) && slot.items[n - 1].ts <= ts
    requires Threshold(picks, threshold) && forall e <- picks :: e.row != slot.items[n - 1].row
    ensures var e := slot.items[n - 1];
            && Picked(picks + [e], rows, ts)
            && Weighed(picks + [e], rows) == Weighed(picks, rows) + slot.HeadAt(ts)
            && Threshold(picks + [e], if e.threshold > threshold then e.threshold else threshold)
  {
    var e := slot.items[n - 1];
    assert (picks + [e])[..|picks|] == picks;
    assert e in picks + [e];
  }

  lemma PickNone(slot: Slot, ts: nat)
    requires slot.Count(ts) == 0
    ensures slot.HeadAt(ts) == multiset{}
  {
  }

  lemma NoMore(a: Weights)
    ensures a + multiset{} == a
  {
  }

  lemma PersistentAt(k: nat, slots: seq<Slot>, rows: seq<Row>, ts: nat)
    requires Persistent(k, slots, rows)
    ensures Heads(slots, ts) == Best(k, UpTo(rows, ts))
  {
  }

  lemma BestSize(k: nat, ws: Weights)
    ensures |Best(k, ws)| == if |ws| <= k then |ws| else k
  {
  }

  lemma KeepIs(k: nat, r: Weights, w: real)
    requires 0 < k && |r| <= k
    ensures |r| < k ==> Keep(k, r, w) == r + multiset{w}
    ensures |r| == k && Least(r) <= w ==> Keep(k, r, w) == r - multiset{Least(r)} + multiset{w}
  {
  }

  lemma KeepsAll(k: nat, r: Weights, w: real)
    requires 0 < k == |r| && w <= Least(r)
    ensures Keep(k, r, w) == r
  {
    if w == Least(r) { assert r - multiset{w} + multiset{w} == r; }
  }
}
