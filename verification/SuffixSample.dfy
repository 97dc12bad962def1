/**
 The batched suffix sample (sampling.cpp): a list of items, newest first, from which items
 are pruned in batches once heavier newer ones have made them useless.
 */
module SuffixSample {
  import opened MinHeap
  import opened TopWeights

  class Item {
    const ts: nat
    const value: nat
    const weight: real
    var next: Item?

    constructor (ts: nat, value: nat, weight: real, next: Item?)
      ensures this.ts == ts && this.value == value && this.weight == weight && this.next == next
    {
      this.ts, this.value, this.weight, this.next := ts, value, weight, next;
    }
  }

  // ----- what is asked

  /** The weights of the items newer than ts. */
  ghost function Newer(items: seq<Item>, ts: nat): Weights {
    if items == [] then multiset{} else
      Newer(items[..|items| - 1], ts) + if items[|items| - 1].ts > ts then multiset{items[|items| - 1].weight}
        else multiset{}
  }

  ghost function All(items: seq<Item>): Weights {
    if items == [] then multiset{} else All(items[..|items| - 1]) + multiset{items[|items| - 1].weight}
  }

  /** Newest first. */
  ghost predicate Falling(items: seq<Item>) {
    forall i, j :: 0 <= i < j < |items| ==> items[i].ts >= items[j].ts
  }

  /** The pruned list answers every query as the whole history would. */
  ghost predicate Agrees(k: nat, kept: seq<Item>, history: seq<Item>) {
    forall ts: nat :: Best(k, Newer(kept, ts)) == Best(k, Newer(history, ts))
  }

  lemma {:induction false} NewerJoin(a: seq<Item>, b: seq<Item>, ts: nat)
    ensures Newer(a + b, ts) == Newer(a, ts) + Newer(b, ts)
    decreases |b|
  {
    if b == [] {
      assert a + b == a;
    } else {
      var n := |b| - 1;
      assert (a + b)[..|a + b| - 1] == a + b[..n];
      NewerJoin(a, b[..n], ts);
    }
  }

  lemma NewerOne(x: Item, ts: nat)
    ensures Newer([x], ts) == if x.ts > ts then multiset{x.weight} else multiset{}
  {
    assert [x][..0] == [];
    assert Newer([x][..0], ts) == multiset{};
  }

  lemma {:induction false} NewerAll(items: seq<Item>, ts: nat)
    requires forall x <- items :: x.ts > ts
    ensures Newer(items, ts) == All(items)
  {
    if items != [] {
      var n := |items| - 1;
      forall x <- items[..n] ensures x in items {}
      NewerAll(items[..n], ts);
      assert items[n] in items;
    }
  }

  /** A new item at the head. */
  lemma HeadAgrees(k: nat, kept: seq<Item>, history: seq<Item>, x: Item)
    requires 0 < k && Agrees(k, kept, history)
    ensures Agrees(k, [x] + kept, [x] + history)
  {
    hide Best, Newer;
    forall ts: nat ensures Best(k, Newer([x] + kept, ts)) == Best(k, Newer([x] + history, ts)) {
      NewerJoin([x], kept, ts);
      NewerJoin([x], history, ts);
      NewerOne(x, ts);
      assert Best(k, Newer(kept, ts)) == Best(k, Newer(history, ts));
      var one := if x.ts > ts then multiset{x.weight} else multiset{};
      OneMore(k, Newer(kept, ts), Newer(history, ts), one, x.weight);
    }
  }

  lemma OneMore(k: nat, a: Weights, b: Weights, one: Weights, w: real)
    requires 0 < k && Best(k, a) == Best(k, b) && (one == multiset{} || one == multiset{w})
    ensures Best(k, one + a) == Best(k, one + b)
  {
    hide Best;
    if one == multiset{} {
      assert one + a == a && one + b == b;
    } else {
      assert one + a == a + multiset{w} && one + b == b + multiset{w};
      BestKeep(k, a, w);
      BestKeep(k, b, w);
    }
  }

  /** Pruning an item that k newer ones outweigh. */
  lemma DropAgrees(k: nat, a: seq<Item>, x: Item, b: seq<Item>, history: seq<Item>)
    requires 0 < k && Falling(a + [x] + b) && Agrees(k, a + [x] + b, history)
    requires k <= |All(a)| && x.weight < Least(Best(k, All(a)))
    ensures Agrees(k, a + b, history)
  {
    hide Best, Newer, All, Falling;
    forall ts: nat ensures Best(k, Newer(a + b, ts)) == Best(k, Newer(history, ts)) {
      assert Best(k, Newer(a + [x] + b, ts)) == Best(k, Newer(history, ts));
      NewerJoin(a + [x], b, ts);
      NewerJoin(a, [x], ts);
      NewerJoin(a, b, ts);
      NewerOne(x, ts);
      if x.ts > ts {
        AheadIsNewer(a, x, b, ts);
        NewerAll(a, ts);
        DropIsSafe(k, All(a), x.weight, Newer(b, ts));
      } else {
        assert Newer(a, ts) + multiset{} == Newer(a, ts);
      }
    }
  }

  lemma AheadIsNewer(a: seq<Item>, x: Item, b: seq<Item>, ts: nat)
    requires Falling(a + [x] + b) && x.ts > ts
    ensures forall y <- a :: y.ts > ts
  {
    var s := a + [x] + b;
    assert s[|a|] == x;
    forall i | 0 <= i < |a| ensures a[i].ts > ts { assert s[i].ts >= s[|a|].ts; }
  }

  // ----- the reservoir of a pruning pass or a query

  function Weight(x: Item): real {
    x.weight
  }

  lemma {:induction false} AllJoin(a: seq<Item>, b: seq<Item>)
    ensures All(a + b) == All(a) + All(b)
    decreases |b|
  {
    if b == [] {
      assert a + b == a;
    } else {
      var n := |b| - 1;
      assert (a + b)[..|a + b| - 1] == a + b[..n];
      AllJoin(a, b[..n]);
    }
  }

  lemma AllOne(x: Item)
    ensures All([x]) == multiset{x.weight}
  {
    assert [x][..0] == [];
    assert All([x][..0]) == multiset{};
  }

  lemma {:induction false} AllSize(a: seq<Item>)
    ensures |All(a)| == |a|
  {
    if a != [] { AllSize(a[..|a| - 1]); }
  }

  /** Item j split off. */
  lemma AllSplit(b: seq<Item>, j: nat)
    requires j < |b|
    ensures All(b) == All(b[..j] + b[j + 1..]) + multiset{b[j].weight}
  {
    hide All;
    assert b == b[..j] + [b[j]] + b[j + 1..];
    AllJoin(b[..j] + [b[j]], b[j + 1..]);
    AllJoin(b[..j], [b[j]]);
    AllJoin(b[..j], b[j + 1..]);
    AllOne(b[j]);
  }

  lemma {:induction false} AllPermuted(a: seq<Item>, b: seq<Item>)
    requires multiset(a) == multiset(b)
    ensures All(a) == All(b)
    decreases |a|
  {
    assert |a| == |multiset(a)| == |multiset(b)| == |b|;
    if a != [] {
      var n := |a| - 1;
      assert a == a[..n] + [a[n]];
      assert a[n] in multiset(b);
      var j :| 0 <= j < |b| && b[j] == a[n];
      assert b == b[..j] + [b[j]] + b[j + 1..];
      assert multiset(b[..j] + b[j + 1..]) == multiset(b) - multiset{b[j]};
      AllPermuted(a[..n], b[..j] + b[j + 1..]);
      AllSplit(b, j);
    }
  }

  lemma AllIn(a: seq<Item>, i: nat)
    requires i < |a|
    ensures a[i].weight in All(a)
  {
    AllSplit(a, i);
  }

  lemma {:induction false} AllFrom(a: seq<Item>, w: real)
    requires w in All(a)
    ensures exists i :: 0 <= i < |a| && a[i].weight == w
    decreases |a|
  {
    var n := |a| - 1;
    if a[n].weight != w {
      AllFrom(a[..n], w);
      var i :| 0 <= i < n && a[..n][i].weight == w;
      assert a[i].weight == w;
    }
  }

  /** The heap holds the k best of the weights ws. */
  ghost predicate Holds(h: seq<Item>, k: nat, ws: Weights) {
    |h| == k && Ordered(Weight, h, k) && All(h) == Best(k, ws) && k <= |ws|
  }

  lemma HoldsLeast(h: seq<Item>, k: nat, ws: Weights)
    requires 0 < k && Holds(h, k, ws)
    ensures h[0].weight == Least(Best(k, ws))
  {
    hide Ordered, Best;
    AllIn(h, 0);
    forall y | y in All(h) ensures h[0].weight <= y {
      AllFrom(h, y);
      var i :| 0 <= i < k && h[i].weight == y;
      TopIsLeast(Weight, h, k, i);
    }
    LeastIs(All(h), h[0].weight);
  }

  lemma TopIsReady(h: seq<Item>, k: nat, x: Item)
    requires 0 < k == |h| && Ordered(Weight, h, k)
    ensures Ready(Weight, h[0 := x], k, 0, 0)
  {
    forall j | 0 < j < k && Up(j) != 0 ensures Below(Weight, h[0 := x], j) { assert Below(Weight, h, j); }
  }

  /** Replace the least item of the reservoir. */
  method Replace(heap: array<Item>, k: nat, x: Item, ghost ws: Weights)
    requires 0 < k == heap.Length && Holds(heap[..], k, ws) && heap[0].weight <= x.weight
    modifies heap
    ensures Holds(heap[..], k, ws + multiset{x.weight})
    ensures forall y <- heap[..] :: y == x || y in old(heap[..])
    ensures x !in old(heap[..]) && Once(multiset(old(heap[..]))) ==> Once(multiset(heap[..]))
  {
    hide *;
    ghost var h := heap[..];
    HoldsParts(h, k, ws);
    HoldsLeast(h, k, ws);
    TopIsReady(h, k, x);
    heap[0] := x;
    ghost var h' := heap[..];
    assert h' == h[0 := x];
    AllReplaced(h, x);
    PushDown(heap, 0, k, Weight, 0);
    AllPermuted(heap[..], h');
    Members(heap[..], h');
    OnceReplaced(h, x);
    BestKeep(k, ws, x.weight);
    KeepReplaces(k, Best(k, ws), x.weight);
    HoldsIs(heap[..], k, ws + multiset{x.weight});
  }

  /** No item twice. */
  ghost predicate Once(items: multiset<Item>) {
    forall x <- items :: items[x] == 1
  }

  lemma OnceReplaced(h: seq<Item>, x: Item)
    requires 0 < |h|
    ensures x !in h && Once(multiset(h)) ==> Once(multiset(h[0 := x]))
  {
    assert h == [h[0]] + h[1..] && h[0 := x] == [x] + h[1..];
    assert multiset(h[0 := x]) == multiset{x} + multiset(h[1..]);
    assert multiset(h) == multiset{h[0]} + multiset(h[1..]);
    if x !in h { assert x !in h[1..] && multiset(h[1..])[x] == 0; }
  }

  lemma Members(a: seq<Item>, b: seq<Item>)
    requires multiset(a) == multiset(b)
    ensures forall x <- a :: x in b
  {
    forall x <- a ensures x in b { assert x in multiset(b); }
  }

  lemma HoldsParts(h: seq<Item>, k: nat, ws: Weights)
    requires Holds(h, k, ws)
    ensures |h| == k && Ordered(Weight, h, k) && All(h) == Best(k, ws) && k <= |ws| && |Best(k, ws)| == k
  {
  }

  lemma HoldsIs(h: seq<Item>, k: nat, ws: Weights)
    requires |h| == k && OrderedFrom(Weight, h, k, 0) && All(h) == Best(k, ws) && k <= |ws|
    ensures Holds(h, k, ws)
  {
    hide OrderedFrom, Best;
    OrderedIs(Weight, h, k);
  }

  lemma AllReplaced(h: seq<Item>, x: Item)
    requires 0 < |h|
    ensures All(h[0 := x]) == All(h) - multiset{h[0].weight} + multiset{x.weight}
  {
    hide All;
    AllSplit(h, 0);
    AllSplit(h[0 := x], 0);
    assert h[0 := x][..0] + h[0 := x][1..] == h[..0] + h[1..];
  }

  lemma KeepReplaces(k: nat, r: Weights, w: real)
    requires 0 < k == |r| && Least(r) <= w
    ensures Keep(k, r, w) == r - multiset{Least(r)} + multiset{w}
  {
  }

  /** Make a reservoir of the first k items. */
  method Gather(first: seq<Item>) returns (heap: array<Item>)
    ensures fresh(heap) && heap.Length == |first| && Holds(heap[..], |first|, All(first))
    ensures (forall x <- heap[..] :: x in first) && multiset(heap[..]) == multiset(first)
  {
    var k := |first|;
    heap := new Item[k](i requires 0 <= i < k => first[i]);
    assert heap[..] == first;
    Make(heap, k, Weight);
    AllPermuted(heap[..], first);
    AllSize(first);
    Members(heap[..], first);
  }

  // ----- what a pruning pass leaves

  /** Behind these items x may still be sampled: fewer than k of them, or less than k of them, outweigh it. */
  ghost predicate Needed(k: nat, ahead: Weights, x: Item)
    requires 0 < k
  {
    |ahead| < k || Least(Best(k, ahead)) <= x.weight
  }

  /** The items that are needed behind those newer than they are. */
  ghost function Survivors(k: nat, items: seq<Item>): (r: seq<Item>)
    requires 0 < k
    ensures |r| <= |items|
  {
    if items == [] then []
    else
      var n := |items| - 1;
      Survivors(k, items[..n]) + if Needed(k, All(items[..n]), items[n]) then [items[n]] else []
  }

  /** The items dropped are not missed. */
  lemma {:induction false} SurvivorsBest(k: nat, items: seq<Item>)
    requires 0 < k
    ensures Best(k, All(Survivors(k, items))) == Best(k, All(items))
    ensures |All(Survivors(k, items))| < k <==> |All(items)| < k
  {
    hide Best, All, Needed;
    if items != [] {
      var n := |items| - 1;
      var x, s := items[n], Survivors(k, items[..n]);
      SurvivorsBest(k, items[..n]);
      AllLast(items[..n], x);
      AllLast(s, x);
      assert items[..n] + [x] == items;
      SurvivesOne(k, All(s), All(items[..n]), x);
      if !Needed(k, All(items[..n]), x) { assert s + [] == s; }
    }
  }

  lemma AllLast(items: seq<Item>, x: Item)
    ensures All(items + [x]) == All(items) + multiset{x.weight}
  {
    assert (items + [x])[..|items|] == items;
  }

  lemma SurvivesOne(k: nat, a: Weights, b: Weights, x: Item)
    requires 0 < k && Best(k, a) == Best(k, b) && (|a| < k <==> |b| < k)
    ensures Best(k, a + multiset{x.weight}) == Best(k, b + multiset{x.weight})
    ensures |a + multiset{x.weight}| < k <==> |b + multiset{x.weight}| < k
    ensures !Needed(k, b, x) ==> Best(k, b + multiset{x.weight}) == Best(k, b) && k <= |b|
  {
    hide Best;
    BestKeep(k, a, x.weight);
    BestKeep(k, b, x.weight);
    BestSizes(k, a);
    BestSizes(k, b);
    if !Needed(k, b, x) { KeepSkips(k, Best(k, b), x.weight); }
  }

  lemma BestSizes(k: nat, ws: Weights)
    ensures |Best(k, ws)| == if |ws| <= k then |ws| else k
  {
  }

  /** The first k all stay. */
  lemma {:induction false} FirstSurvive(k: nat, items: seq<Item>)
    requires 0 < k && |items| <= k
    ensures Survivors(k, items) == items
  {
    if items != [] {
      var n := |items| - 1;
      FirstSurvive(k, items[..n]);
      AllSize(items[..n]);
      assert items[..n] + [items[n]] == items;
    }
  }

  lemma KeepSkips(k: nat, r: Weights, w: real)
    requires 0 < k <= |r| && w < Least(r)
    ensures Keep(k, r, w) == r
  {
  }

  /** A second pass drops nothing. */
  lemma {:induction false} SurvivorsStay(k: nat, items: seq<Item>)
    requires 0 < k
    ensures Survivors(k, Survivors(k, items)) == Survivors(k, items)
  {
    hide Best, All;
    if items != [] {
      var n := |items| - 1;
      var s := Survivors(k, items[..n]);
      SurvivorsStay(k, items[..n]);
      SurvivorsBest(k, items[..n]);
      if Needed(k, All(items[..n]), items[n]) {
        assert (s + [items[n]])[..|s|] == s;
      } else {
        assert s + [] == s;
      }
    }
  }

  /** So what is left behind the first k is heavy enough for the sample from it on. */
  lemma SurvivorsAreNeeded(k: nat, items: seq<Item>, p: nat)
    requires 0 < k && p < |Survivors(k, items)|
    ensures Needed(k, All(Survivors(k, items)[..p]), Survivors(k, items)[p])
  {
    hide Survivors, Needed;
    SurvivorsStay(k, items);
    PrefixNeeded(k, Survivors(k, items), p);
  }

  lemma {:induction false} PrefixNeeded(k: nat, items: seq<Item>, p: nat)
    requires 0 < k && Survivors(k, items) == items && p < |items|
    ensures Needed(k, All(items[..p]), items[p])
  {
    hide Needed;
    var n := |items| - 1;
    assert items == items[..n] + [items[n]];
    if p < n {
      PrefixNeeded(k, items[..n], p);
      assert items[..n][..p] == items[..p];
    }
  }

  // ----- the list

  ghost function After(items: seq<Item>, i: nat): Item? {
    if i + 1 < |items| then items[i + 1] else null
  }

  ghost predicate Chained(items: seq<Item>, head: Item?)
    reads items`next
  {
    && head == (if items == [] then null else items[0])
    && (forall i :: 0 <= i < |items| ==> items[i].next == After(items, i))
    && (forall i, j :: 0 <= i < j < |items| ==> items[i] != items[j])
  }

  /** Splice item p out through its predecessor. */
  method Unlink(prev: Item, x: Item, ghost items: seq<Item>, ghost head: Item?, ghost p: nat)
    requires Chained(items, head) && 0 < p < |items| && prev == items[p - 1] && x == items[p]
    modifies prev`next
    ensures Chained(items[..p] + items[p + 1..], head)
    ensures prev.next == x.next == if p + 1 < |items| then items[p + 1] else null
  {
    assert items[p].next == After(items, p) && items[p - 1] != items[p];
    prev.next := x.next;
    forall i | 0 <= i < |items| && i != p - 1 ensures items[i].next == After(items, i) {
      assert items[i] != prev by { assert if i < p - 1 then items[i] != items[p - 1] else items[p - 1] != items[i]; }
      assert old(items[i].next) == After(items, i);
    }
    SplicedIsChained(items, head, p);
  }

  /** The links of a list whose item before p points behind p already. */
  lemma SplicedIsChained(items: seq<Item>, head: Item?, p: nat)
    requires 0 < p < |items| && head == items[0] && items[p - 1].next == After(items, p)
    requires forall i :: 0 <= i < |items| && i != p - 1 ==> items[i].next == After(items, i)
    requires forall i, j :: 0 <= i < j < |items| ==> items[i] != items[j]
    ensures Chained(items[..p] + items[p + 1..], head)
  {
    var rest := items[..p] + items[p + 1..];
    assert forall i :: 0 <= i < |rest| ==> rest[i] == items[if i < p then i else i + 1];
  }

  lemma SpliceFalls(items: seq<Item>, p: nat)
    requires Falling(items) && p < |items|
    ensures Falling(items[..p] + items[p + 1..])
  {
    var rest := items[..p] + items[p + 1..];
    assert forall i :: 0 <= i < |rest| ==> rest[i] == if i < p then items[i] else items[i + 1];
  }

  lemma SpliceAgrees(k: nat, items: seq<Item>, p: nat, history: seq<Item>)
    requires 0 < k && p < |items| && Falling(items) && Agrees(k, items, history)
    requires k <= |All(items[..p])| && items[p].weight < Least(Best(k, All(items[..p])))
    ensures Agrees(k, items[..p] + items[p + 1..], history)
  {
    hide Falling, Agrees, All, Best;
    assert items == items[..p] + [items[p]] + items[p + 1..];
    DropAgrees(k, items[..p], items[p], items[p + 1..], history);
  }

  /** The arguments of one update, with the weights drawn for it. */
  datatype Drawn = Drawn(ts: nat, value: nat, weights: seq<real>)

  /** What is stored, when it is to be pruned, and how many items have been drawn. */
  datatype Store = Store(items: seq<Item>, target: nat, seen: nat) {

    /** The store after one more item: pruned when it meets its target, which moves on. */
    ghost function Add(k: nat, lnCeil: nat -> nat, x: Item): Store
      requires 0 < k
    {
      var pushed := [x] + items;
      if |pushed| != target then Store(pushed, target, seen + 1)
      else
        var kept, next := Survivors(k, pushed), 2 * k * lnCeil(seen + 2);
        Store(kept, if next < 2 * |kept| then 2 * |kept| else next, seen + 1)
    }

    /** The store after all of the items, the last of them first. */
    ghost function AddAll(k: nat, lnCeil: nat -> nat, xs: seq<Item>): Store
      requires 0 < k
    {
      if xs == [] then this else AddAll(k, lnCeil, xs[1..]).Add(k, lnCeil, xs[0])
    }
  }

  class SamplingSketchBITP {
    const k: nat
    /** The ceiling of the natural logarithm. */
    const lnCeil: nat -> nat
    var head: Item?
    var alloced: nat
    var target: nat
    var seen: nat
    ghost var items: seq<Item>
    ghost var history: seq<Item>

    ghost predicate Listed()
      reads `head, `alloced, `items, `history, items`next
    {
      && 0 < k && Chained(items, head) && alloced == |items|
      && Falling(items) && Agrees(k, items, history)
    }

    ghost function State(): Store
      reads `items, `target, `seen
    {
      Store(items, target, seen)
    }

    /** The list stays below the moving target at which it is pruned. */
    ghost predicate Bounded()
      reads `alloced, `target
    {
      alloced < target && 2 * k <= target
    }

    /** A target of 0 is never met again: then nothing is ever dropped. */
    ghost predicate Valid()
      reads this, items`next
    {
      && Listed() && seen == |history| && (forall x <- items :: x in history) && Falling(history)
      && (Bounded() || (target == 0 && items == history))
    }

    constructor (k: nat, lnCeil: nat -> nat)
      requires 0 < k && forall n :: 2 <= n ==> 0 < lnCeil(n)
      ensures Valid() && history == [] && Bounded() && this.k == k && this.lnCeil == lnCeil
    {
      this.k, this.lnCeil := k, lnCeil;
      head, alloced, target, seen := null, 0, 2 * k * lnCeil(k + 1), 0;
      items, history := [], [];
      new;
      AtLeastOnce(2 * k, lnCeil(k + 1));
    }

    lemma AtLeastOnce(a: nat, b: nat)
      requires 0 < b
      ensures a * b >= a
    {
    }

    lemma NoneAtAll(a: nat, b: nat)
      requires b == 0
      ensures a * b == 0
    {
    }

    /** `clear`: its target counts the logarithm of the sample size itself. */
    method Clear()
      requires 0 < k
      modifies this
      ensures Valid() && history == [] && items == []
      ensures Bounded() <==> 0 < lnCeil(k)
    {
      head, alloced, target, seen := null, 0, 2 * k * lnCeil(k), 0;
      items, history := [], [];
      if 0 < lnCeil(k) { AtLeastOnce(2 * k, lnCeil(k)); } else { NoneAtAll(2 * k, lnCeil(k)); }
    }

    lemma NextIs(p: nat)
      requires Listed() && p < |items|
      ensures items[p].next == if p + 1 < |items| then items[p + 1] else null
    {
      hide Falling, Agrees;
    }

    lemma ListedParts()
      requires Listed()
      ensures Falling(items) && Agrees(k, items, history)
    {
    }

    lemma LinkedParts()
      requires Listed()
      ensures Chained(items, head)
    {
    }

    lemma HeadIs()
      requires Listed()
      ensures head == (if items == [] then null else items[0]) && alloced == |items| && 0 < k
    {
      hide Falling, Agrees;
    }

    /** The first k items: they stay. */
    method FirstItems() returns (first: seq<Item>, prev: Item, item: Item?)
      requires Listed() && k <= |items|
      ensures first == items[..k] && 0 < k && prev == items[k - 1] && item == if k < |items| then items[k] else null
    {
      hide *;
      HeadIs();
      first, item := [], head;
      prev := item;
      while |first| < k
        invariant |first| <= k && first == items[..|first|]
        invariant item == if |first| < |items| then items[|first|] else null
        invariant 0 < |first| ==> prev == items[|first| - 1]
      {
        NextIs(|first|);
        first := first + [item];
        prev := item;
        item := item.next;
      }
    }

    /** The pruning pass over a full list. */
    method Prune()
      requires Listed() && k <= |items|
      modifies `alloced, `items, items`next
      ensures Listed() && k <= |items| <= |old(items)|
      ensures forall x <- items :: x in old(items)
      ensures items == Survivors(k, old(items))
    {
      hide *;
      var first, prev, item := FirstItems();
      var heap := Gather(first);
      ghost var p, q := k, k;
      ghost var was := items;
      HeadIs();
      SiftStarts(k, was);
      while item != null
        invariant k <= p <= |items| <= |old(items)| && (forall x <- items :: x in old(items))
        invariant Sifted(k, was, items, p, q)
        invariant item == (if p < |items| then items[p] else null) && prev == items[p - 1]
        invariant Listed() && heap.Length == k && fresh(heap) && Holds(heap[..], k, All(items[..p]))
        decreases |items| - p
      {
        HoldsLeast(heap[..], k, All(items[..p]));
        NextIs(p);
        Sift(k, was, items, p, q);
        q := q + 1;
        if item.weight < heap[0].weight {
          assert prev in items;
          item := Drop(prev, item, p);
        } else {
          AllGrown(items, p);
          Replace(heap, k, item, All(items[..p]));
          prev := item;
          item := item.next;
          p := p + 1;
        }
      }
      AllSifted(k, was, items, p, q);
    }

    method Drop(prev: Item, x: Item, ghost p: nat) returns (next: Item?)
      requires Listed() && k <= p < |items| && prev == items[p - 1] && x == items[p]
      requires x.weight < Least(Best(k, All(items[..p])))
      modifies `alloced, `items, prev`next
      ensures Listed() && items == old(items[..p] + items[p + 1..])
      ensures next == if p < |items| then items[p] else null
    {
      hide Falling, Agrees, All, Best, Chained;
      AllSize(items[..p]);
      SpliceFalls(items, p);
      SpliceAgrees(k, items, p, history);
      Unlink(prev, x, items, head, p);
      next := x.next;
      alloced := alloced - 1;
      items := items[..p] + items[p + 1..];
    }

    lemma ValidParts()
      requires Valid()
      ensures Listed() && seen == |history| && 0 < k && alloced == |items|
      ensures Bounded() || (target == 0 && items == history)
      ensures Bounded() <==> alloced < target && 2 * k <= target
      ensures (forall x <- items :: x in history) && Falling(history) && allocated(items)
    {
      hide Chained, Falling, Agrees;
    }

    /** Put an item of the given weight, drawn by the caller, at the head of the list. */
    method Push(ts: nat, value: nat, weight: real) returns (item: Item)
      requires Listed() && Falling(history) && (forall x <- items :: x in history)
      requires history != [] ==> history[0].ts <= ts
      modifies `head, `alloced, `seen, `items, `history
      ensures Listed() && items == [item] + old(items) && history == [item] + old(history)
      ensures item.ts == ts && item.value == value && item.weight == weight && fresh(item)
      ensures Falling(history) && seen == old(seen) + 1
    {
      hide Agrees;
      item := new Item(ts, value, weight, head);
      HeadAgrees(k, items, history, item);
      FallsFrom(item, items, history);
      head := item;
      seen := seen + 1;
      alloced := alloced + 1;
      items := [item] + items;
      history := [item] + history;
      ChainedMore(item, items[1..]);
      assert items[1..] == old(items);
    }

    /** One pass of `update_batched`'s loop, which asserts that the list does not exceed its target. */
    method UpdateOne(ts: nat, value: nat, weight: real) returns (asserted: bool)
      requires Valid() && (history != [] ==> history[0].ts <= ts)
      modifies this, items`next
      ensures Valid() && |history| == |old(history)| + 1 && history[1..] == old(history)
      ensures history[0].ts == ts && history[0].value == value && history[0].weight == weight
      ensures forall i :: 0 <= i < |items| ==> items[i] in old(items) || fresh(items[i])
      ensures asserted <==> old(Bounded())
      ensures Bounded() <==> old(Bounded())
      ensures 0 < k && State() == old(State()).Add(k, lnCeil, history[0])
    {
      hide *;
      ValidParts();
      var item := Push(ts, value, weight);
      ghost var pushed := items;
      HeadIs();
      asserted := alloced <= target;
      if alloced == target {
        Prune();
        HeadIs();
        target := 2 * k * lnCeil(seen + 1);
        if target < 2 * alloced {
          target := 2 * alloced;
        }
      }
      ValidIs();
      AddIs(k, lnCeil, old(items), old(target), old(seen), item, items, target);
      StateIs();
      forall i | 0 <= i < |items| ensures items[i] in old(items) || fresh(items[i]) { assert items[i] in pushed; }
    }

    twostate lemma StateIs()
      ensures State() == Store(items, target, seen)
      ensures old(State()) == Store(old(items), old(target), old(seen))
    {
    }

    lemma ValidIs()
      requires Listed() && seen == |history| && (forall x <- items :: x in history) && Falling(history)
      requires (alloced < target && 2 * k <= target) || (target == 0 && items == history)
      ensures Valid() && (Bounded() <==> alloced < target && 2 * k <= target)
    {
      hide Chained, Falling, Agrees, Listed;
    }

    /** `update_batched` for c = |weights| equal items with independently drawn weights. */
    method UpdateBatched(ts: nat, value: nat, weights: seq<real>)
      requires Valid() && 0 < |weights| && (history != [] ==> history[0].ts <= ts)
      modifies this, items`next
      ensures Valid() && Stacked(old(history), history, ts, value, weights)
      ensures forall i :: 0 <= i < |items| ==> items[i] in old(items) || fresh(items[i])
      ensures Bounded() <==> old(Bounded())
      ensures 0 < k && |weights| <= |history|
      ensures State() == old(State()).AddAll(k, lnCeil, history[..|weights|])
    {
      hide *;
      var n := 0;
      ValidParts();
      StackedNone(history, ts, value);
      AddNone(k, lnCeil, State(), history);
      while n < |weights|
        invariant 0 <= n <= |weights| && Valid() && (Bounded() <==> old(Bounded()))
            && (history != [] ==> history[0].ts <= ts)
        invariant Stacked(old(history), history, ts, value, weights[..n]) && n <= |history|
        invariant State() == old(State()).AddAll(k, lnCeil, history[..n])
        invariant forall i :: 0 <= i < |items| ==> items[i] in old(items) || fresh(items[i])
      {
        ghost var before := history;
        var _ := UpdateOne(ts, value, weights[n]);
        StackedMore(old(history), before, history, ts, value, weights, n);
        AddMore(k, lnCeil, old(State()), before, history, n);
        n := n + 1;
      }
      assert weights[..n] == weights;
    }

    /**
     After a clear and any updates the list stays below its target exactly if the logarithm of the sample
     size is positive; if not, all items ever drawn are stored.
     */
    method ClearThenUpdate(batches: seq<Drawn>)
      requires 0 < k && forall i :: 0 <= i < |batches| ==> 0 < |batches[i].weights|
      requires forall i, j :: 0 <= i < j < |batches| ==> batches[i].ts <= batches[j].ts
      modifies this
      ensures Valid() && (Bounded() <==> 0 < lnCeil(k))
      ensures lnCeil(k) == 0 ==> alloced == seen == |history|
    {
      hide *;
      Clear();
      var n := 0;
      while n < |batches|
        invariant 0 <= n <= |batches| && Valid() && (Bounded() <==> 0 < lnCeil(k))
        invariant history != [] ==> 0 < n && history[0].ts == batches[n - 1].ts
        invariant forall i :: 0 <= i < |items| ==> fresh(items[i])
      {
        var b := batches[n];
        ghost var before := history;
        UpdateBatched(b.ts, b.value, b.weights);
        StackedHead(before, history, b.ts, b.value, b.weights);
        n := n + 1;
      }
      ValidParts();
    }

    /** The sampling part of `estimate_heavy_hitters_bitp_batched`. */
    method Samples(ts: nat) returns (samples: seq<Item>)
      requires Valid()
      ensures All(samples) == Best(k, Newer(history, ts))
      ensures forall x <- samples :: x in history && x.ts > ts
      ensures Once(multiset(samples))
    {
      hide *;
      ValidParts();
      samples := [];
      var item := head;
      HeadIs();
      LinkedParts();
      ghost var p := 0;
      while item != null && item.ts > ts && |samples| < k
        invariant p <= |items| && p == |samples| <= k && samples == items[..p]
        invariant item == if p < |items| then items[p] else null
        invariant forall x <- items[..p] :: x.ts > ts
        decreases k - |samples|
      {
        NextIs(p);
        assert items[..p + 1] == items[..p] + [items[p]];
        samples := samples + [item];
        item := item.next;
        p := p + 1;
      }
      if item != null && item.ts > ts {
        OnceEach(items, head, p);
        var heap := Gather(samples);
        while item != null && item.ts > ts
          invariant k <= p <= |items| && item == if p < |items| then items[p] else null
          invariant heap.Length == k && fresh(heap) && Holds(heap[..], k, All(items[..p]))
          invariant forall x <- items[..p] :: x.ts > ts
          invariant forall x <- heap[..] :: x in items[..p]
          invariant Once(multiset(heap[..]))
          decreases |items| - p
        {
          NextIs(p);
          AllGrown(items, p);
          assert items[..p + 1] == items[..p] + [items[p]];
          HoldsLeast(heap[..], k, All(items[..p]));
          NotBefore(items, head, p);
          if item.weight >= heap[0].weight {
            Replace(heap, k, item, All(items[..p]));
          } else {
            SkipHolds(heap[..], k, All(items[..p]), item.weight);
          }
          item := item.next;
          p := p + 1;
        }
        samples := heap[..];
        HoldsParts(samples, k, All(items[..p]));
      } else {
        SmallIsBest(k, items[..p]);
        OnceEach(items, head, p);
      }
      ListedParts();
      SuffixIs(items, p, ts);
      assert Best(k, Newer(items, ts)) == Best(k, Newer(history, ts)) by { AgreesAt(k, items, history, ts); }
    }
  }

  /** The pass has come to item q of the list as it was, which is now item p. */
  ghost predicate Sifted(k: nat, was: seq<Item>, items: seq<Item>, p: nat, q: nat) {
    0 < k <= p <= |items| && k <= q <= |was| && items[..p] == Survivors(k, was[..q]) && items[p..] == was[q..]
  }

  lemma SiftStarts(k: nat, was: seq<Item>)
    requires 0 < k <= |was|
    ensures Sifted(k, was, was, k, k)
  {
    FirstSurvive(k, was[..k]);
  }

  lemma Sift(k: nat, was: seq<Item>, items: seq<Item>, p: nat, q: nat)
    requires Sifted(k, was, items, p, q) && p < |items|
    ensures |Best(k, All(items[..p]))| == k
    ensures if items[p].weight < Least(Best(k, All(items[..p]))) then
              Sifted(k, was, items[..p] + items[p + 1..], p, q + 1)
            else Sifted(k, was, items, p + 1, q + 1)
  {
    hide Best, All;
    assert items[p] == items[p..][0] == was[q..][0] == was[q];
    SurvivorsBest(k, was[..q]);
    AllSize(items[..p]);
    BestSizes(k, All(items[..p]));
    assert was[..q + 1][..q] == was[..q];
    assert items[p + 1..] == items[p..][1..] == was[q..][1..] == was[q + 1..];
    if items[p].weight < Least(Best(k, All(items[..p]))) {
      var rest := items[..p] + items[p + 1..];
      assert rest[..p] == items[..p] && rest[p..] == items[p + 1..];
      assert items[..p] + [] == items[..p];
    } else {
      assert items[..p + 1] == items[..p] + [items[p]];
    }
  }

  lemma AllSifted(k: nat, was: seq<Item>, items: seq<Item>, p: nat, q: nat)
    requires Sifted(k, was, items, p, q) && p == |items|
    ensures items == Survivors(k, was)
  {
    hide Survivors;
    assert |items[p..]| == |was[q..]|;
    assert was[..q] == was && items[..p] == items;
  }

  lemma AddIs(k: nat, lnCeil: nat -> nat, before: seq<Item>, target: nat, seen: nat, x: Item,
              items: seq<Item>, target': nat)
    requires 0 < k
    requires |before| + 1 != target ==> items == [x] + before && target' == target
    requires |before| + 1 == target ==> items == Survivors(k, [x] + before)
    requires |before| + 1 == target ==>
        var next := 2 * k * lnCeil(seen + 2);
        target' == if next < 2 * |items| then 2 * |items| else next
    ensures Store(before, target, seen).Add(k, lnCeil, x) == Store(items, target', seen + 1)
  {
    hide Survivors;
  }

  lemma AddNone(k: nat, lnCeil: nat -> nat, st: Store, history: seq<Item>)
    requires 0 < k
    ensures st.AddAll(k, lnCeil, history[..0]) == st
  {
  }

  lemma AddMore(k: nat, lnCeil: nat -> nat, st: Store, before: seq<Item>, history: seq<Item>, n: nat)
    requires 0 < k && history != [] && history[1..] == before && n <= |before|
    ensures st.AddAll(k, lnCeil, history[..n + 1]) == st.AddAll(k, lnCeil, before[..n]).Add(k, lnCeil, history[0])
  {
    hide Store.Add;
    assert history[..n + 1][1..] == before[..n];
  }

  lemma {:induction false} OnceEach(items: seq<Item>, head: Item?, p: nat)
    requires Chained(items, head) && p <= |items|
    ensures Once(multiset(items[..p]))
  {
    hide Chained;
    if 0 < p {
      OnceEach(items, head, p - 1);
      NotBefore(items, head, p - 1);
      assert items[..p] == items[..p - 1] + [items[p - 1]];
    }
  }

  lemma NotBefore(items: seq<Item>, head: Item?, p: nat)
    requires Chained(items, head) && p < |items|
    ensures items[p] !in items[..p]
  {
  }

  lemma AllGrown(items: seq<Item>, p: nat)
    requires p < |items|
    ensures All(items[..p + 1]) == All(items[..p]) + multiset{items[p].weight}
  {
    hide All;
    assert items[..p + 1] == items[..p] + [items[p]];
    AllJoin(items[..p], [items[p]]);
    AllOne(items[p]);
  }

  /** The history has grown by one item of the given kind for each weight. */
  ghost predicate Stacked(was: seq<Item>, now: seq<Item>, ts: nat, value: nat, weights: seq<real>)
    decreases |weights|
  {
    if weights == [] then now == was
    else
      var n := |weights| - 1;
      && now != [] && now[0].ts == ts && now[0].value == value && now[0].weight == weights[n]
      && Stacked(was, now[1..], ts, value, weights[..n])
  }

  lemma StackedNone(history: seq<Item>, ts: nat, value: nat)
    ensures forall ws: seq<real> | ws == [] :: Stacked(history, history, ts, value, ws)
  {
  }

  lemma StackedMore(was: seq<Item>, before: seq<Item>, now: seq<Item>, ts: nat, value: nat, weights: seq<real>, n: nat)
    requires n < |weights| && Stacked(was, before, ts, value, weights[..n])
    requires now != [] && now[1..] == before && now[0].ts == ts && now[0].value == value && now[0].weight == weights[n]
    ensures Stacked(was, now, ts, value, weights[..n + 1])
  {
    assert weights[..n + 1][..n] == weights[..n];
  }

  lemma StackedHead(was: seq<Item>, now: seq<Item>, ts: nat, value: nat, weights: seq<real>)
    requires weights != [] && Stacked(was, now, ts, value, weights)
    ensures now != [] && now[0].ts == ts
  {
  }

  lemma FallsFrom(x: Item, items: seq<Item>, history: seq<Item>)
    requires Falling(items) && Falling(history) && (forall y <- items :: y in history)
    requires history != [] ==> history[0].ts <= x.ts
    ensures Falling([x] + items) && Falling([x] + history) && forall y <- [x] + items :: y in [x] + history
  {
    forall y <- history ensures y.ts <= x.ts {
      var i :| 0 <= i < |history| && history[i] == y;
      if i > 0 { assert history[0].ts >= history[i].ts; }
    }
  }

  lemma ChainedMore(x: Item, items: seq<Item>)
    requires Chained(items, x.next) && x !in items
    ensures Chained([x] + items, x)
  {
    var all := [x] + items;
    assert forall i :: 0 < i < |all| ==> all[i] == items[i - 1];
    forall i | 0 <= i < |all| ensures all[i].next == After(all, i) {
      if i > 0 { assert items[i - 1].next == After(items, i - 1); }
    }
  }

  lemma SkipHolds(h: seq<Item>, k: nat, ws: Weights, w: real)
    requires 0 < k && Holds(h, k, ws) && w < Least(Best(k, ws))
    ensures Holds(h, k, ws + multiset{w})
  {
    hide Ordered, Best;
    BestKeep(k, ws, w);
  }

  lemma SmallIsBest(k: nat, a: seq<Item>)
    requires |a| <= k
    ensures Best(k, All(a)) == All(a)
  {
    AllSize(a);
  }

  lemma AgreesAt(k: nat, kept: seq<Item>, history: seq<Item>, ts: nat)
    requires Agrees(k, kept, history)
    ensures Best(k, Newer(kept, ts)) == Best(k, Newer(history, ts))
  {
  }

  /** The items newer than ts are a prefix of the list. */
  lemma SuffixIs(items: seq<Item>, p: nat, ts: nat)
    requires Falling(items) && p <= |items| && (forall x <- items[..p] :: x.ts > ts)
    requires p < |items| ==> items[p].ts <= ts
    ensures Newer(items, ts) == All(items[..p])
  {
    hide All, Newer;
    var a, b := items[..p], items[p..];
    assert items == a + b;
    NewerJoin(a, b, ts);
    NewerAll(a, ts);
    forall x <- b ensures x.ts <= ts {
      var i :| 0 <= i < |b| && b[i] == x;
      if i > 0 { assert items[p].ts >= items[p + i].ts; }
    }
    NoneNewer(b, ts);
  }

  lemma {:induction false} NoneNewer(items: seq<Item>, ts: nat)
    requires forall x <- items :: x.ts <= ts
    ensures Newer(items, ts) == multiset{}
  {
    if items != [] {
      var n := |items| - 1;
      assert items[n] in items;
      forall x <- items[..n] ensures x in items {}
      NoneNewer(items[..n], ts);
    }
  }

  /** A sample of one item, cleared: whatever is drawn afterwards is stored. */
  method UnprunedRun(lnCeil: nat -> nat, batches: seq<Drawn>) returns (s: SamplingSketchBITP)
    requires lnCeil(1) == 0 && forall n :: 2 <= n ==> 0 < lnCeil(n)
    requires forall i :: 0 <= i < |batches| ==> 0 < |batches[i].weights|
    requires forall i, j :: 0 <= i < j < |batches| ==> batches[i].ts <= batches[j].ts
    ensures s.Valid() && s.k == 1 && !s.Bounded() && s.alloced == |s.history|
  {
    s := new SamplingSketchBITP(1, lnCeil);
    s.ClearThenUpdate(batches);
  }
}
