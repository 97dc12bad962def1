/** The dyadic search of heavyhitters.cpp over one frequency sketch per level. */
module DyadicHitters {
  import opened Products
  import opened PiecewiseLinear

  datatype Item = Item(ts: nat, key: nat, cnt: int)

  /** The number of the dyadic interval of level i that the key falls into. */
  function Up(key: nat, i: nat): nat {
    if i == 0 then key else Up(key, i - 1) / 2
  }

  function Shifted(items: seq<Item>, i: nat): (r: seq<Item>)
    ensures |r| == |items|
  {
    if items == [] then []
    else var last := items[|items| - 1]; Shifted(items[..|items| - 1], i) + [Item(last.ts, Up(last.key, i), last.cnt)]
  }

  /** Which times a query is about. */
  type Span = nat -> bool

  function Until(t: nat): Span { (s: nat) => s <= t }

  function After(t: nat): Span { (s: nat) => t < s }

  /** The weight of the key in the span. */
  function Weight(items: seq<Item>, span: Span, key: nat): int {
    if items == [] then 0
    else
      var last := items[|items| - 1];
      Weight(items[..|items| - 1], span, key) + if span(last.ts) && last.key == key then last.cnt else 0
  }

  /** The number of updates in the span, whatever their weight. */
  function Arrived(items: seq<Item>, span: Span): nat {
    if items == [] then 0
    else Arrived(items[..|items| - 1], span) + if span(items[|items| - 1].ts) then 1 else 0
  }

  ghost predicate NoDeletions(items: seq<Item>) {
    forall item <- items :: 0 <= item.cnt
  }

  /** A dyadic interval weighs what its two halves weigh. */
  lemma {:induction false} HalvesAddUp(items: seq<Item>, i: nat, span: Span, x: nat)
    ensures Weight(Shifted(items, i + 1), span, x)
        == Weight(Shifted(items, i), span, 2 * x) + Weight(Shifted(items, i), span, 2 * x + 1)
  {
    if items != [] {
      var init := items[..|items| - 1];
      HalvesAddUp(init, i, span, x);
      HalfOf(Up(items[|items| - 1].key, i), x);
      ShiftedInit(items, i);
      ShiftedInit(items, i + 1);
    }
  }

  lemma HalfOf(y: nat, x: nat)
    ensures y / 2 == x <==> y == 2 * x || y == 2 * x + 1
  {
  }

  lemma ShiftedInit(items: seq<Item>, i: nat)
    requires items != []
    ensures var s, n := Shifted(items, i), |items| - 1;
            s[..n] == Shifted(items[..n], i) && s[n] == Item(items[n].ts, Up(items[n].key, i), items[n].cnt)
  {
  }

  lemma {:induction false} WeightIsPositive(items: seq<Item>, i: nat, span: Span, x: nat)
    requires NoDeletions(items)
    ensures 0 <= Weight(Shifted(items, i), span, x)
  {
    if items != [] {
      var init := items[..|items| - 1];
      assert forall item <- init :: item in items;
      assert items[|items| - 1] in items;
      WeightIsPositive(init, i, span, x);
      ShiftedInit(items, i);
    }
  }

  /** An ancestor weighs at least as much. */
  lemma {:induction false} AncestorsWeighMore(items: seq<Item>, i: nat, span: Span, x: nat)
    requires NoDeletions(items)
    ensures Weight(Shifted(items, 0), span, x) <= Weight(Shifted(items, i), span, Up(x, i))
  {
    if 0 < i {
      var y := Up(x, i - 1);
      AncestorsWeighMore(items, i - 1, span, x);
      HalvesAddUp(items, i - 1, span, y / 2);
      HalfOf(y, y / 2);
      WeightIsPositive(items, i - 1, span, 2 * (y / 2));
      WeightIsPositive(items, i - 1, span, 2 * (y / 2) + 1);
    }
  }

  lemma {:induction false} ShiftedByNone(items: seq<Item>)
    ensures Shifted(items, 0) == items
  {
    if items != [] {
      ShiftedByNone(items[..|items| - 1]);
      assert items == items[..|items| - 1] + [items[|items| - 1]];
    }
  }

  lemma {:induction false} UpOfHalf(key: nat, i: nat)
    ensures Up(key, i + 1) == Up(key / 2, i)
  {
    if 0 < i { UpOfHalf(key, i - 1); }
  }

  /** The keys of the universe are those below 2^i. */
  lemma {:induction false} UpZero(key: nat, i: nat)
    ensures Up(key, i) == 0 <==> key < Pow2(i)
  {
    if 0 < i {
      UpOfHalf(key, i - 1);
      UpZero(key / 2, i - 1);
    }
  }

  lemma {:induction false} UpMonotone(a: nat, b: nat, i: nat)
    requires a <= b
    ensures Up(a, i) <= Up(b, i)
  {
    if 0 < i { UpMonotone(a, b, i - 1); }
  }

  // ----- the search

  /** How the node (level, x) scores. */
  type Score = (nat, nat) -> nat

  /** All leaves below the node to which only nodes above the threshold lead, largest first. */
  function Search(score: Score, threshold: real, level: nat, x: nat): seq<nat> {
    if score(level, x) as real <= threshold then []
    else if level == 0 then [x]
    else Search(score, threshold, level - 1, 2 * x + 1) + Search(score, threshold, level - 1, 2 * x)
  }

  /** Every node on the way from the leaf up to level `level` is above the threshold. */
  ghost predicate Passing(score: Score, threshold: real, level: nat, key: nat) {
    forall i :: 0 <= i <= level ==> score(i, Up(key, i)) as real > threshold
  }

  /** The search finds exactly the leaves that pass. */
  lemma {:induction false} SearchFinds(score: Score, threshold: real, level: nat, x: nat, key: nat)
    ensures key in Search(score, threshold, level, x) <==> Up(key, level) == x && Passing(score, threshold, level, key)
  {
    if score(level, x) as real > threshold && 0 < level {
      SearchFinds(score, threshold, level - 1, 2 * x + 1, key);
      SearchFinds(score, threshold, level - 1, 2 * x, key);
      HalfOf(Up(key, level - 1), x);
    }
  }

  ghost predicate Descending(s: seq<nat>) {
    forall i, j :: 0 <= i < j < |s| ==> s[j] < s[i]
  }

  lemma {:induction false} SearchDescends(score: Score, threshold: real, level: nat, x: nat)
    ensures Descending(Search(score, threshold, level, x))
  {
    if score(level, x) as real > threshold && 0 < level {
      var a, b := Search(score, threshold, level - 1, 2 * x + 1), Search(score, threshold, level - 1, 2 * x);
      SearchDescends(score, threshold, level - 1, 2 * x + 1);
      SearchDescends(score, threshold, level - 1, 2 * x);
      forall p <- a, q <- b ensures q < p { Ranges(score, threshold, level - 1, 2 * x + 1, p, 2 * x, q); }
      DescendingParts(a, b);
    }
  }

  lemma Ranges(score: Score, threshold: real, level: nat, x: nat, p: nat, y: nat, q: nat)
    requires y < x && p in Search(score, threshold, level, x) && q in Search(score, threshold, level, y)
    ensures q < p
  {
    hide Search, Passing;
    SearchFinds(score, threshold, level, x, p);
    SearchFinds(score, threshold, level, y, q);
    if p <= q { UpMonotone(p, q, level); }
  }

  lemma DescendingParts(a: seq<nat>, b: seq<nat>)
    requires Descending(a) && Descending(b) && forall p <- a, q <- b :: q < p
    ensures Descending(a + b)
  {
    var s := a + b;
    forall i, j | 0 <= i < j < |s| ensures s[j] < s[i] {
      if i < |a| <= j { assert s[i] in a && s[j] in b; }
    }
  }

  datatype Node = Node(level: nat, x: nat)

  /** What the nodes on the stack still have to give, the top first. */
  function Pending(score: Score, threshold: real, stack: seq<Node>): seq<nat> {
    if stack == [] then []
    else
      var top := stack[|stack| - 1];
      Search(score, threshold, top.level, top.x) + Pending(score, threshold, stack[..|stack| - 1])
  }

  /** The nodes under a node of the given level, itself included. */
  function Under(level: nat): nat {
    if level == 0 then 1 else 1 + 2 * Under(level - 1)
  }

  /** The number of pops the stack may still cost. */
  function Work(stack: seq<Node>): nat {
    if stack == [] then 0 else Under(stack[|stack| - 1].level) + Work(stack[..|stack| - 1])
  }

  lemma PushTwo(stack: seq<Node>, a: Node, b: Node)
    ensures (stack + [a] + [b])[..|stack| + 1] == stack + [a]
    ensures (stack + [a])[..|stack|] == stack
  {
  }

  lemma SearchExpands(score: Score, threshold: real, level: nat, x: nat)
    requires 0 < level && score(level, x) as real > threshold
    ensures Search(score, threshold, level, x)
        == Search(score, threshold, level - 1, 2 * x + 1) + Search(score, threshold, level - 1, 2 * x)
    ensures Under(level) == 1 + 2 * Under(level - 1)
  {
  }

  /** Expanding a node in place leaves what is pending the same, with less work to do. */
  lemma ExpandPending(score: Score, threshold: real, stack: seq<Node>, level: nat, x: nat)
    requires 0 < level && score(level, x) as real > threshold
    ensures var a, b := Node(level - 1, 2 * x), Node(level - 1, 2 * x + 1);
            && Pending(score, threshold, stack + [a] + [b])
              == Search(score, threshold, level, x) + Pending(score, threshold, stack)
            && Work(stack + [a] + [b]) + 1 == Under(level) + Work(stack)
  {
    hide Search, Pending, Work;
    var a, b := Node(level - 1, 2 * x), Node(level - 1, 2 * x + 1);
    SearchExpands(score, threshold, level, x);
    TwoPending(score, threshold, stack, a, b);
  }

  lemma TwoPending(score: Score, threshold: real, stack: seq<Node>, a: Node, b: Node)
    ensures Pending(score, threshold, stack + [a] + [b]) ==
              Search(score, threshold, b.level, b.x) + Search(score, threshold, a.level, a.x)
                + Pending(score, threshold, stack)
    ensures Work(stack + [a] + [b]) == Under(b.level) + Under(a.level) + Work(stack)
  {
    hide *;
    PushPending(score, threshold, stack, a);
    PushPending(score, threshold, stack + [a], b);
    Associates(Search(score, threshold, b.level, b.x), Search(score, threshold, a.level, a.x),
      Pending(score, threshold, stack));
  }

  lemma Associates(a: seq<nat>, b: seq<nat>, c: seq<nat>)
    ensures a + (b + c) == (a + b) + c
  {
  }

  lemma PushPending(score: Score, threshold: real, stack: seq<Node>, n: Node)
    ensures Pending(score, threshold, stack + [n])
        == Search(score, threshold, n.level, n.x) + Pending(score, threshold, stack)
    ensures Work(stack + [n]) == Under(n.level) + Work(stack)
  {
    hide Search;
    assert (stack + [n])[..|stack|] == stack;
  }

  /** Both halves of the universe, the upper one first. */
  function Hits(score: Score, threshold: real, levels: nat): seq<nat>
    requires 0 < levels
  {
    Search(score, threshold, levels - 1, 1) + Search(score, threshold, levels - 1, 0)
  }

  /** One turn of the loop: what has been found and what is pending stay the answer, with less work to do. */
  lemma Turn(score: Score, threshold: real, had: seq<nat>, stack: seq<Node>)
    requires stack != []
    ensures var top, rest := stack[|stack| - 1], stack[..|stack| - 1];
            var all := had + Pending(score, threshold, stack);
            if score(top.level, top.x) as real <= threshold then
              all == had + Pending(score, threshold, rest) && Work(rest) < Work(stack)
            else if top.level == 0 then
              all == (had + [top.x]) + Pending(score, threshold, rest) && Work(rest) < Work(stack)
            else
              var more := rest + [Node(top.level - 1, 2 * top.x)] + [Node(top.level - 1, 2 * top.x + 1)];
              all == had + Pending(score, threshold, more) && Work(more) < Work(stack)
  {
    hide *;
    var top, rest := stack[|stack| - 1], stack[..|stack| - 1];
    assert stack == rest + [top];
    PopOne(score, threshold, top);
    PushPending(score, threshold, rest, top);
    Associates(had, Search(score, threshold, top.level, top.x), Pending(score, threshold, rest));
    assert had + [] == had;
    if score(top.level, top.x) as real > threshold && 0 < top.level {
      ExpandPending(score, threshold, rest, top.level, top.x);
    }
  }

  /** The loop of `query_hh` and `query_hh_bitp` */
  method Descend(score: Score, threshold: real, levels: nat) returns (result: seq<nat>)
    requires 0 < levels
    ensures result == Hits(score, threshold, levels)
  {
    hide Search, Hits, Pending, Work;
    result := [];
    var stack := [Node(levels - 1, 0), Node(levels - 1, 1)];
    PendingStarts(score, threshold, levels);
    while stack != []
      invariant result + Pending(score, threshold, stack) == Hits(score, threshold, levels)
      invariant forall n <- stack :: n.level < levels && n.x < Pow2(levels - n.level)
      decreases Work(stack)
    {
      Turn(score, threshold, result, stack);
      var top := stack[|stack| - 1];
      stack := stack[..|stack| - 1];
      if score(top.level, top.x) as real > threshold {
        if top.level == 0 {
          result := result + [top.x];
        } else {
          stack := stack + [Node(top.level - 1, 2 * top.x)] + [Node(top.level - 1, 2 * top.x + 1)];
        }
      }
    }
    NonePending(score, threshold, result);
  }

  lemma NonePending(score: Score, threshold: real, had: seq<nat>)
    ensures had + Pending(score, threshold, []) == had
  {
  }

  lemma PendingStarts(score: Score, threshold: real, levels: nat)
    requires 0 < levels
    ensures [] + Pending(score, threshold, [Node(levels - 1, 0), Node(levels - 1, 1)]) == Hits(score, threshold, levels)
    ensures 1 < Pow2(1)
  {
    hide Search;
    var a, b := Node(levels - 1, 0), Node(levels - 1, 1);
    PushTwo([], a, b);
    assert [] + [a] + [b] == [a, b] && [] + [a] == [a];
    assert Pending(score, threshold, [a]) == Search(score, threshold, levels - 1, 0) + [];
  }

  lemma PopOne(score: Score, threshold: real, top: Node)
    ensures score(top.level, top.x) as real <= threshold ==> Search(score, threshold, top.level, top.x) == []
    ensures score(top.level, top.x) as real > threshold && top.level == 0 ==>
        Search(score, threshold, top.level, top.x) == [top.x]
    ensures 0 < Under(top.level)
  {
  }

  /** Reported are exactly the keys of the universe whose every ancestor is above the threshold, each once. */
  lemma HitsAre(score: Score, threshold: real, levels: nat, key: nat)
    requires 0 < levels
    ensures key in Hits(score, threshold, levels) <==> key < Pow2(levels) && Passing(score, threshold, levels - 1, key)
    ensures Descending(Hits(score, threshold, levels))
  {
    hide Search, Passing;
    SearchFinds(score, threshold, levels - 1, 1, key);
    SearchFinds(score, threshold, levels - 1, 0, key);
    UpZero(key, levels);
    SearchDescends(score, threshold, levels - 1, 1);
    SearchDescends(score, threshold, levels - 1, 0);
    var a, b := Search(score, threshold, levels - 1, 1), Search(score, threshold, levels - 1, 0);
    forall p <- a, q <- b ensures q < p { Ranges(score, threshold, levels - 1, 1, p, 0, q); }
    DescendingParts(a, b);
  }

  // ----- what the scores say of the stream

  /** A sketch's answer, given its level, what it was fed, the query time and the key. */
  type Estimator = (nat, seq<Item>, nat, nat) -> nat

  function ScoreAt(estimate: Estimator, streams: seq<seq<Item>>, t: nat): Score {
    (level: nat, x: nat) => if level < |streams| then estimate(level, streams[level], t, x) else 0
  }

  /** Every level is fed the stream with the keys cut down to that level. */
  ghost predicate Layered(streams: seq<seq<Item>>, items: seq<Item>) {
    forall i :: 0 <= i < |streams| ==> streams[i] == Shifted(items, i)
  }

  ghost predicate Accurate(estimate: Estimator, streams: seq<seq<Item>>, t: nat, span: Span, err: nat) {
    forall i: nat, x: nat :: i < |streams| ==>
      Weight(streams[i], span, x) - err <= estimate(i, streams[i], t, x) <= Weight(streams[i], span, x) + err
  }

  /** No heavy key is missed and no light one reported, up to the error of the sketches. */
  lemma HitsAreHeavy(estimate: Estimator, streams: seq<seq<Item>>, items: seq<Item>, t: nat, span: Span, err: nat,
                     threshold: real, key: nat)
    requires streams != [] && Layered(streams, items) && Accurate(estimate, streams, t, span, err)
    ensures key in Hits(ScoreAt(estimate, streams, t), threshold, |streams|) ==>
              key < Pow2(|streams|) && Weight(items, span, key) as real > threshold - err as real
    ensures NoDeletions(items) && key < Pow2(|streams|) ==>
        (Weight(items, span, key) as real > threshold + err as real ==>
           key in Hits(ScoreAt(estimate, streams, t), threshold, |streams|))
  {
    hide Hits, Weight, Shifted, Up, NoDeletions, Pow2;
    var score := ScoreAt(estimate, streams, t);
    HitsAre(score, threshold, |streams|, key);
    ShiftedByNone(items);
    UpStart(key);
    assert Weight(streams[0], span, key) - err
        <= estimate(0, streams[0], t, key) <= Weight(streams[0], span, key) + err;
    assert score(0, key) == estimate(0, streams[0], t, key);
    assert Passing(score, threshold, |streams| - 1, key) ==> score(0, Up(key, 0)) as real > threshold;
    if NoDeletions(items) && Weight(items, span, key) as real > threshold + err as real {
      forall i | 0 <= i <= |streams| - 1 ensures score(i, Up(key, i)) as real > threshold {
        AncestorsWeighMore(items, i, span, key);
        assert Weight(streams[i], span, Up(key, i)) - err <= estimate(i, streams[i], t, Up(key, i));
      }
    }
  }

  lemma UpStart(key: nat)
    ensures Up(key, 0) == key
  {
  }

  lemma Fraction(frac: real, a: real, b: real)
    requires 0.0 <= frac && a <= b
    ensures frac * a <= frac * b
  {
    assert frac * b == frac * a + frac * (b - a);
  }

  /**
   * A key clearly above the asked fraction of the updates is found, one clearly below it is not;
   * `low` and `high` are where the estimated number of updates `cnt` may lie.
   */
  lemma FractionHits(estimate: Estimator, streams: seq<seq<Item>>, items: seq<Item>, t: nat, span: Span, err: nat,
                     frac: real, cnt: real, low: real, high: real, key: nat)
    requires streams != [] && Layered(streams, items) && Accurate(estimate, streams, t, span, err)
    requires 0.0 <= frac && low <= cnt <= high
    ensures key in Hits(ScoreAt(estimate, streams, t), frac * cnt, |streams|) ==>
        Weight(items, span, key) as real > frac * low - err as real
    ensures NoDeletions(items) && key < Pow2(|streams|) ==>
        (Weight(items, span, key) as real > frac * high + err as real ==>
           key in Hits(ScoreAt(estimate, streams, t), frac * cnt, |streams|))
  {
    hide Hits, Weight, Layered, Accurate, NoDeletions, Pow2;
    HitsAreHeavy(estimate, streams, items, t, span, err, frac * cnt, key);
    Fraction(frac, low, cnt);
    Fraction(frac, cnt, high);
  }

  /**
   * What is found weighs more than the fraction of `low`, what weighs more than that of `high` is found, up
   * to the error.
   */
  ghost predicate FoundBetween(values: seq<nat>, items: seq<Item>, span: Span, levels: nat, frac: real, low: real,
                               high: real, err: nat)
  {
    forall key: nat ::
      && (key in values ==> Weight(items, span, key) as real > frac * low - err as real)
      && (NoDeletions(items) && key < Pow2(levels) && Weight(items, span, key) as real > frac * high + err as real ==>
        key in values)
  }

  lemma HitsFoundBetween(estimate: Estimator, streams: seq<seq<Item>>, items: seq<Item>, t: nat, span: Span,
                         frac: real, cnt: real, low: real, high: real)
    requires streams != [] && Layered(streams, items) && 0.0 <= frac && low <= cnt <= high
    ensures forall err: nat :: Accurate(estimate, streams, t, span, err) ==>
              FoundBetween(Hits(ScoreAt(estimate, streams, t), frac * cnt, |streams|), items, span, |streams|, frac,
                low, high, err)
  {
    hide Hits, Weight, Layered, Accurate, NoDeletions, Pow2;
    forall err: nat | Accurate(estimate, streams, t, span, err)
      ensures FoundBetween(Hits(ScoreAt(estimate, streams, t), frac * cnt, |streams|), items, span, |streams|, frac,
          low, high, err)
    {
      forall key: nat
        ensures key in Hits(ScoreAt(estimate, streams, t), frac * cnt, |streams|) ==>
            Weight(items, span, key) as real > frac * low - err as real
        ensures NoDeletions(items) && key < Pow2(|streams|) ==>
            (Weight(items, span, key) as real > frac * high + err as real ==>
               key in Hits(ScoreAt(estimate, streams, t), frac * cnt, |streams|))
      {
        FractionHits(estimate, streams, items, t, span, err, frac, cnt, low, high, key);
      }
    }
  }

  // ----- the number of updates, from the piecewise-linear curve

  ghost predicate Rising(items: seq<Item>) {
    forall i, j :: 0 <= i <= j < |items| ==> items[i].ts <= items[j].ts
  }

  /** A point of the curve is dated so. */
  ghost predicate Marked(points: seq<Point>, t: nat) {
    exists i :: 0 <= i < |points| && points[i].x == t
  }

  /** The curve was fed the running number of updates, the last number of each time. */
  ghost predicate CountsUpdates(points: seq<Point>, items: seq<Item>) {
    && Rising(items) && (points == [] <==> items == [])
    && (forall p <- points :: p.y == Arrived(items, Until(p.x)) as real)
    && (forall item <- items :: Marked(points, item.ts))
    && (points != [] ==> points[|points| - 1].x == items[|items| - 1].ts)
  }

  /** The first time from t on at which there was an update, or t if there was none. */
  ghost function NextTime(items: seq<Item>, t: nat): (u: nat)
    ensures t <= u
  {
    if items == [] || items[|items| - 1].ts < t then t
    else if 2 <= |items| && t <= items[|items| - 2].ts then NextTime(items[..|items| - 1], t)
    else items[|items| - 1].ts
  }

  lemma {:induction false} NextTimeIs(items: seq<Item>, t: nat)
    requires items != [] && t <= items[|items| - 1].ts
    ensures exists item :: item in items && item.ts == NextTime(items, t)
  {
    var n := |items| - 1;
    if 2 <= |items| && t <= items[n - 1].ts {
      NextTimeIs(items[..n], t);
      var item :| item in items[..n] && item.ts == NextTime(items[..n], t);
      assert item in items;
    } else {
      assert items[n] in items;
    }
  }

  lemma {:induction false} ArrivedGrows(items: seq<Item>, a: nat, b: nat)
    requires a <= b
    ensures Arrived(items, Until(a)) <= Arrived(items, Until(b)) <= |items|
    ensures (forall item <- items :: item.ts <= a || b < item.ts) ==>
        Arrived(items, Until(a)) == Arrived(items, Until(b))
    ensures (forall item <- items :: item.ts <= a) ==> Arrived(items, Until(a)) == |items|
    ensures (forall item <- items :: b < item.ts) ==> Arrived(items, Until(b)) == 0
  {
    if items != [] {
      var n := |items| - 1;
      assert items == items[..n] + [items[n]];
      ArrivedGrows(items[..n], a, b);
    }
  }

  /** One more update, at the time of the last or later. */
  lemma CountsMore(points: seq<Point>, items: seq<Item>, item: Item)
    requires CountsUpdates(points, items) && Increasing(points) && (items != [] ==> items[|items| - 1].ts <= item.ts)
    ensures CountsUpdates(Replaced(points, item.ts) + [Point(item.ts, (|items| + 1) as real)], items + [item])
  {
    hide Arrived, Increasing;
    var kept, more := Replaced(points, item.ts), items + [item];
    var all := kept + [Point(item.ts, |more| as real)];
    assert more[..|items|] == items;
    KeptAreEarlier(points, items, item.ts);
    forall p <- all ensures p.y == Arrived(more, Until(p.x)) as real {
      ArrivedMore(items, item, p.x);
      ArrivedGrows(more, p.x, p.x);
    }
    forall x <- more ensures Marked(all, x.ts) { MarkedMore(points, items, item.ts, x.ts, |more| as real); }
  }

  lemma KeptAreEarlier(points: seq<Point>, items: seq<Item>, ts: nat)
    requires CountsUpdates(points, items) && Increasing(points) && (items != [] ==> items[|items| - 1].ts <= ts)
    ensures forall p <- Replaced(points, ts) :: p in points && p.x < ts
    ensures forall item <- items :: item.ts <= ts
  {
    hide Arrived;
    forall p <- Replaced(points, ts) ensures p in points && p.x < ts {
      var i :| 0 <= i < |Replaced(points, ts)| && Replaced(points, ts)[i] == p;
      assert points[i] == p && points[|points| - 1].x <= ts;
    }
  }

  lemma ArrivedMore(items: seq<Item>, item: Item, t: nat)
    ensures Arrived(items + [item], Until(t)) == Arrived(items, Until(t)) + if item.ts <= t then 1 else 0
  {
    assert (items + [item])[..|items|] == items;
  }

  lemma MarkedMore(points: seq<Point>, items: seq<Item>, ts: nat, t: nat, y: real)
    requires t == ts || Marked(points, t)
    ensures Marked(Replaced(points, ts) + [Point(ts, y)], t)
  {
    var all := Replaced(points, ts) + [Point(ts, y)];
    assert all[|all| - 1].x == ts;
    if t != ts {
      var i :| 0 <= i < |points| && points[i].x == t;
      assert all[i].x == t;
    }
  }

  /** The last point that is not later than t. */
  lemma LastPoint(points: seq<Point>, t: nat) returns (i: nat)
    requires Increasing(points) && points != [] && points[0].x <= t < points[|points| - 1].x
    ensures i + 1 < |points| && points[i].x <= t < points[i + 1].x
  {
    i := 0;
    while points[i + 1].x <= t
      invariant i + 1 < |points| && points[i].x <= t
    {
      i := i + 1;
    }
  }

  /** No update came between two neighbouring points, nor before the first. */
  lemma NoneBetween(points: seq<Point>, items: seq<Item>, i: nat, item: Item)
    requires CountsUpdates(points, items) && Increasing(points) && item in items && points != []
    ensures points[0].x <= item.ts <= points[|points| - 1].x
    ensures i + 1 < |points| ==> item.ts <= points[i].x || points[i + 1].x <= item.ts
  {
    hide Arrived;
    var j :| 0 <= j < |points| && points[j].x == item.ts;
    Earlier(points, 0, j);
    Earlier(points, j, |points| - 1);
    if i + 1 < |points| {
      Earlier(points, j, i);
      Earlier(points, i + 1, j);
    }
  }

  /** A hitter and what its reported fraction is made of. */
  datatype Hitter = Hitter(value: nat, count: nat, total: real)

  class HeavyHitters {
    const levels: nat
    const estimate: Estimator
    const estimateBitp: Estimator
    const curve: PLA
    var pcm: seq<seq<Item>>
    var total: nat
    ghost var fed: seq<Item>

    /** All but the curve. */
    ghost predicate Counting()
      reads this, curve
    {
      && 0 < levels && |pcm| == levels && Layered(pcm, fed)
      && total == |fed| && CountsUpdates(curve.points, fed)
    }

    ghost predicate Valid()
      reads this, curve
    {
      Counting() && curve.Valid()
    }

    constructor (levels: nat, delta: real, estimate: Estimator, estimateBitp: Estimator)
      requires 0 < levels && 0.0 <= delta
      ensures Valid() && fed == [] && this.levels == levels && curve.tolerance == delta && fresh(curve)
      ensures this.estimate == estimate && this.estimateBitp == estimateBitp
    {
      this.levels, this.estimate, this.estimateBitp := levels, estimate, estimateBitp;
      this.curve := new PLA(delta);
      pcm := seq(levels, i => []);
      total, fed := 0, [];
    }

    method Clear()
      requires Valid()
      modifies this, curve
      ensures Valid() && fed == []
    {
      hide PLA.Valid;
      curve.ToleranceIsPositive();
      pcm := seq(levels, i => []);
      curve.Clear();
      total, fed := 0, [];
    }

    /**
     `update`: one update per level, of the key cut down level by level; the total of a time takes the place
     of the one before, which may spoil the curve.
     */
    method Update(ts: nat, element: nat, cnt: int)
      requires Valid() && (fed != [] ==> fed[|fed| - 1].ts <= ts)
      modifies this, curve
      ensures Counting() && fed == old(fed) + [Item(ts, element, cnt)]
      ensures Valid() <==> !old(curve.Spoils(Point(ts, (total + 1) as real)))
      ensures curve.points == Replaced(old(curve.points), ts) + [Point(ts, |fed| as real)]
      ensures old(curve.Spoils(Point(ts, (total + 1) as real))) ==>
                curve.Gapped() && curve.result == old(Undone(curve.result, curve.begin))
    {
      hide PLA.Valid, PLA.Spoils, PLA.Gapped, Shifted, CountsUpdates, Undone;
      CurvePoints();
      ghost var item := Item(ts, element, cnt);
      var idx := element;
      var i := 0;
      while i < levels
        invariant 0 <= i <= levels && |pcm| == levels && idx == Up(element, i)
        invariant forall j :: 0 <= j < i ==> pcm[j] == Shifted(fed + [item], j)
        invariant forall j :: i <= j < levels ==> pcm[j] == Shifted(fed, j)
        modifies `pcm
      {
        ShiftedInit(fed + [item], i);
        assert (fed + [item])[..|fed|] == fed;
        pcm := pcm[i := pcm[i] + [Item(ts, idx, cnt)]];
        idx := idx / 2;
        i := i + 1;
      }
      CountsMore(curve.points, fed, item);
      total := total + 1;
      curve.Feed(Point(ts, total as real));
      fed := fed + [item];
    }

    lemma ValidParts()
      requires Valid()
      ensures Counting() && curve.Valid() && 0 < levels && total == |fed|
    {
      hide PLA.Valid, Layered, CountsUpdates;
    }

    lemma FewAreFine(ts: nat, y: real)
      requires Valid() && |curve.points| <= 2
      ensures !curve.Spoils(Point(ts, y))
    {
      hide PLA.Valid, Layered, CountsUpdates, PLA.Extends, PLA.Broken;
      if curve.bufferInitialized { curve.FewBroken(); }
    }

    /** An update at a new time spoils nothing. */
    lemma NewTimeIsFine(ts: nat, y: real)
      requires Valid() && (fed == [] || fed[|fed| - 1].ts < ts)
      ensures !curve.Spoils(Point(ts, y))
    {
      hide PLA.Valid, Layered, CountsUpdates, PLA.Extends;
      CurvePoints();
      if curve.points == [] { curve.UnfedParts(); }
      if curve.bufferInitialized { curve.FedParts(); }
    }

    lemma CurvePoints()
      requires Valid()
      ensures Increasing(curve.points) && CountsUpdates(curve.points, fed)
      ensures curve.points != [] ==> fed != [] && curve.points[|curve.points| - 1].x == fed[|fed| - 1].ts
      ensures fed == [] <==> curve.points == []
    {
      hide PLA.Valid, Layered;
      if !curve.bufferInitialized { curve.UnfedIsEmpty(); } else { curve.FedParts(); }
    }

    lemma OneLevel()
      requires Counting() && levels == 1
      ensures pcm == [Shifted(fed, 0)]
    {
    }

    /** `query_hh` */
    method QueryHH(ts: nat, threshold: real) returns (result: seq<nat>)
      requires Counting()
      ensures result == Hits(ScoreAt(estimate, pcm, ts), threshold, levels)
    {
      hide PLA.Valid, Layered, CountsUpdates;
      result := Descend(ScoreAt(estimate, pcm, ts), threshold, levels);
    }

    /** `query_hh_bitp` */
    method QueryHHBitp(ts: nat, threshold: real) returns (result: seq<nat>)
      requires Counting()
      ensures result == Hits(ScoreAt(estimateBitp, pcm, ts), threshold, levels)
    {
      hide PLA.Valid, Layered, CountsUpdates;
      result := Descend(ScoreAt(estimateBitp, pcm, ts), threshold, levels);
    }

    /** Every update came by the time of the last. */
    lemma AllArrived(t: nat)
      requires Valid() && fed != [] && fed[|fed| - 1].ts <= t
      ensures Arrived(fed, Until(t)) == |fed| && forall item <- fed :: item.ts <= t
    {
      hide PLA.Valid, Layered, Arrived;
      assert Rising(fed);
      ArrivedGrows(fed, t, t);
    }

    /**
     The estimated number of updates lies between the number by time t and that by the next time there was
     one, up to the tolerance.
     */
    lemma CurveCounts(t: nat, v: real)
      requires Valid() && (if curve.bufferInitialized then curve.OnCurve(t, v) else v == 0.0)
      ensures Arrived(fed, Until(t)) as real - curve.tolerance <= v
      ensures v <= Arrived(fed, Until(NextTime(fed, t))) as real + curve.tolerance
      ensures fed != [] && fed[|fed| - 1].ts <= t ==> v == |fed| as real
    {
      hide PLA.Valid, PLA.OnCurve, Arrived, Layered, CountsUpdates, NextTime;
      curve.ToleranceIsPositive();
      CurvePoints();
      ArrivedGrows(fed, t, NextTime(fed, t));
      if !curve.bufferInitialized {
        curve.UnfedIsEmpty();
        NoUpdates();
      } else {
        curve.FedParts();
        curve.CurveEnds(t, v);
        var last := |curve.points| - 1;
        if t < curve.points[0].x {
          forall item <- fed ensures t < item.ts { NoneBetween(curve.points, fed, 0, item); }
          ArrivedGrows(fed, t, t);
        } else if curve.points[last].x <= t {
          AllArrived(t);
          CountedAt(last);
          AllArrived(curve.points[last].x);
        } else {
          var i := LastPoint(curve.points, t);
          BetweenCounts(i, t, v);
        }
      }
    }

    lemma NoUpdates()
      requires Valid() && curve.points == []
      ensures fed == []
    {
      hide PLA.Valid, Layered;
    }

    lemma CountedAt(i: nat)
      requires Valid() && i < |curve.points|
      ensures curve.points[i].y == Arrived(fed, Until(curve.points[i].x)) as real
    {
      hide PLA.Valid, Layered, Arrived;
      assert curve.points[i] in curve.points;
    }

    lemma BetweenCounts(i: nat, t: nat, v: real)
      requires Valid() && curve.bufferInitialized && curve.OnCurve(t, v)
      requires i + 1 < |curve.points| && curve.points[i].x <= t < curve.points[i + 1].x
      ensures Arrived(fed, Until(t)) as real - curve.tolerance <= v
      ensures v <= Arrived(fed, Until(NextTime(fed, t))) as real + curve.tolerance
      ensures fed != [] && t < fed[|fed| - 1].ts
    {
      hide PLA.Valid, PLA.OnCurve, Arrived, Layered, CountsUpdates, NextTime;
      CurvePoints();
      var a, b, u := curve.points[i], curve.points[i + 1], NextTime(fed, t);
      Earlier(curve.points, i + 1, |curve.points| - 1);
      CountedAt(i);
      CountedAt(i + 1);
      ArrivedGrows(fed, a.x, b.x);
      curve.CurveBetween(i, t, v);
      forall item <- fed ensures item.ts <= a.x || t < item.ts { NoneBetween(curve.points, fed, i, item); }
      ArrivedGrows(fed, a.x, t);
      ArrivedGrows(fed, t, u);
      NextTimeIs(fed, t);
      var item :| item in fed && item.ts == u;
      NoneBetween(curve.points, fed, i, item);
      if b.x <= u {
        ArrivedGrows(fed, b.x, u);
      } else {
        curve.CurveFits(i, v);
      }
    }

    /** std::transform over the raw result */
    method Report(raw: seq<nat>, ts: nat, cnt: real) returns (ret: seq<Hitter>)
      requires Counting()
      ensures |ret| == |raw|
      ensures forall i :: 0 <= i < |raw| ==> ret[i] == Hitter(raw[i], estimateBitp(0, pcm[0], ts, raw[i]), cnt)
    {
      hide PLA.Valid, CountsUpdates, Layered;
      ret := [];
      for i := 0 to |raw|
        invariant |ret| == i
        invariant forall j :: 0 <= j < i ==> ret[j] == Hitter(raw[j], estimateBitp(0, pcm[0], ts, raw[j]), cnt)
      {
        ret := ret + [Hitter(raw[i], estimateBitp(0, pcm[0], ts, raw[i]), cnt)];
      }
    }

    /** Where the estimated number of updates by time t may lie. */
    ghost function Lowest(t: nat): real
      reads this
    {
      Arrived(fed, Until(t)) as real - curve.tolerance
    }

    ghost function Highest(t: nat): real
      reads this
    {
      Arrived(fed, Until(NextTime(fed, t))) as real + curve.tolerance
    }

    /** `estimate_heavy_hitters`; the reported counts come from the suffix estimator */
    method EstimateHeavyHitters(tsE: nat, frac: real) returns (ret: seq<Hitter>, ghost cnt: real)
      requires Counting() && (curve.Valid() || curve.Gapped())
      ensures Valid() ==> Lowest(tsE) <= cnt <= Highest(tsE)
      ensures Valid() && fed != [] && fed[|fed| - 1].ts <= tsE ==> cnt == |fed| as real
      ensures !Valid() && tsE < curve.bufferBegin.x && curve.Uncovered(tsE) ==> cnt == 0.0
      ensures Values(ret) == Hits(ScoreAt(estimate, pcm, tsE), frac * cnt, levels)
      ensures forall h <- ret :: h.count == estimateBitp(0, pcm[0], tsE, h.value) && h.total == cnt
      ensures Valid() && 0.0 <= frac ==>
              forall err: nat :: Accurate(estimate, pcm, tsE, Until(tsE), err) ==>
                FoundBetween(Values(ret), fed, Until(tsE), levels, frac, Lowest(tsE), Highest(tsE), err)
    {
      hide PLA.Valid, PLA.Gapped, PLA.OnCurve, CountsUpdates, Layered, Hits, Accurate, FoundBetween, Weight, Arrived;
      hide NextTime;
      var estimated := curve.Estimate(tsE);
      cnt := estimated;
      if Valid() {
        CurveCounts(tsE, estimated);
        if 0.0 <= frac {
          HitsFoundBetween(estimate, pcm, fed, tsE, Until(tsE), frac, cnt, Lowest(tsE), Highest(tsE));
        }
      }
      var raw := QueryHH(tsE, frac * estimated);
      ret := Report(raw, tsE, estimated);
      ValuesOf(ret, raw);
    }

    /** `estimate_heavy_hitters_bitp` */
    method EstimateHeavyHittersBitp(tsS: nat, frac: real) returns (ret: seq<Hitter>, ghost cnt: real)
      requires Valid()
      ensures 0.0 <= cnt && total as real - Highest(tsS) <= cnt <= total as real - Lowest(tsS)
      ensures Values(ret) == Hits(ScoreAt(estimateBitp, pcm, tsS), frac * cnt, levels)
      ensures forall h <- ret :: h.count == estimateBitp(0, pcm[0], tsS, h.value) && h.total == cnt
      ensures total == |fed| && total - Arrived(fed, Until(tsS)) == Arrived(fed, After(tsS))
      ensures 0.0 <= frac ==> forall err: nat :: Accurate(estimateBitp, pcm, tsS, After(tsS), err) ==>
                FoundBetween(Values(ret), fed, After(tsS), levels, frac,
                  total as real - Highest(tsS), total as real - Lowest(tsS), err)
    {
      hide PLA.Valid, PLA.OnCurve, CountsUpdates, Layered, Hits, Accurate, FoundBetween, Weight, Arrived, NextTime;
      var atStart := curve.Estimate(tsS);
      CurveCounts(tsS, atStart);
      BeforeAndAfter(fed, tsS);
      curve.ToleranceIsPositive();
      ArrivedGrows(fed, tsS, tsS);
      var estimated := if atStart > total as real then 0.0 else total as real - atStart;
      cnt := estimated;
      if 0.0 <= frac {
        HitsFoundBetween(estimateBitp, pcm, fed, tsS, After(tsS), frac, cnt,
          total as real - Highest(tsS), total as real - Lowest(tsS));
      }
      var raw := QueryHHBitp(tsS, frac * estimated);
      ret := Report(raw, tsS, estimated);
      ValuesOf(ret, raw);
    }
  }

  function Values(hitters: seq<Hitter>): (r: seq<nat>)
    ensures |r| == |hitters|
  {
    seq(|hitters|, i requires 0 <= i < |hitters| => hitters[i].value)
  }

  lemma ValuesOf(hitters: seq<Hitter>, raw: seq<nat>)
    requires |hitters| == |raw| && forall i :: 0 <= i < |raw| ==> hitters[i].value == raw[i]
    ensures Values(hitters) == raw
  {
  }

  lemma {:induction false} BeforeAndAfter(items: seq<Item>, t: nat)
    ensures Arrived(items, Until(t)) + Arrived(items, After(t)) == |items|
  {
    if items != [] { BeforeAndAfter(items[..|items| - 1], t); }
  }

  function Gap(a: int, b: int): int {
    if a <= b then b - a else a - b
  }

  /**
   How far the count a prefix query reports with a hitter is from the weight of the prefix: it is an
   estimate of the weight after t, so it is right only as far as the two weights agree.
   */
  lemma ReportedCountIsOfTheSuffix(bitp: Estimator, streams: seq<seq<Item>>, items: seq<Item>, t: nat, err: nat,
                                   key: nat, tol: int)
    requires streams != [] && Layered(streams, items) && Accurate(bitp, streams, t, After(t), err)
    ensures var count, prefix, suffix := bitp(0, streams[0], t, key), Weight(items, Until(t), key),
        Weight(items, After(t), key);
            && Gap(count, suffix) <= err
            && (Gap(prefix, suffix) + err <= tol ==> Gap(count, prefix) <= tol)
            && (Gap(prefix, suffix) > tol + err ==> Gap(count, prefix) > tol)
            && (err == 0 ==> (Gap(count, prefix) <= tol <==> Gap(prefix, suffix) <= tol))
  {
    hide Weight, Shifted;
    ShiftedByNone(items);
    assert Weight(streams[0], After(t), key) - err
        <= bitp(0, streams[0], t, key) <= Weight(streams[0], After(t), key) + err;
  }

  /** Sketches that make no error. */
  function ExactUntil(): Estimator {
    (level: nat, stream: seq<Item>, t: nat, x: nat) => var w := Weight(stream, Until(t), x); if 0 <= w then w else 0
  }

  function ExactAfter(): Estimator {
    (level: nat, stream: seq<Item>, t: nat, x: nat) => var w := Weight(stream, After(t), x); if 0 <= w then w else 0
  }

  /** Even then: the only key of a stream, of weight 3, is reported with a count of 0. */
  method ReportsZero() returns (hh: HeavyHitters, ret: seq<Hitter>)
    ensures hh.Valid() && hh.fed == [Item(1, 0, 3)] && Weight(hh.fed, Until(1), 0) == 3
    ensures |ret| == 1 && ret[0].value == 0 && ret[0].count == 0
  {
    hide PLA.Valid, PLA.Gapped, PLA.Spoils, PLA.Uncovered, HeavyHitters.Valid, HeavyHitters.Counting, Undone;
    hide HeavyHitters.Lowest, HeavyHitters.Highest, FoundBetween, Accurate, CountsUpdates, Layered, Hits, NextTime;
    hh := new HeavyHitters(1, 0.0, ExactUntil(), ExactAfter());
    hh.NewTimeIsFine(1, (hh.total + 1) as real);
    hh.Update(1, 0, 3);
    hh.ValidParts();
    assert [] + [Item(1, 0, 3)] == [Item(1, 0, 3)];
    OneItem();
    hh.OneLevel();
    ghost var cnt;
    ret, cnt := hh.EstimateHeavyHitters(1, 0.5);
    OneHit(hh.pcm, 0.5 * cnt);
    assert ret[0] in ret && Values(ret)[0] == 0;
  }

  lemma OneItem()
    ensures var items := [Item(1, 0, 3)];
            && Weight(items, Until(1), 0) == 3 && Weight(items, Until(1), 1) == 0 && Weight(items, After(1), 0) == 0
            && Arrived(items, Until(1)) == 1 && Shifted(items, 0) == items
  {
    var items := [Item(1, 0, 3)];
    assert items[..0] == [];
  }

  lemma OneHit(streams: seq<seq<Item>>, threshold: real)
    requires streams == [[Item(1, 0, 3)]] && 0.0 < threshold <= 1.0
    ensures Hits(ScoreAt(ExactUntil(), streams, 1), threshold, 1) == [0]
  {
    hide Weight;
    OneItem();
    var score := ScoreAt(ExactUntil(), streams, 1);
    assert score(0, 0) == 3 && score(0, 1) == 0;
  }

  // ----- shares of the updates and shares of the weight

  /** What all updates in the span weigh together. */
  function TotalWeight(items: seq<Item>, span: Span): int {
    if items == [] then 0
    else var last := items[|items| - 1]; TotalWeight(items[..|items| - 1], span) + if span(last.ts) then last.cnt else 0
  }

  ghost predicate Singles(items: seq<Item>, span: Span) {
    forall item <- items :: span(item.ts) ==> item.cnt == 1
  }

  /** Where every update counts for something, the updates weigh their number exactly if each counts once. */
  lemma {:induction false} SinglesWeighTheirNumber(items: seq<Item>, span: Span)
    requires forall item <- items :: 0 < item.cnt
    ensures Arrived(items, span) <= TotalWeight(items, span)
    ensures TotalWeight(items, span) == Arrived(items, span) <==> Singles(items, span)
  {
    if items != [] {
      var init, last := items[..|items| - 1], items[|items| - 1];
      assert items == init + [last];
      SinglesWeighTheirNumber(init, span);
    }
  }

  lemma {:induction false} WeightWithin(items: seq<Item>, span: Span, key: nat)
    requires NoDeletions(items)
    ensures 0 <= Weight(items, span, key) <= TotalWeight(items, span)
  {
    if items != [] {
      var init, last := items[..|items| - 1], items[|items| - 1];
      assert items == init + [last];
      WeightWithin(init, span, key);
    }
  }

  ghost predicate InUniverse(items: seq<Item>, levels: nat) {
    forall item <- items :: item.key < Pow2(levels)
  }

  lemma {:induction false} SomeKeyWeighs(items: seq<Item>, span: Span, levels: nat) returns (key: nat)
    requires NoDeletions(items) && InUniverse(items, levels) && 0 < TotalWeight(items, span)
    ensures key < Pow2(levels) && 0 < Weight(items, span, key) <= TotalWeight(items, span)
  {
    hide Pow2;
    var init, last := items[..|items| - 1], items[|items| - 1];
    assert items == init + [last];
    if span(last.ts) && 0 < last.cnt {
      key := last.key;
      WeightWithin(init, span, key);
    } else {
      key := SomeKeyWeighs(init, span, levels);
    }
    WeightWithin(items, span, key);
  }

  /** Heavier than the fraction of the whole. */
  ghost predicate HasShare(items: seq<Item>, span: Span, frac: real, whole: real, key: nat) {
    Weight(items, span, key) as real > frac * whole
  }

  ghost predicate IsHit(score: Score, levels: nat, frac: real, cnt: real, key: nat)
    requires 0 < levels
  {
    key in Hits(score, frac * cnt, levels)
  }

  /** Whatever fraction is asked for, a key with more than that share of the weight is hit. */
  ghost predicate SharesAreHit(score: Score, items: seq<Item>, span: Span, levels: nat, cnt: real)
    requires 0 < levels
  {
    forall frac: real, key: nat ::
      0.0 <= frac && key < Pow2(levels) && HasShare(items, span, frac, TotalWeight(items, span) as real, key) ==>
        IsHit(score, levels, frac, cnt, key)
  }

  /** Whatever fraction is asked for, a hit has more than that share of the weight. */
  ghost predicate HitsHaveShares(score: Score, items: seq<Item>, span: Span, levels: nat, cnt: real)
    requires 0 < levels
  {
    forall frac: real, key: nat :: 0.0 <= frac && IsHit(score, levels, frac, cnt, key) ==>
      HasShare(items, span, frac, TotalWeight(items, span) as real, key)
  }

  /** Exact sketches: hit is what exceeds the fraction of `cnt`. */
  ghost predicate HitsExactly(score: Score, items: seq<Item>, span: Span, levels: nat, cnt: real)
    requires 0 < levels
  {
    forall frac: real, key: nat :: 0.0 <= frac ==>
      (IsHit(score, levels, frac, cnt, key) <==> key < Pow2(levels) && HasShare(items, span, frac, cnt, key))
  }

  /** The share of a smaller whole is easier to exceed; no key exceeds a share of nothing. */
  lemma ShareOfLess(items: seq<Item>, span: Span, frac: real, whole: real, less: real, key: nat)
    requires 0.0 <= frac && 0.0 <= less && 0.0 <= whole && NoDeletions(items)
    requires HasShare(items, span, frac, whole, key) && (less <= whole || TotalWeight(items, span) == 0)
    ensures HasShare(items, span, frac, less, key)
  {
    hide Weight, TotalWeight, NoDeletions;
    WeightWithin(items, span, key);
    assert 0.0 <= frac * whole;
    Fraction(frac, less, whole);
  }

  /** A fraction that tells a key apart when measured against a smaller and a larger whole. */
  lemma TellingFraction(items: seq<Item>, span: Span, levels: nat, a: real, b: real) returns (frac: real, key: nat)
    requires NoDeletions(items) && InUniverse(items, levels) && 0 < TotalWeight(items, span) && 0.0 <= a < b
    ensures 0.0 <= frac && key < Pow2(levels) && HasShare(items, span, frac, a, key)
        && !HasShare(items, span, frac, b, key)
  {
    hide Weight, TotalWeight, NoDeletions, InUniverse, Pow2;
    key := SomeKeyWeighs(items, span, levels);
    var x := Weight(items, span, key) as real;
    frac := x / b;
    assert frac * b == x;
    assert frac * (b - a) > 0.0;
    assert frac * b == frac * a + frac * (b - a);
  }

  lemma SharesHit(score: Score, items: seq<Item>, span: Span, levels: nat, cnt: real)
    requires 0 < levels && NoDeletions(items) && InUniverse(items, levels) && 0.0 <= cnt
    requires HitsExactly(score, items, span, levels, cnt)
    ensures var w := TotalWeight(items, span) as real;
            SharesAreHit(score, items, span, levels, cnt) <==> w == 0.0 || cnt <= w
  {
    hide Hits, TotalWeight, NoDeletions, InUniverse, Pow2, HasShare, IsHit;
    var w := TotalWeight(items, span);
    TotalIsPositive(items, span);
    if 0 < w && w as real < cnt {
      var frac, key := TellingFraction(items, span, levels, w as real, cnt);
      assert !IsHit(score, levels, frac, cnt, key);
    } else {
      forall frac: real, key: nat | 0.0 <= frac && key < Pow2(levels) && HasShare(items, span, frac, w as real, key)
        ensures IsHit(score, levels, frac, cnt, key)
      {
        if 0 < w { ShareOfLess(items, span, frac, w as real, cnt, key); } else { NoShare(items, span, frac, key); }
      }
    }
  }

  lemma HitsShare(score: Score, items: seq<Item>, span: Span, levels: nat, cnt: real)
    requires 0 < levels && NoDeletions(items) && InUniverse(items, levels) && 0.0 <= cnt
    requires HitsExactly(score, items, span, levels, cnt)
    ensures var w := TotalWeight(items, span) as real;
            HitsHaveShares(score, items, span, levels, cnt) <==> w == 0.0 || w <= cnt
  {
    hide Hits, TotalWeight, NoDeletions, InUniverse, Pow2, HasShare, IsHit;
    var w := TotalWeight(items, span);
    TotalIsPositive(items, span);
    if 0 < w && cnt < w as real {
      var frac, key := TellingFraction(items, span, levels, cnt, w as real);
      assert IsHit(score, levels, frac, cnt, key);
    } else {
      forall frac: real, key: nat | 0.0 <= frac && IsHit(score, levels, frac, cnt, key)
        ensures HasShare(items, span, frac, w as real, key)
      {
        ShareOfLess(items, span, frac, cnt, w as real, key);
      }
    }
  }

  lemma TotalIsPositive(items: seq<Item>, span: Span)
    requires NoDeletions(items)
    ensures 0 <= TotalWeight(items, span)
  {
    WeightWithin(items, span, 0);
  }

  lemma NoShare(items: seq<Item>, span: Span, frac: real, key: nat)
    requires NoDeletions(items) && TotalWeight(items, span) == 0
    ensures !HasShare(items, span, frac, 0.0, key)
  {
    WeightWithin(items, span, key);
  }

  /**
   With exact sketches: a query that measures its fraction against `cnt` finds every key with its share of
   the weight exactly if `cnt` is not above the weight, and finds no other exactly if it is not below.
   */
  lemma SharesOfTheWeight(estimate: Estimator, streams: seq<seq<Item>>, items: seq<Item>, t: nat, span: Span, cnt: real)
    requires streams != [] && Layered(streams, items) && Accurate(estimate, streams, t, span, 0)
    requires NoDeletions(items) && InUniverse(items, |streams|) && 0.0 <= cnt
    ensures var score, w := ScoreAt(estimate, streams, t), TotalWeight(items, span) as real;
            && (SharesAreHit(score, items, span, |streams|, cnt) <==> w == 0.0 || cnt <= w)
            && (HitsHaveShares(score, items, span, |streams|, cnt) <==> w == 0.0 || w <= cnt)
  {
    hide Hits, Weight, TotalWeight, Layered, Accurate, NoDeletions, InUniverse, Pow2, SharesAreHit, HitsHaveShares;
    var score := ScoreAt(estimate, streams, t);
    forall frac: real, key: nat | 0.0 <= frac
      ensures IsHit(score, |streams|, frac, cnt, key) <==>
          key < Pow2(|streams|) && HasShare(items, span, frac, cnt, key)
    {
      HitsAreHeavy(estimate, streams, items, t, span, 0, frac * cnt, key);
    }
    SharesHit(score, items, span, |streams|, cnt);
    HitsShare(score, items, span, |streams|, cnt);
  }

  /**
   * At the end of the stream the query measures against the number of updates, which every update counting
   * once has.
   */
  lemma SharesAtTheEnd(hh: HeavyHitters, t: nat)
    requires hh.Valid() && hh.fed != [] && hh.fed[|hh.fed| - 1].ts <= t
    requires Accurate(hh.estimate, hh.pcm, t, Until(t), 0) && InUniverse(hh.fed, hh.levels)
    requires forall item <- hh.fed :: 0 < item.cnt
    ensures var score, n := ScoreAt(hh.estimate, hh.pcm, t), |hh.fed| as real;
            && SharesAreHit(score, hh.fed, Until(t), hh.levels, n)
            && (HitsHaveShares(score, hh.fed, Until(t), hh.levels, n) <==> forall item <- hh.fed :: item.cnt == 1)
  {
    hide PLA.Valid, Accurate, InUniverse, Arrived, TotalWeight, SharesAreHit, HitsHaveShares, Layered;
    hh.AllArrived(t);
    SinglesWeighTheirNumber(hh.fed, Until(t));
    SharesOfTheWeight(hh.estimate, hh.pcm, hh.fed, t, Until(t), |hh.fed| as real);
    assert Singles(hh.fed, Until(t)) <==> forall item <- hh.fed :: item.cnt == 1;
  }

  /** Even then: a key with one of four is reported as one with more than two fifths. */
  method LightHit() returns (hh: HeavyHitters, ret: seq<Hitter>)
    ensures hh.Valid() && hh.fed == [Item(1, 0, 3), Item(2, 1, 1)]
    ensures Weight(hh.fed, Until(2), 1) == 1 && TotalWeight(hh.fed, Until(2)) == 4
    ensures Values(ret) == [1, 0] && !HasShare(hh.fed, Until(2), 0.4, 4.0, 1)
  {
    hide PLA.Valid, PLA.Gapped, PLA.Spoils, PLA.Uncovered, HeavyHitters.Valid, HeavyHitters.Counting, Undone;
    hide HeavyHitters.Lowest, HeavyHitters.Highest, FoundBetween, Accurate, CountsUpdates, Layered, Hits, NextTime;
    hh := new HeavyHitters(1, 0.0, ExactUntil(), ExactAfter());
    hh.NewTimeIsFine(1, (hh.total + 1) as real);
    hh.Update(1, 0, 3);
    hh.NewTimeIsFine(2, (hh.total + 1) as real);
    hh.Update(2, 1, 1);
    hh.ValidParts();
    assert [] + [Item(1, 0, 3)] + [Item(2, 1, 1)] == [Item(1, 0, 3), Item(2, 1, 1)];
    TwoItems();
    hh.OneLevel();
    ghost var cnt;
    ret, cnt := hh.EstimateHeavyHitters(2, 0.4);
    TwoHits(hh.pcm, 0.4 * cnt);
  }

  lemma TwoItems()
    ensures var items := [Item(1, 0, 3), Item(2, 1, 1)];
            && Weight(items, Until(2), 0) == 3 && Weight(items, Until(2), 1) == 1 && TotalWeight(items, Until(2)) == 4
            && Arrived(items, Until(2)) == 2 && Shifted(items, 0) == items
  {
    var items := [Item(1, 0, 3), Item(2, 1, 1)];
    assert items[..1] == [Item(1, 0, 3)] && items[..1][..0] == [];
    ShiftedByNone(items);
  }

  lemma TwoHits(streams: seq<seq<Item>>, threshold: real)
    requires streams == [[Item(1, 0, 3), Item(2, 1, 1)]] && 0.0 < threshold < 1.0
    ensures Hits(ScoreAt(ExactUntil(), streams, 2), threshold, 1) == [1, 0]
  {
    hide Weight;
    TwoItems();
    var score := ScoreAt(ExactUntil(), streams, 2);
    assert score(0, 0) == 3 && score(0, 1) == 1;
  }

  /** One update at time 1, one at time 2. */
  method TwoUpdates() returns (hh: HeavyHitters)
    ensures fresh(hh) && fresh(hh.curve) && hh.Valid() && hh.total == 2 && hh.curve.tolerance == 0.0
    ensures hh.fed == [Item(1, 0, 1), Item(2, 0, 1)] && hh.curve.points == [Point(1, 1.0), Point(2, 2.0)]
  {
    hide PLA.Valid, PLA.Gapped, PLA.Spoils, PLA.Uncovered, HeavyHitters.Valid, HeavyHitters.Counting, Undone;
    hide HeavyHitters.Lowest, HeavyHitters.Highest, FoundBetween, Accurate, CountsUpdates, Layered, Hits, NextTime;
    hh := new HeavyHitters(1, 0.0, ExactUntil(), ExactAfter());
    hh.CurvePoints();
    hh.NewTimeIsFine(1, (hh.total + 1) as real);
    hh.Update(1, 0, 1);
    hh.ValidParts();
    hh.NewTimeIsFine(2, (hh.total + 1) as real);
    hh.Update(2, 0, 1);
    hh.ValidParts();
  }

  /** One update at time 1, two at time 2, one at time 3. */
  method FourUpdates() returns (hh: HeavyHitters)
    ensures fresh(hh) && fresh(hh.curve) && hh.Valid() && hh.total == 4 && hh.curve.tolerance == 0.0
    ensures hh.fed == [Item(1, 0, 1), Item(2, 0, 1), Item(2, 0, 1), Item(3, 0, 1)]
    ensures hh.curve.points == [Point(1, 1.0), Point(2, 3.0), Point(3, 4.0)]
  {
    hide PLA.Valid, PLA.Gapped, PLA.Spoils, PLA.Uncovered, HeavyHitters.Valid, HeavyHitters.Counting, Undone;
    hide HeavyHitters.Lowest, HeavyHitters.Highest, FoundBetween, Accurate, CountsUpdates, Layered, Hits, NextTime;
    hh := TwoUpdates();
    hh.ValidParts();
    hh.FewAreFine(2, (hh.total + 1) as real);
    hh.Update(2, 0, 1);
    hh.ValidParts();
    hh.NewTimeIsFine(3, (hh.total + 1) as real);
    hh.Update(3, 0, 1);
    hh.ValidParts();
  }

  /**
   With a second one at time 3: by time 1 there was one, but the spoilt curve counts none, so that the
   fraction asked for does not matter and the reported ones divide by 0.
   */
  method GapHits() returns (hh: HeavyHitters, ret: seq<Hitter>, ghost cnt: real)
    ensures hh.Counting() && !hh.Valid() && |hh.fed| == 5
    ensures Arrived(hh.fed, Until(1)) == 1 && cnt == 0.0 && hh.curve.tolerance == 0.0
    ensures forall h <- ret :: h.total == 0.0
  {
    hide PLA.Valid, PLA.Gapped, PLA.Spoils, PLA.Uncovered, HeavyHitters.Valid, HeavyHitters.Counting, Undone;
    hide HeavyHitters.Lowest, HeavyHitters.Highest, FoundBetween, Accurate, CountsUpdates, Layered, Hits, NextTime;
    hh := FourUpdates();
    hh.ValidParts();
    ThirdSpoils(hh.curve);
    hh.Update(3, 0, 1);
    hh.curve.GapFrom(1);
    FiveItems();
    assert hh.fed == [Item(1, 0, 1), Item(2, 0, 1), Item(2, 0, 1), Item(3, 0, 1), Item(3, 0, 1)];
    ret, cnt := hh.EstimateHeavyHitters(1, 0.5);
  }

  lemma FiveItems()
    ensures Arrived([Item(1, 0, 1), Item(2, 0, 1), Item(2, 0, 1), Item(3, 0, 1), Item(3, 0, 1)], Until(1)) == 1
  {
    var a, b, c := Item(1, 0, 1), Item(2, 0, 1), Item(3, 0, 1);
    ArrivedMore([], a, 1);
    ArrivedMore([a], b, 1);
    ArrivedMore([a, b], b, 1);
    ArrivedMore([a, b, b], c, 1);
    ArrivedMore([a, b, b, c], c, 1);
    assert [a, b, b, c, c] == [a, b, b, c] + [c] && [a, b, b, c] == [a, b, b] + [c] && [a, b, b] == [a, b] + [b];
    assert [a, b] == [a] + [b] && [a] == [] + [a];
  }
}
