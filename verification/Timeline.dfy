/** Streams of dated occurrences and what of them has been seen by a given time. */
module Timeline {
  import opened Counts
  import opened MisraGriesSpec

  datatype Event = Event(ts: nat, key: Key)

  /** The keys that occurred up to time t. */
  ghost function Seen(events: seq<Event>, t: nat): multiset<Key> {
    if events == [] then multiset{} else
      var last := events[|events| - 1];
      Seen(events[..|events| - 1], t) + if last.ts <= t then multiset{last.key} else multiset{}
  }

  ghost function Keys(events: seq<Event>): multiset<Key> {
    if events == [] then multiset{} else
      var n := |events| - 1;
      Occurs(Keys(events[..n]), events[n].key, 1)
  }

  ghost predicate EndsAt(events: seq<Event>, ts: nat) {
    forall e <- events :: e.ts <= ts
  }

  /** Some occurrence with a positive timestamp came by time t. */
  ghost predicate Started(events: seq<Event>, t: nat) {
    exists e :: e in events && 0 < e.ts <= t
  }

  lemma {:induction false} SeenAll(events: seq<Event>, t: nat)
    requires EndsAt(events, t)
    ensures Seen(events, t) == Keys(events) && |Keys(events)| == |events|
  {
    if events != [] {
      var n := |events| - 1;
      assert events[n] in events;
      forall e <- events[..n] ensures e in events {}
      SeenAll(events[..n], t);
    }
  }

  /** More has been seen later. */
  lemma {:induction false} SeenGrows(events: seq<Event>, t: nat, t': nat)
    requires t <= t'
    ensures Seen(events, t) <= Seen(events, t')
  {
    if events != [] { SeenGrows(events[..|events| - 1], t, t'); }
  }

  lemma GrowthOf(a: multiset<Key>, b: multiset<Key>, x: Key)
    requires a <= b
    ensures a[x] <= b[x] && b[x] - a[x] <= |b| - |a|
  {
    assert b == a + (b - a);
    assert |(b - a)[x := 0]| >= 0;
  }

  lemma StartedLater(events: seq<Event>, t: nat, t': nat)
    requires Started(events, t) && t <= t'
    ensures Started(events, t')
  {
    var e :| e in events && 0 < e.ts <= t;
  }

  lemma {:induction false} StartedIsSeen(events: seq<Event>, t: nat)
    requires Started(events, t)
    ensures 0 < |Seen(events, t)|
  {
    var n := |events| - 1;
    var e :| e in events && 0 < e.ts <= t;
    if events[n].ts > t {
      assert events == events[..n] + [events[n]];
      assert e in events[..n];
      StartedIsSeen(events[..n], t);
    }
  }

  lemma Append(events: seq<Event>, e: Event, t: nat)
    requires t < e.ts
    ensures Seen(events + [e], t) == Seen(events, t)
    ensures Started(events + [e], t) == Started(events, t)
  {
    assert (events + [e])[..|events|] == events;
    if x :| x in events && 0 < x.ts <= t { assert x in events + [e]; }
  }

  lemma AppendStarts(events: seq<Event>, e: Event)
    ensures e.ts > 0 ==> Started(events + [e], e.ts)
    ensures forall t :: Started(events, t) ==> Started(events + [e], t)
  {
    assert e in events + [e];
    forall t | Started(events, t) ensures Started(events + [e], t) {
      var x :| x in events && 0 < x.ts <= t;
      assert x in events + [e];
    }
  }

  lemma OccursApart(h: multiset<Key>, p: multiset<Key>, x: Key)
    requires p <= h
    ensures p <= Occurs(h, x, 1) && Occurs(h, x, 1) - p == Occurs(h - p, x, 1)
  {
  }

  lemma EndsMore(events: seq<Event>, e: Event, t: nat)
    requires EndsAt(events, t) && t <= e.ts
    ensures EndsAt(events + [e], e.ts)
  {
  }

  lemma AppendKeys(events: seq<Event>, e: Event)
    ensures Keys(events + [e]) == Occurs(Keys(events), e.key, 1)
  {
    assert (events + [e])[..|events|] == events;
  }

  // ----- tolerances

  type Third = r: real | r > 0.0 witness 1.0

  lemma ProductAsReal(k: nat, u: nat)
    ensures (k * u) as real == k as real * u as real
  {
  }

  lemma Scaled(a: real, b: real, c: real)
    requires a <= b && c >= 0.0
    ensures a * c <= b * c
  {
  }

  lemma ScaledUp(k: real, third: real, u: real, p: real)
    requires k * third >= 1.0 && u >= 0.0 && p == k * u
    ensures u <= p * third
  {
    Scaled(1.0, k * third, u);
    assert (k * third) * u == (k * u) * third;
  }

  function Ceil(r: real): int {
    -((-r).Floor)
  }

  lemma CeilCovers(third: Third)
    ensures 0 < Ceil(1.0 / third)
    ensures Ceil(1.0 / third) as real * third >= 1.0
  {
    var q := 1.0 / third;
    assert q * third == 1.0;
    assert q > 0.0;
    Scaled(q, Ceil(q) as real, third);
  }

  /** A sketch has room for a counter exactly if the asked third of the tolerance is below one. */
  lemma MoreThanOne(third: Third)
    ensures third < 1.0 <==> 2 <= Ceil(1.0 / third)
  {
    var q := 1.0 / third;
    assert q * third == 1.0;
    if q <= 1.0 {
      Scaled(q, 1.0, third);
    } else {
      Scaled(1.0, q, third);
    }
  }

  lemma LossSum(k: real, third: real, u: real, v: real, n: real)
    requires k * third >= 1.0 && u >= 0.0 && third > 0.0 && k * u <= n && v <= n * third
    ensures u + v <= 2.0 * third * n
  {
    var p, q := k * u, n * third;
    ScaledUp(k, third, u, p);
    Scaled(p, n, third);
    assert 2.0 * third * n == 2.0 * q;
  }

  lemma Expand(n: real, frac: real, third: real, q: real)
    ensures n * (frac - third - q) == frac * n - n * third - n * q
  {
  }

  lemma Share(k: real, u: real, n: real)
    requires k > 0.0 && k * u <= n
    ensures u <= n * (1.0 / k)
  {
    var q := 1.0 / k;
    Scaled(k * u, n, q);
    assert (k * u) * q == u * (k * q);
    assert k * q == 1.0;
  }
}
