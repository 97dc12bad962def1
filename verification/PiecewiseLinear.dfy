/** The piecewise-linear approximation of pla.h and pla.cpp. */
module PiecewiseLinear {

  datatype Point = Point(x: nat, y: real)

  datatype Segment = Segment(start: nat, end: nat, slope: real, intercept: real) {
    function At(t: nat): real {
      slope * t as real + intercept
    }
  }

  /** A bound on the slope; the extreme double values stand for no bound. */
  datatype Bound = Unbounded | Finite(v: real)

  function Slope(a: Point, x: nat, y: real): real
    requires a.x < x
  {
    (y - a.y) / (x - a.x) as real
  }

  function Higher(b: Bound, v: real): real {
    if b.Unbounded? || b.v < v then v else b.v
  }

  function Lower(b: Bound, v: real): real {
    if b.Unbounded? || v < b.v then v else b.v
  }

  ghost predicate Near(tol: real, a: real, b: real) {
    a - tol <= b <= a + tol
  }

  /** The line of slope s through the point. */
  function Line(from: Point, s: real, x: nat): real {
    from.y + s * (x as real - from.x as real)
  }

  /** Every slope within the bounds passes the point within the tolerance. */
  ghost predicate Passes(tol: real, from: Point, lo: Bound, hi: Bound, p: Point) {
    from.x < p.x && forall s: real :: InFan(lo, hi, s) ==> Near(tol, p.y, Line(from, s, p.x))
  }

  ghost predicate InFan(lo: Bound, hi: Bound, s: real) {
    (lo.Finite? ==> lo.v <= s) && (hi.Finite? ==> s <= hi.v)
  }

  lemma Quotient(v: real, d: real, s: real)
    requires d > 0.0
    ensures (v / d) * d == v
    ensures v / d <= s <==> v <= s * d
    ensures s <= v / d <==> s * d <= v
  {
    var q := v / d;
    assert q * d == v;
    if q <= s { Product(q, s, d); } else { StrictProduct(s, q, d); }
    if s <= q { Product(s, q, d); } else { StrictProduct(q, s, d); }
  }

  lemma Product(a: real, b: real, d: real)
    requires a <= b && d > 0.0
    ensures a * d <= b * d
  {
  }

  /** Narrowing the fan to the point's tolerance makes it pass, and those before it still pass. */
  lemma NarrowPasses(tol: real, from: Point, lo: Bound, hi: Bound, p: Point)
    requires from.x < p.x
    ensures Passes(tol, from, Finite(Higher(lo, Slope(from, p.x, p.y - tol))),
        Finite(Lower(hi, Slope(from, p.x, p.y + tol))), p)
  {
    hide Slope, Line;
    var lo', hi' := Finite(Higher(lo, Slope(from, p.x, p.y - tol))), Finite(Lower(hi, Slope(from, p.x, p.y + tol)));
    forall s: real | InFan(lo', hi', s) ensures Near(tol, p.y, Line(from, s, p.x)) { NearIsBetween(tol, from, s, p); }
  }

  /** A line through `from` passes near p exactly if its slope lies between those to the ends of the tolerance. */
  lemma NearIsBetween(tol: real, from: Point, s: real, p: Point)
    requires from.x < p.x
    ensures Near(tol, p.y, Line(from, s, p.x)) <==> Slope(from, p.x, p.y - tol) <= s <= Slope(from, p.x, p.y + tol)
  {
    var d := (p.x - from.x) as real;
    assert d == p.x as real - from.x as real;
    hide Line;
    LineAt(from, s, p.x, d);
    Quotient(p.y - tol - from.y, d, s);
    Quotient(p.y + tol - from.y, d, s);
  }

  lemma LineAt(from: Point, s: real, x: nat, d: real)
    requires d == x as real - from.x as real
    ensures Line(from, s, x) == from.y + s * d
  {
  }

  lemma NarrowKeeps(tol: real, from: Point, lo: Bound, hi: Bound, a: real, b: real, p: Point)
    requires Passes(tol, from, lo, hi, p)
    ensures Passes(tol, from, Finite(Higher(lo, a)), Finite(Lower(hi, b)), p)
  {
    var lo', hi' := Finite(Higher(lo, a)), Finite(Lower(hi, b));
    forall s: real | InFan(lo', hi', s) ensures Near(tol, p.y, Line(from, s, p.x)) { assert InFan(lo, hi, s); }
  }

  /** Right after a break the fan to the next point is not empty. */
  lemma FreshFan(tol: real, from: Point, p: Point)
    requires from.x < p.x && 0.0 <= tol
    ensures Slope(from, p.x, p.y - tol) <= Slope(from, p.x, p.y + tol)
  {
    var d := (p.x - from.x) as real;
    var a, b := p.y - tol - from.y, p.y + tol - from.y;
    Quotient(a, d, a / d);
    Quotient(b, d, b / d);
    if b / d < a / d {
      StrictProduct(b / d, a / d, d);
    }
  }

  lemma StrictProduct(a: real, b: real, d: real)
    requires d > 0.0
    ensures a < b ==> a * d < b * d
  {
  }

  // ----- the slopes there are

  /** The line of slope s passes the points from a up to b. */
  ghost predicate PassesAll(tol: real, from: Point, s: real, points: seq<Point>, a: nat, b: nat)
    requires b <= |points|
  {
    forall i | a <= i < b :: Near(tol, points[i].y, Line(from, s, points[i].x))
  }

  ghost predicate NonePasses(tol: real, from: Point, points: seq<Point>, a: nat, b: nat)
    requires b <= |points|
  {
    forall s: real :: !PassesAll(tol, from, s, points, a, b)
  }

  /** The slopes from lo to hi, and no others, pass the points from a up to b. */
  ghost predicate Fan(tol: real, from: Point, points: seq<Point>, a: nat, b: nat, lo: real, hi: real)
    requires b <= |points|
  {
    lo <= hi && forall s: real :: lo <= s <= hi <==> PassesAll(tol, from, s, points, a, b)
  }

  /**
   The segment passes the points over its time with the middle one of all slopes that do, and no slope
   would have passed the next point as well.
   */
  ghost predicate Chosen(tol: real, points: seq<Point>, seg: Segment) {
    exists a: nat, b: nat :: ChosenFrom(tol, points, seg, a, b)
  }

  ghost predicate ChosenFrom(tol: real, points: seq<Point>, seg: Segment, a: nat, b: nat) {
    var from := Point(seg.start, seg.At(seg.start));
    && 0 < a < b < |points| && points[a - 1].x == seg.start && points[b - 1].x == seg.end
    && (exists lo: real, hi: real :: Fan(tol, from, points, a, b, lo, hi) && seg.slope == (lo + hi) / 2.0)
    && NonePasses(tol, from, points, a, b + 1)
  }

  ghost predicate AllChosen(tol: real, points: seq<Point>, segs: seq<Segment>) {
    forall j :: 0 <= j < |segs| ==> Chosen(tol, points, segs[j])
  }

  /** Every slope that passes the points since is in the fan. */
  ghost predicate Tight(tol: real, points: seq<Point>, closed: nat, from: Point, lo: Bound, hi: Bound) {
    forall s: real | PassesAll(tol, from, s, points, closed, |points|) :: InFan(lo, hi, s)
  }

  lemma PassesMore(tol: real, from: Point, s: real, points: seq<Point>, p: Point, a: nat, b: nat)
    requires b <= |points|
    ensures PassesAll(tol, from, s, points + [p], a, b) == PassesAll(tol, from, s, points, a, b)
    ensures a <= |points| ==>
        (PassesAll(tol, from, s, points + [p], a, |points| + 1) <==>
           PassesAll(tol, from, s, points, a, |points|) && Near(tol, p.y, Line(from, s, p.x)))
  {
    hide Near, Line;
    var all := points + [p];
    assert all[|points|] == p && forall i :: 0 <= i < |points| ==> all[i] == points[i];
  }

  lemma TightMore(tol: real, points: seq<Point>, closed: nat, from: Point, lo: Bound, hi: Bound, p: Point)
    requires Tight(tol, points, closed, from, lo, hi) && from.x < p.x && closed <= |points|
    ensures Tight(tol, points + [p], closed, from,
                  Finite(Higher(lo, Slope(from, p.x, p.y - tol))), Finite(Lower(hi, Slope(from, p.x, p.y + tol))))
  {
    hide PassesAll, Near, Line, Slope;
    var a, b := Slope(from, p.x, p.y - tol), Slope(from, p.x, p.y + tol);
    forall s: real | PassesAll(tol, from, s, points + [p], closed, |points| + 1)
      ensures InFan(Finite(Higher(lo, a)), Finite(Lower(hi, b)), s)
    {
      PassesMore(tol, from, s, points, p, closed, |points|);
      NearIsBetween(tol, from, s, p);
      assert InFan(lo, hi, s);
    }
  }

  lemma TightFresh(tol: real, points: seq<Point>, from: Point)
    ensures Tight(tol, points, |points|, from, Unbounded, Unbounded)
  {
  }

  lemma ChosenMore(tol: real, points: seq<Point>, segs: seq<Segment>, p: Point)
    requires AllChosen(tol, points, segs)
    ensures AllChosen(tol, points + [p], segs)
  {
    forall j | 0 <= j < |segs| ensures Chosen(tol, points + [p], segs[j]) {
      var a: nat, b: nat :| ChosenFrom(tol, points, segs[j], a, b);
      ChosenStays(tol, points, segs[j], p, a, b);
    }
  }

  lemma ChosenStays(tol: real, points: seq<Point>, seg: Segment, p: Point, a: nat, b: nat)
    requires ChosenFrom(tol, points, seg, a, b)
    ensures ChosenFrom(tol, points + [p], seg, a, b)
  {
    hide PassesAll, Segment.At;
    var from, all := Point(seg.start, seg.At(seg.start)), points + [p];
    var c := b + 1;
    forall s: real
      ensures PassesAll(tol, from, s, all, a, b) == PassesAll(tol, from, s, points, a, b)
      ensures PassesAll(tol, from, s, all, a, c) == PassesAll(tol, from, s, points, a, c)
    {
      PassesMore(tol, from, s, points, p, a, b);
      PassesMore(tol, from, s, points, p, a, c);
    }
    assert NonePasses(tol, from, all, a, c) by { assert NonePasses(tol, from, points, a, c); }
    var lo: real, hi: real :| Fan(tol, from, points, a, b, lo, hi) && seg.slope == (lo + hi) / 2.0;
    assert Fan(tol, from, all, a, b, lo, hi);
  }

  // ----- closed segments

  function Through(from: Point, end: nat, s: real): Segment {
    Segment(from.x, end, s, from.y - s * from.x as real)
  }

  lemma ThroughIsLine(from: Point, end: nat, s: real, t: nat)
    ensures Through(from, end, s).At(t) == Line(from, s, t)
  {
    assert s * t as real - s * from.x as real == s * (t as real - from.x as real);
  }

  /** Segments follow one another without gap and without jump, up to the point `to`. */
  ghost predicate Joined(segs: seq<Segment>, from: Point, to: Point)
    decreases |segs|
  {
    if segs == [] then from == to
    else
      var s := segs[|segs| - 1];
      && s.start < s.end && s.end == to.x && s.At(to.x) == to.y
      && Joined(segs[..|segs| - 1], from, Point(s.start, s.At(s.start)))
  }

  /** Whatever segment covers the point's time reproduces it. */
  ghost predicate Reproduced(tol: real, segs: seq<Segment>, p: Point) {
    forall i :: 0 <= i < |segs| && segs[i].start <= p.x <= segs[i].end ==> Near(tol, p.y, segs[i].At(p.x))
  }

  lemma {:induction false} JoinedOrder(segs: seq<Segment>, from: Point, to: Point)
    requires Joined(segs, from, to)
    ensures from.x <= to.x && (segs != [] ==> segs[0].start == from.x && segs[|segs| - 1].end == to.x)
    ensures forall i :: 0 < i < |segs| ==> segs[i - 1].end == segs[i].start
    ensures forall i :: 0 <= i < |segs| ==> segs[i].start < segs[i].end <= to.x
    ensures forall i, j :: 0 <= i < j < |segs| ==> segs[i].end <= segs[j].start
    decreases |segs|
  {
    if segs != [] {
      var n := |segs| - 1;
      var s := segs[n];
      JoinedOrder(segs[..n], from, Point(s.start, s.At(s.start)));
      assert forall i :: 0 <= i < n ==> segs[..n][i] == segs[i];
    }
  }

  /** Where two segments meet they agree. */
  lemma {:induction false} JoinedMeets(segs: seq<Segment>, from: Point, to: Point, i: nat)
    requires Joined(segs, from, to) && i + 1 < |segs|
    ensures segs[i].end == segs[i + 1].start && segs[i].At(segs[i].end) == segs[i + 1].At(segs[i + 1].start)
    decreases |segs|
  {
    var n := |segs| - 1;
    var s := segs[n];
    if i + 1 < n { JoinedMeets(segs[..n], from, Point(s.start, s.At(s.start)), i); }
  }

  ghost predicate Covers(s: Segment, t: nat) {
    s.start <= t <= s.end
  }

  /** There is no gap: every time between the ends of the chain is covered. */
  lemma {:induction false} JoinedCovers(segs: seq<Segment>, from: Point, to: Point, t: nat) returns (i: nat)
    requires Joined(segs, from, to) && segs != [] && from.x <= t <= to.x
    ensures i < |segs| && Covers(segs[i], t)
    decreases |segs|
  {
    var n := |segs| - 1;
    i := n;
    if t < segs[n].start {
      i := JoinedCovers(segs[..n], from, Point(segs[n].start, segs[n].At(segs[n].start)), t);
    }
  }

  lemma FarApart(segs: seq<Segment>, from: Point, to: Point, i: nat, j: nat)
    requires Joined(segs, from, to) && i <= j < |segs|
    ensures i < j ==> segs[i].end <= segs[j].start
    ensures i + 1 < j ==> segs[i].end < segs[j].start
  {
    hide Segment.At, Joined;
    JoinedOrder(segs, from, to);
    if i + 1 < j { assert segs[i].end == segs[i + 1].start < segs[i + 1].end <= segs[j].start; }
  }

  /** No jump: whichever covering segment the search picks, the value is the same. */
  lemma {:induction false} CoversAgree(segs: seq<Segment>, from: Point, to: Point, i: nat, j: nat, t: nat)
    requires Joined(segs, from, to) && i <= j < |segs| && Covers(segs[i], t) && Covers(segs[j], t)
    ensures segs[i].At(t) == segs[j].At(t)
  {
    hide Segment.At, Joined;
    FarApart(segs, from, to, i, j);
    if i < j { JoinedMeets(segs, from, to, i); }
  }

  ghost predicate Increasing(points: seq<Point>) {
    forall i, j :: 0 <= i < j < |points| ==> points[i].x < points[j].x
  }

  lemma Earlier(points: seq<Point>, i: nat, j: nat)
    requires Increasing(points) && i < |points| && j < |points|
    ensures i < j ==> points[i].x < points[j].x
  {
  }

  /** A joint lies at the time of a point. */
  ghost predicate Met(points: seq<Point>, closed: nat, x: nat)
    requires closed <= |points|
  {
    exists i :: 0 <= i < closed && points[i].x == x
  }

  lemma MetMore(points: seq<Point>, closed: nat, more: seq<Point>, closed': nat, x: nat)
    requires closed <= |points| && Met(points, closed, x) && closed <= closed' <= |points + more|
    ensures Met(points + more, closed', x)
  {
    var i :| 0 <= i < closed && points[i].x == x;
    assert (points + more)[i].x == x;
  }

  lemma AllMetMore(points: seq<Point>, closed: nat, segs: seq<Segment>, more: seq<Point>, closed': nat)
    requires closed <= |points| && AllMet(points, closed, segs) && closed <= closed' <= |points + more|
    ensures AllMet(points + more, closed', segs)
  {
    forall j | 0 <= j < |segs| ensures Met(points + more, closed', segs[j].end) {
      MetMore(points, closed, more, closed', segs[j].end);
    }
  }

  ghost predicate AllMet(points: seq<Point>, closed: nat, segs: seq<Segment>)
    requires closed <= |points|
  {
    forall j :: 0 <= j < |segs| ==> Met(points, closed, segs[j].end)
  }

  /** The points behind the closed segments are reproduced by them. */
  ghost predicate ClosedFit(tol: real, points: seq<Point>, closed: nat, segs: seq<Segment>, begin: Point) {
    && 0 < closed <= |points| && begin.x == points[closed - 1].x
    && Joined(segs, points[0], begin) && Near(tol, points[closed - 1].y, begin.y)
    && AllMet(points, closed, segs)
    && forall i :: 0 <= i < closed ==> Reproduced(tol, segs, points[i])
  }

  /** The points since are passed by every slope in the fan. */
  ghost predicate OpenFit(tol: real, points: seq<Point>, closed: nat, begin: Point, lo: Bound, hi: Bound) {
    && (forall i :: closed <= i < |points| ==> Passes(tol, begin, lo, hi, points[i]))
    && (if closed == |points| then closed == 1 && begin == points[0] && lo.Unbounded? && hi.Unbounded?
        else lo.Finite? && hi.Finite? && lo.v <= hi.v)
  }

  ghost predicate Fits(tol: real, points: seq<Point>, closed: nat, segs: seq<Segment>, begin: Point, lo: Bound,
                       hi: Bound)
  {
    && Increasing(points)
    && ClosedFit(tol, points, closed, segs, begin) && OpenFit(tol, points, closed, begin, lo, hi)
    && Tight(tol, points, closed, begin, lo, hi) && AllChosen(tol, points, segs)
  }

  lemma IncreasingMore(points: seq<Point>, p: Point)
    requires Increasing(points) && (points != [] ==> points[|points| - 1].x < p.x)
    ensures Increasing(points + [p])
  {
    forall i | 0 <= i < |points| ensures points[i].x < p.x {
      if i < |points| - 1 { assert points[i].x < points[|points| - 1].x; }
    }
  }

  /** The fan still has a slope that passes the new point. */
  lemma ExtendFits(tol: real, points: seq<Point>, closed: nat, segs: seq<Segment>, begin: Point, lo: Bound, hi: Bound,
                   p: Point)
    requires Fits(tol, points, closed, segs, begin, lo, hi) && points[|points| - 1].x < p.x && begin.x < p.x
    requires Higher(lo, Slope(begin, p.x, p.y - tol)) <= Lower(hi, Slope(begin, p.x, p.y + tol))
    ensures Fits(tol, points + [p], closed, segs, begin,
                 Finite(Higher(lo, Slope(begin, p.x, p.y - tol))), Finite(Lower(hi, Slope(begin, p.x, p.y + tol))))
  {
    hide Joined, Reproduced, Passes, Slope, Higher, Lower, Near, Increasing, AllMet, Tight, AllChosen;
    IncreasingMore(points, p);
    TightMore(tol, points, closed, begin, lo, hi, p);
    ChosenMore(tol, points, segs, p);
    AllMetMore(points, closed, segs, [p], closed);
    var a, b := Slope(begin, p.x, p.y - tol), Slope(begin, p.x, p.y + tol);
    var all := points + [p];
    forall i | closed <= i < |all| ensures Passes(tol, begin, Finite(Higher(lo, a)), Finite(Lower(hi, b)), all[i]) {
      if i < |points| { NarrowKeeps(tol, begin, lo, hi, a, b, points[i]); }
        else { NarrowPasses(tol, begin, lo, hi, p); }
    }
    assert forall i :: 0 <= i < closed ==> all[i] == points[i];
  }

  function Middle(lo: Bound, hi: Bound): real
    requires lo.Finite? && hi.Finite?
  {
    (lo.v + hi.v) / 2.0
  }

  /** Closing the segment at the last point with the middle slope reproduces all points so far. */
  lemma CloseFits(tol: real, points: seq<Point>, closed: nat, segs: seq<Segment>, begin: Point, lo: Bound, hi: Bound)
    requires Fits(tol, points, closed, segs, begin, lo, hi) && closed < |points|
    ensures lo.Finite? && hi.Finite?
    ensures var last := points[|points| - 1];
            var seg := Through(begin, last.x, Middle(lo, hi));
            ClosedFit(tol, points, |points|, segs + [seg], Point(last.x, seg.At(last.x)))
  {
    hide Joined, Near, Increasing, Through, Segment.At, AllMet, Tight, AllChosen;
    var last := points[|points| - 1];
    var m := Middle(lo, hi);
    var seg := Through(begin, last.x, m);
    LastIsLater(points, closed);
    CloseMet(points, closed, segs, begin, m);
    CloseJoins(points[0], segs, begin, last.x, m);
    forall i | closed <= i < |points| ensures Near(tol, points[i].y, seg.At(points[i].x)) {
      assert Passes(tol, begin, lo, hi, points[i]);
      ThroughIsLine(begin, last.x, m, points[i].x);
      assert InFan(lo, hi, m);
    }
    forall i | 0 <= i < |points| ensures Reproduced(tol, segs + [seg], points[i]) {
      CloseReproduces(tol, points, closed, segs, begin, lo, hi, i, seg);
    }
  }

  lemma CloseMet(points: seq<Point>, closed: nat, segs: seq<Segment>, begin: Point, m: real)
    requires 0 < closed <= |points| && AllMet(points, closed, segs)
    ensures AllMet(points, |points|, segs + [Through(begin, points[|points| - 1].x, m)])
  {
    AllMetMore(points, closed, segs, [], |points|);
    assert points + [] == points;
  }

  lemma LastIsLater(points: seq<Point>, closed: nat)
    requires Increasing(points) && 0 < closed < |points|
    ensures points[closed - 1].x < points[|points| - 1].x
  {
  }

  lemma CloseJoins(from: Point, segs: seq<Segment>, begin: Point, end: nat, m: real)
    requires Joined(segs, from, begin) && begin.x < end
    ensures var seg := Through(begin, end, m); Joined(segs + [seg], from, Point(end, seg.At(end)))
  {
    var seg := Through(begin, end, m);
    ThroughIsLine(begin, end, m, begin.x);
    assert Line(begin, m, begin.x) == begin.y by { assert m * 0.0 == 0.0; }
    assert (segs + [seg])[..|segs|] == segs;
  }

  lemma CloseReproduces(tol: real, points: seq<Point>, closed: nat, segs: seq<Segment>, begin: Point, lo: Bound,
                        hi: Bound,
                        i: nat, seg: Segment)
    requires Fits(tol, points, closed, segs, begin, lo, hi) && i < |points| && closed < |points|
    requires seg == Through(begin, points[|points| - 1].x, Middle(lo, hi))
    requires closed <= i ==> Near(tol, points[i].y, seg.At(points[i].x))
    ensures Reproduced(tol, segs + [seg], points[i])
  {
    hide Joined, Near, Passes, Segment.At, AllMet, Tight, AllChosen;
    var p, all := points[i], segs + [seg];
    JoinedOrder(segs, points[0], begin);
    Earlier(points, i, closed - 1);
    ThroughIsLine(begin, points[|points| - 1].x, Middle(lo, hi), begin.x);
    assert Line(begin, Middle(lo, hi), begin.x) == begin.y by { assert Middle(lo, hi) * 0.0 == 0.0; }
    forall j | 0 <= j < |all| && all[j].start <= p.x <= all[j].end ensures Near(tol, p.y, all[j].At(p.x)) {
      if i < closed {
        if j < |segs| {
          assert Reproduced(tol, segs, p) && segs[j] == all[j];
        }
      } else {
        assert points[closed - 1].x < p.x;
      }
    }
  }

  /** The segment closed has the middle slope of the fan, which the new point leaves empty. */
  lemma CloseChooses(tol: real, points: seq<Point>, closed: nat, segs: seq<Segment>, begin: Point, lo: Bound, hi: Bound,
                     p: Point)
    requires Fits(tol, points, closed, segs, begin, lo, hi) && closed < |points| && begin.x < p.x
    requires Higher(lo, Slope(begin, p.x, p.y - tol)) > Lower(hi, Slope(begin, p.x, p.y + tol))
    ensures lo.Finite? && hi.Finite?
    ensures AllChosen(tol, points + [p], segs + [Through(begin, points[|points| - 1].x, Middle(lo, hi))])
  {
    hide Joined, Reproduced, Near, Line, Increasing, AllMet, Chosen, PassesAll, Slope;
    var n := |points|;
    var seg := Through(begin, points[n - 1].x, Middle(lo, hi));
    ChosenMore(tol, points, segs, p);
    ThroughIsLine(begin, points[n - 1].x, Middle(lo, hi), begin.x);
    LineStarts(begin, Middle(lo, hi));
    var c := n + 1;
    forall s: real
      ensures PassesAll(tol, begin, s, points + [p], closed, n) <==> lo.v <= s <= hi.v
      ensures !PassesAll(tol, begin, s, points + [p], closed, c)
    {
      PassesMore(tol, begin, s, points, p, closed, n);
      NearIsBetween(tol, begin, s, p);
      FanPasses(tol, points, closed, begin, lo, hi, s);
    }
    assert NonePasses(tol, begin, points + [p], closed, c);
    assert Fan(tol, begin, points + [p], closed, n, lo.v, hi.v);
    ChosenIs(tol, points + [p], seg, closed, n, lo.v, hi.v);
  }

  /** All that are in the fan pass the points since. */
  lemma FanPasses(tol: real, points: seq<Point>, closed: nat, from: Point, lo: Bound, hi: Bound, s: real)
    requires OpenFit(tol, points, closed, from, lo, hi) && Tight(tol, points, closed, from, lo, hi)
    ensures PassesAll(tol, from, s, points, closed, |points|) <==> InFan(lo, hi, s)
  {
    hide Near, Line;
    if InFan(lo, hi, s) {
      forall i | closed <= i < |points| ensures Near(tol, points[i].y, Line(from, s, points[i].x)) {
        assert Passes(tol, from, lo, hi, points[i]);
      }
    }
  }

  lemma ChosenIs(tol: real, points: seq<Point>, seg: Segment, a: nat, b: nat, lo: real, hi: real)
    requires 0 < a < b < |points| && points[a - 1].x == seg.start && points[b - 1].x == seg.end
    requires Fan(tol, Point(seg.start, seg.At(seg.start)), points, a, b, lo, hi) && seg.slope == (lo + hi) / 2.0
    requires NonePasses(tol, Point(seg.start, seg.At(seg.start)), points, a, b + 1)
    ensures Chosen(tol, points, seg)
  {
    hide PassesAll, Fan, Segment.At;
    assert ChosenFrom(tol, points, seg, a, b);
  }

  /** A fresh fan from the joint passes the new point. */
  lemma FreshFits(tol: real, points: seq<Point>, segs: seq<Segment>, begin: Point, p: Point)
    requires 0.0 <= tol && Increasing(points) && ClosedFit(tol, points, |points|, segs, begin) && begin.x < p.x
    requires AllChosen(tol, points + [p], segs)
    ensures Fits(tol, points + [p], |points|, segs, begin,
                 Finite(Slope(begin, p.x, p.y - tol)), Finite(Slope(begin, p.x, p.y + tol)))
  {
    hide Joined, Reproduced, Passes, Slope, Near, Increasing, AllMet, Tight, AllChosen;
    IncreasingMore(points, p);
    TightFresh(tol, points, begin);
    TightMore(tol, points, |points|, begin, Unbounded, Unbounded, p);
    AllMetMore(points, |points|, segs, [p], |points|);
    FreshFan(tol, begin, p);
    NarrowPasses(tol, begin, Unbounded, Unbounded, p);
    assert Higher(Unbounded, Slope(begin, p.x, p.y - tol)) == Slope(begin, p.x, p.y - tol);
    assert Lower(Unbounded, Slope(begin, p.x, p.y + tol)) == Slope(begin, p.x, p.y + tol);
    assert forall i :: 0 <= i < |points| ==> (points + [p])[i] == points[i];
  }

  lemma FirstFits(tol: real, p: Point)
    requires 0.0 <= tol
    ensures Fits(tol, [p], 1, [], p, Unbounded, Unbounded)
  {
  }

  // ----- between the points

  lemma SegmentTurns(seg: Segment, a: nat, b: nat)
    requires a <= b
    ensures if 0.0 <= seg.slope then seg.At(a) <= seg.At(b) else seg.At(b) <= seg.At(a)
  {
    var m, d := seg.slope, (b - a) as real;
    assert m * b as real == m * a as real + m * d;
    assert if 0.0 <= m then 0.0 <= m * d else m * d <= 0.0;
  }

  /** A closed segment over a time between two neighbouring points covers both of them. */
  lemma Straddles(points: seq<Point>, closed: nat, segs: seq<Segment>, from: Point, to: Point, i: nat, j: nat, t: nat)
    requires Increasing(points) && 0 < closed <= |points| && Joined(segs, from, to) && AllMet(points, closed, segs)
    requires from.x == points[0].x && i + 1 < |points| && points[i].x < t < points[i + 1].x && j < |segs|
        && Covers(segs[j], t)
    ensures segs[j].start <= points[i].x && points[i + 1].x <= segs[j].end
  {
    hide Joined, Segment.At;
    JoinedOrder(segs, from, to);
    var e :| 0 <= e < closed && points[e].x == segs[j].end;
    Earlier(points, e, i);
    Earlier(points, i + 1, e);
    if 0 < j {
      assert Met(points, closed, segs[j - 1].end);
      var b :| 0 <= b < closed && points[b].x == segs[j - 1].end;
      Earlier(points, i + 1, b);
      Earlier(points, b, i);
    } else {
      Earlier(points, 0, i);
    }
  }

  lemma SegmentBetween(tol: real, seg: Segment, p: Point, q: Point, t: nat)
    requires p.x <= t <= q.x && p.y <= q.y && Near(tol, p.y, seg.At(p.x)) && Near(tol, q.y, seg.At(q.x))
    ensures p.y - tol <= seg.At(t) <= q.y + tol
  {
    hide Segment.At;
    SegmentTurns(seg, p.x, t);
    SegmentTurns(seg, t, q.x);
  }

  lemma OpenBetween(tol: real, from: Point, m: real, p: Point, q: Point, t: nat)
    requires p.x <= t <= q.x && p.y <= q.y && Near(tol, p.y, Line(from, m, p.x)) && Near(tol, q.y, Line(from, m, q.x))
    ensures p.y - tol <= Line(from, m, t) <= q.y + tol
  {
    ThroughIsLine(from, 0, m, p.x);
    ThroughIsLine(from, 0, m, q.x);
    ThroughIsLine(from, 0, m, t);
    SegmentBetween(tol, Through(from, 0, m), p, q, t);
  }

  lemma LineStarts(from: Point, s: real)
    ensures Line(from, s, from.x) == from.y
  {
    assert s * 0.0 == 0.0;
  }

  /** The points but for the last if that is of time x. */
  function Replaced(points: seq<Point>, x: nat): seq<Point> {
    if points != [] && points[|points| - 1].x == x then points[..|points| - 1] else points
  }

  lemma UndoneIs(segs: seq<Segment>, begin: Point)
    ensures segs != [] && segs[|segs| - 1].start == begin.x ==> Undone(segs, begin) == segs[..|segs| - 1]
    ensures segs == [] || segs[|segs| - 1].start != begin.x ==> Undone(segs, begin) == segs
  {
  }

  lemma UndoesLast(segs: seq<Segment>, begin: Point, seg: Segment, end: nat, slope: real)
    requires seg == Through(begin, end, slope)
    ensures Undone(segs + [seg], begin) == segs && (segs + [seg])[|segs|].start == begin.x
  {
    assert (segs + [seg])[..|segs|] == segs;
  }

  lemma NeverAfter(segs: seq<Segment>, from: Point, to: Point)
    requires Joined(segs, from, to)
    ensures segs != [] ==> segs[|segs| - 1].start != to.x
  {
  }

  lemma EndsAgree(segs: seq<Segment>, from: Point, a: Point, b: Point)
    requires Joined(segs, from, a) && Joined(segs, from, b)
    ensures a.x == b.x
  {
  }

  /** The segments without the one that the last point closed, if it did: that starts where the fan before did. */
  function Undone(segs: seq<Segment>, begin: Point): seq<Segment> {
    if segs != [] && segs[|segs| - 1].start == begin.x then segs[..|segs| - 1] else segs
  }

  lemma NothingUndone(tol: real, points: seq<Point>, closed: nat, segs: seq<Segment>, begin: Point, lo: Bound,
                      hi: Bound)
    requires Fits(tol, points, closed, segs, begin, lo, hi)
    ensures Undone(segs, begin) == segs
  {
    hide Joined, Reproduced, Passes, Near, Tight, AllChosen, AllMet;
    JoinedOrder(segs, points[0], begin);
  }

  lemma FitsParts(tol: real, points: seq<Point>, closed: nat, segs: seq<Segment>, begin: Point, lo: Bound, hi: Bound)
    requires Fits(tol, points, closed, segs, begin, lo, hi)
    ensures points != [] && 0 < closed <= |points| && begin.x <= points[|points| - 1].x && Increasing(points)
    ensures begin.x == points[closed - 1].x && Joined(segs, points[0], begin)
    ensures closed < |points| ==> lo.Finite? && hi.Finite?
    ensures closed == |points| ==> lo.Unbounded? && hi.Unbounded? && begin == points[|points| - 1] && closed == 1
  {
    hide Joined, Reproduced, Passes, Near, Tight, AllChosen, AllMet;
    assert closed < |points| ==> points[closed - 1].x < points[|points| - 1].x;
  }

  class PLA {
    const tolerance: real
    var result: seq<Segment>
    var lower: Bound
    var upper: Bound
    var begin: Point
    var last: Point
    var initialized: bool
    var bufferLower: Bound
    var bufferUpper: Bound
    var bufferBegin: Point
    var bufferLast: Point
    var bufferInitialized: bool
    ghost var points: seq<Point>
    ghost var closed: nat
    ghost var wasClosed: nat

    /** The points fed so far, the first `closed` of them behind closed segments. */
    ghost predicate Valid()
      reads this
    {
      && 0.0 <= tolerance
      && (if bufferInitialized then
            && Fits(tolerance, points, closed, result, bufferBegin, bufferLower, bufferUpper)
            && bufferLast == points[|points| - 1]
            && (if initialized then Undoable()
                else |points| == 1 && result == [] && bufferLower.Unbounded? && bufferUpper.Unbounded?)
          else points == [] && result == [] && !initialized && bufferLower.Unbounded? && bufferUpper.Unbounded?)
    }

    lemma UnfedParts()
      requires Valid() && points == []
      ensures !bufferInitialized
    {
      hide Fits;
      if bufferInitialized { FedParts(); }
    }

    lemma FewBroken()
      requires Valid() && bufferInitialized && |points| <= 2
      ensures !Broken()
    {
      hide Fits;
      TwoTimes(tolerance, points, closed, result, bufferBegin, bufferLower, bufferUpper);
    }

    lemma ThreeTimes()
      requires Valid() && 2 <= |points|
      ensures bufferInitialized && initialized
    {
      hide Fits, Undoable;
    }

    lemma GapFrom(t: nat)
      requires Gapped() && result == [] && t == points[0].x
      ensures t < bufferBegin.x && Uncovered(t)
    {
    }

    /** The last point closed a segment. */
    predicate Broken()
      reads this
    {
      |result| > 0 && result[|result| - 1].start == begin.x
    }

    /** The other fields are as they were before the last point. */
    ghost predicate Undoable()
      reads this
    {
      && 2 <= |points| && last == points[|points| - 2]
      && (if Broken() then bufferBegin.x == last.x else bufferBegin == begin)
      && Fits(tolerance, points[..|points| - 1], wasClosed, Undone(result, begin), begin, lower, upper)
    }

    constructor (delta: real)
      requires 0.0 <= delta
      ensures Valid() && points == [] && tolerance == delta
    {
      tolerance := delta;
      result, points, closed, wasClosed := [], [], 0, 0;
      lower, upper, bufferLower, bufferUpper := Unbounded, Unbounded, Unbounded, Unbounded;
      begin, last, bufferBegin, bufferLast := Point(0, 0.0), Point(0, 0.0), Point(0, 0.0), Point(0, 0.0);
      initialized, bufferInitialized := false, false;
    }

    method Clear()
      requires 0.0 <= tolerance
      modifies this
      ensures Valid() && points == []
    {
      result, points, closed, wasClosed := [], [], 0, 0;
      lower, upper, bufferLower, bufferUpper := Unbounded, Unbounded, Unbounded, Unbounded;
      initialized, bufferInitialized := false, false;
    }

    lemma FedParts()
      requires Valid() && bufferInitialized
      ensures points != [] && 0 < closed <= |points| && bufferBegin.x <= bufferLast.x == points[|points| - 1].x
      ensures Increasing(points) && bufferLast == points[|points| - 1]
      ensures closed < |points| ==> bufferLower.Finite? && bufferUpper.Finite?
      ensures closed == |points| ==> bufferLower.Unbounded? && bufferUpper.Unbounded? && bufferBegin == bufferLast
    {
      hide Fits;
      FitsParts(tolerance, points, closed, result, bufferBegin, bufferLower, bufferUpper);
    }

    /** The fan before the last point has a slope for this one. */
    predicate Extends(current: Point)
      reads `lower, `upper, `begin
    {
      && begin.x < current.x
      && Higher(lower, Slope(begin, current.x, current.y - tolerance))
         <= Lower(upper, Slope(begin, current.x, current.y + tolerance))
    }

    /**
     The point takes the place of one that closed a segment, and needs no new one: the segment is taken
     back, but the next one goes on from its end.
     */
    predicate Spoils(current: Point)
      reads this
    {
      bufferInitialized && initialized && current.x == bufferLast.x && Broken() && Extends(current)
    }

    /** Then nothing covers the times of that segment. */
    ghost predicate Gapped()
      reads this
    {
      && bufferInitialized && points != [] && bufferLast == points[|points| - 1]
      && Joined(result, points[0], begin) && begin.x < bufferBegin.x < bufferLast.x
      && bufferLower.Finite? && bufferUpper.Finite?
    }

    /** `feed`: a point at the time of the last one takes its place; all stays well exactly if it does not spoil it. */
    method Feed(current: Point)
      requires Valid() && (points != [] ==> points[|points| - 1].x <= current.x)
      modifies this
      ensures points == Replaced(old(points), current.x) + [current] && bufferInitialized
      ensures Valid() <==> !old(Spoils(current))
      ensures old(Spoils(current)) ==> Gapped() && result == old(Undone(result, begin)) && begin == old(begin)
      ensures old(bufferInitialized) && old(bufferLast).x < current.x ==>
                && initialized && begin == old(bufferBegin) && lower == old(bufferLower) && upper == old(bufferUpper)
                && Undone(result, begin) == old(result) && (Broken() <==> !Extends(current))
    {
      hide Fits, Undone, Extends, Gapped;
      if bufferInitialized && bufferLast.x < current.x {
        NotBroken();
        lower, upper, last, begin, initialized := bufferLower, bufferUpper, bufferLast, bufferBegin, bufferInitialized;
        wasClosed := closed;
      } else {
        UndoneIs(result, begin);
        if initialized { UndoneParts(); }
        if |result| > 0 && result[|result| - 1].start == begin.x {
          result := result[..|result| - 1];
        }
        if initialized { points, closed := points[..|points| - 1], wasClosed; }
      }
      if !initialized {
        bufferLast, bufferBegin, bufferInitialized := current, current, true;
        FirstFits(tolerance, current);
        points, closed := [current], 1;
        return;
      }
      Step(current);
    }

    /** What the fields tell of the time before the last point. */
    lemma UndoneParts()
      requires Valid() && bufferInitialized && initialized
      ensures 2 <= |points| && last == points[|points| - 2] && last.x < bufferLast.x && begin.x <= last.x
      ensures Fits(tolerance, points[..|points| - 1], wasClosed, Undone(result, begin), begin, lower, upper)
      ensures if Broken() then bufferBegin.x == last.x && begin.x < last.x else bufferBegin == begin
    {
      hide Fits;
      FitsParts(tolerance, points, closed, result, bufferBegin, bufferLower, bufferUpper);
      FitsParts(tolerance, points[..|points| - 1], wasClosed, Undone(result, begin), begin, lower, upper);
      Earlier(points, |points| - 2, |points| - 1);
      if Broken() { JoinedOrder(result, points[0], bufferBegin); }
    }

    lemma NotBroken()
      requires Valid() && bufferInitialized
      ensures result == [] || result[|result| - 1].start != bufferBegin.x
      ensures points != [] && bufferLast == points[|points| - 1]
    {
      hide Fits;
      FitsParts(tolerance, points, closed, result, bufferBegin, bufferLower, bufferUpper);
      JoinedOrder(result, points[0], bufferBegin);
    }

    /** The point is fed to what the fields hold of those before. */
    method Step(current: Point)
      requires Fits(tolerance, points, closed, result, begin, lower, upper) && closed == wasClosed && 0.0 <= tolerance
      requires bufferInitialized && initialized && points != [] && last == points[|points| - 1] && last.x < current.x
      requires bufferBegin == begin || begin.x < bufferBegin.x == last.x
      modifies `result, `bufferBegin, `bufferLower, `bufferUpper, `bufferLast, `points, `closed
      ensures points == old(points) + [current]
      ensures Undone(result, begin) == old(result) && (Broken() <==> !Extends(current))
      ensures old(Extends(current)) ==> result == old(result)
      ensures old(bufferBegin) == begin || !old(Extends(current)) ==> Valid()
      ensures old(bufferBegin) != begin && old(Extends(current)) ==>
                !Valid() && Gapped() && bufferBegin == old(bufferBegin)
    {
      hide Fits, Undone, Joined, Slope;
      FitsParts(tolerance, points, closed, result, begin, lower, upper);
      NothingUndone(tolerance, points, closed, result, begin, lower, upper);
      UndoneIs(result, begin);
      NeverAfter(result, points[0], begin);
      assert (points + [current])[..|points|] == points;
      var lower' := Higher(lower, Slope(begin, current.x, current.y - tolerance));
      var upper' := Lower(upper, Slope(begin, current.x, current.y + tolerance));
      if lower' <= upper' {
        ExtendFits(tolerance, points, closed, result, begin, lower, upper, current);
        bufferLower, bufferUpper := Finite(lower'), Finite(upper');
        points := points + [current];
        bufferLast := current;
        if bufferBegin != begin { OneEnd(); }
      } else {
        Break(current);
        bufferLast := current;
      }
    }

    /** The segments do not end in two places. */
    lemma OneEnd()
      requires bufferInitialized && points != [] && Joined(result, points[0], begin) && begin.x != bufferBegin.x
      ensures !Valid()
    {
      hide Fits;
      if Valid() {
        FitsParts(tolerance, points, closed, result, bufferBegin, bufferLower, bufferUpper);
        EndsAgree(result, points[0], begin, bufferBegin);
      }
    }

    /** No slope is left: close the segment at the last point and start the next from its end. */
    method Break(current: Point)
      requires Fits(tolerance, points, closed, result, begin, lower, upper) && 0.0 <= tolerance
      requires last == points[|points| - 1] && last.x < current.x && begin.x < current.x
      requires Higher(lower, Slope(begin, current.x, current.y - tolerance)) > Lower(upper,
          Slope(begin, current.x, current.y + tolerance))
      modifies `result, `bufferBegin, `bufferLower, `bufferUpper, `points, `closed
      ensures Fits(tolerance, points, closed, result, bufferBegin, bufferLower, bufferUpper)
      ensures points == old(points) + [current] && Undone(result, begin) == old(result)
      ensures Broken() && bufferBegin.x == last.x
    {
      hide Fits, ClosedFit, Slope, Through, Segment.At, Middle, AllChosen, Undone;
      FitsParts(tolerance, points, closed, result, begin, lower, upper);
      FreshFan(tolerance, begin, current);
      CloseFits(tolerance, points, closed, result, begin, lower, upper);
      CloseChooses(tolerance, points, closed, result, begin, lower, upper, current);
      var slope := Middle(lower, upper);
      var seg := Through(begin, last.x, slope);
      UndoesLast(result, begin, seg, last.x, slope);
      result := result + [seg];
      bufferBegin := Point(last.x, seg.At(last.x));
      FreshFits(tolerance, points, result, bufferBegin, current);
      bufferLower := Finite(Slope(bufferBegin, current.x, current.y - tolerance));
      bufferUpper := Finite(Slope(bufferBegin, current.x, current.y + tolerance));
      closed := |points|;
      points := points + [current];
    }

    /** The value the fitted curve has at time t: on the covering closed segment or on the open one. */
    ghost predicate OnCurve(t: nat, v: real)
      reads this
      requires Valid() && bufferInitialized
    {
      if bufferLast.x <= t then v == bufferLast.y
      else if bufferBegin.x <= t then
        bufferLower.Finite? && bufferUpper.Finite? && v == Line(bufferBegin, Middle(bufferLower, bufferUpper), t)
      else if points[0].x <= t then exists i :: 0 <= i < |result| && Covers(result[i], t) && v == result[i].At(t)
      else v == 0.0
    }

    /** The curve has one value at each time, where two segments meet as well. */
    lemma CurveIsOne(t: nat, v: real, w: real)
      requires Valid() && bufferInitialized && OnCurve(t, v) && OnCurve(t, w)
      ensures v == w
    {
      hide Joined, Line, Segment.At, Covers, Reproduced, AllMet, Passes, Increasing;
      if t < bufferLast.x && t < bufferBegin.x && points[0].x <= t {
        var i :| 0 <= i < |result| && Covers(result[i], t) && v == result[i].At(t);
        var j :| 0 <= j < |result| && Covers(result[j], t) && w == result[j].At(t);
        if i <= j {
          CoversAgree(result, points[0], bufferBegin, i, j, t);
        } else {
          CoversAgree(result, points[0], bufferBegin, j, i, t);
        }
      }
    }

    /** The curve passes every point ever fed within the tolerance, and the last one exactly. */
    lemma CurveFits(i: nat, v: real)
      requires Valid() && i < |points| && OnCurve(points[i].x, v)
      ensures Near(tolerance, points[i].y, v)
      ensures i == |points| - 1 ==> v == points[i].y
    {
      hide Joined, Line, Segment.At, Tight, AllChosen, Undone, Undoable, AllMet;
      var p := points[i];
      if i < |points| - 1 {
        assert p.x < points[|points| - 1].x && points[0].x <= p.x;
        if closed <= i {
          assert points[closed - 1].x < p.x;
          assert Passes(tolerance, bufferBegin, bufferLower, bufferUpper, p);
          assert InFan(bufferLower, bufferUpper, Middle(bufferLower, bufferUpper));
        } else if i == closed - 1 {
          assert Line(bufferBegin, Middle(bufferLower, bufferUpper), p.x) == bufferBegin.y by {
            LineStarts(bufferBegin, Middle(bufferLower, bufferUpper));
          }
        } else {
          assert p.x < points[closed - 1].x;
          assert Reproduced(tolerance, result, p);
        }
      }
    }

    /** Between two points that rise the curve stays between them, up to the tolerance. */
    lemma CurveBetween(i: nat, t: nat, v: real)
      requires Valid() && i + 1 < |points| && points[i].x <= t <= points[i + 1].x && points[i].y <= points[i + 1].y
      requires OnCurve(t, v)
      ensures points[i].y - tolerance <= v <= points[i + 1].y + tolerance
    {
      hide Joined, Line, Segment.At, Reproduced, Increasing, AllMet, Passes, Tight, AllChosen, Undone, Undoable;
      if t == points[i].x {
        CurveFits(i, v);
      } else if t == points[i + 1].x {
        CurveFits(i + 1, v);
      } else {
        Earlier(points, i + 1, |points| - 1);
        Earlier(points, 0, i);
        Earlier(points, i + 1, closed - 1);
        Earlier(points, closed - 1, i);
        if bufferBegin.x <= t {
          OpenFits(i);
          OpenFits(i + 1);
          OpenBetween(tolerance, bufferBegin, Middle(bufferLower, bufferUpper), points[i], points[i + 1], t);
        } else {
          var j :| 0 <= j < |result| && Covers(result[j], t) && v == result[j].At(t);
          Straddles(points, closed, result, points[0], bufferBegin, i, j, t);
          ClosedFits(i, j);
          ClosedFits(i + 1, j);
          SegmentBetween(tolerance, result[j], points[i], points[i + 1], t);
        }
      }
    }

    lemma ClosedFits(i: nat, j: nat)
      requires Valid() && i < closed && j < |result| && bufferInitialized && Covers(result[j], points[i].x)
      ensures Near(tolerance, points[i].y, result[j].At(points[i].x))
    {
      hide Joined, Line, Segment.At, AllMet, Passes;
      assert Reproduced(tolerance, result, points[i]);
    }

    lemma OpenFits(i: nat)
      requires Valid() && closed - 1 <= i < |points| && bufferInitialized && closed < |points|
      ensures bufferLower.Finite? && bufferUpper.Finite?
      ensures Near(tolerance, points[i].y, Line(bufferBegin, Middle(bufferLower, bufferUpper), points[i].x))
    {
      hide Joined, Line, Segment.At, AllMet;
      var m := Middle(bufferLower, bufferUpper);
      if i == closed - 1 {
        LineStarts(bufferBegin, m);
      } else {
        assert Passes(tolerance, bufferBegin, bufferLower, bufferUpper, points[i]);
        assert InFan(bufferLower, bufferUpper, m);
      }
    }

    lemma CurveEnds(t: nat, v: real)
      requires Valid() && bufferInitialized && OnCurve(t, v)
      ensures points != [] && (t < points[0].x ==> v == 0.0)
      ensures points[|points| - 1].x <= t ==> v == points[|points| - 1].y
    {
      hide Joined, Line, Segment.At, Reproduced, AllMet, Passes;
      Earlier(points, 0, closed - 1);
      Earlier(points, 0, |points| - 1);
    }

    lemma ToleranceIsPositive()
      requires Valid()
      ensures 0.0 <= tolerance
    {
    }

    lemma UnfedIsEmpty()
      requires Valid() && !bufferInitialized
      ensures points == []
    {
    }

    /** `estimate`: a binary search for the covering segment; what no segment covers is estimated as 0. */
    method Estimate(t: nat) returns (v: real)
      requires Valid() || Gapped()
      ensures !bufferInitialized ==> v == 0.0
      ensures bufferInitialized && Valid() ==> OnCurve(t, v)
      ensures Valid() ==> forall i :: 0 <= i < |points| && points[i].x == t ==> Near(tolerance, points[i].y, v)
      ensures !Valid() && t < bufferBegin.x && Uncovered(t) ==> v == 0.0
    {
      hide Fits, Near, Line, Segment.At, Joined, Through, Undoable;
      if bufferInitialized {
        if Valid() {
          FedParts();
          FittedJoin();
        }
        v := 0.0;
        if t >= bufferLast.x {
          v := bufferLast.y;
        } else if t >= bufferBegin.x {
          var slope := Middle(bufferLower, bufferUpper);
          ThroughIsLine(bufferBegin, 0, slope, t);
          v := Through(bufferBegin, 0, slope).At(t);
        } else {
          v := Search(t, points[0], if Valid() then bufferBegin else begin);
          if Valid() { NothingBefore(t); }
        }
        if Valid() {
          forall i | 0 <= i < |points| && points[i].x == t ensures Near(tolerance, points[i].y, v) { CurveFits(i, v); }
        }
      } else {
        v := 0.0;
      }
    }

    ghost predicate Uncovered(t: nat)
      reads `result
    {
      forall i :: 0 <= i < |result| ==> !Covers(result[i], t)
    }

    lemma FittedJoin()
      requires Valid() && bufferInitialized
      ensures points != [] && Joined(result, points[0], bufferBegin)
    {
    }

    method Search(t: nat, ghost from: Point, ghost to: Point) returns (v: real)
      requires Joined(result, from, to)
      ensures if Uncovered(t) then v == 0.0
          else exists i :: 0 <= i < |result| && Covers(result[i], t) && v == result[i].At(t)
    {
      hide Segment.At, Joined;
      JoinedOrder(result, from, to);
      var l, r := 0, |result| - 1;
      while l <= r
        invariant 0 <= l <= |result| && -1 <= r < |result|
        invariant forall i :: 0 <= i < l ==> result[i].end < t
        invariant forall i :: r < i < |result| ==> t < result[i].start
        decreases r - l + 1
      {
        var m := (l + r) / 2;
        if result[m].start <= t && result[m].end >= t {
          return result[m].At(t);
        } else if result[m].start > t {
          r := m - 1;
        } else {
          l := m + 1;
        }
      }
      v := 0.0;
    }

    lemma NothingBefore(t: nat)
      requires Valid() && points != [] && bufferInitialized && t < bufferBegin.x
      ensures Uncovered(t) <==> t < points[0].x
    {
      hide Fits, Segment.At;
      FittedJoin();
      JoinedOrder(result, points[0], bufferBegin);
      if points[0].x <= t && result != [] { var i := JoinedCovers(result, points[0], bufferBegin, t); }
    }

    // ----- which curve it is

    /** Every closed segment has the middle slope of those that pass its points, and none passes the next. */
    lemma SegmentsAreChosen(j: nat)
      requires Valid() && j < |result|
      ensures Chosen(tolerance, points, result[j])
    {
      hide Joined, Tight, AllMet, Reproduced, Passes, Undoable, Chosen;
    }

    /** Behind the last joint the curve is half way between the lowest and the highest line that pass all points. */
    lemma CurveIsHalfway(t: nat, v: real) returns (lo: real, hi: real)
      requires Valid() && bufferInitialized && OnCurve(t, v) && bufferBegin.x <= t < bufferLast.x
      ensures Fan(tolerance, bufferBegin, points, closed, |points|, lo, hi)
      ensures v == (Line(bufferBegin, lo, t) + Line(bufferBegin, hi, t)) / 2.0
    {
      hide Joined, AllMet, Reproduced, Undoable, Chosen, AllChosen, Increasing;
      FedParts();
      lo, hi := bufferLower.v, bufferUpper.v;
      forall s: real ensures lo <= s <= hi <==> PassesAll(tolerance, bufferBegin, s, points, closed, |points|) {
        FanPasses(tolerance, points, closed, bufferBegin, bufferLower, bufferUpper, s);
      }
      HalfwayLine(bufferBegin, lo, hi, t);
    }

    /** To a single point behind the joint it is the straight line. */
    lemma StraightToOne(t: nat, v: real)
      requires Valid() && bufferInitialized && OnCurve(t, v) && bufferBegin.x <= t < bufferLast.x
      requires closed + 1 == |points|
      ensures v == Line(bufferBegin, Slope(bufferBegin, bufferLast.x, bufferLast.y), t)
    {
      hide Joined, AllMet, Reproduced, Undoable, Chosen, AllChosen, Increasing, Line, Slope, OnCurve;
      var lo, hi := CurveIsHalfway(t, v);
      FedParts();
      assert points[closed] == bufferLast;
      OneInFan(tolerance, bufferBegin, points, closed, lo, hi);
      HalfwayLine(bufferBegin, lo, hi, t);
    }
  }

  lemma HalfwayLine(from: Point, lo: real, hi: real, t: nat)
    ensures Line(from, (lo + hi) / 2.0, t) == (Line(from, lo, t) + Line(from, hi, t)) / 2.0
  {
    var d := t as real - from.x as real;
    assert (lo + hi) / 2.0 * d == (lo * d + hi * d) / 2.0;
  }

  /** The fan to one point reaches to both ends of its tolerance. */
  lemma OneInFan(tol: real, from: Point, points: seq<Point>, a: nat, lo: real, hi: real)
    requires a + 1 == |points| && Fan(tol, from, points, a, a + 1, lo, hi) && from.x < points[a].x && 0.0 <= tol
    ensures (lo + hi) / 2.0 == Slope(from, points[a].x, points[a].y)
  {
    hide Line, Near, Slope;
    var p := points[a];
    var u, v := Slope(from, p.x, p.y - tol), Slope(from, p.x, p.y + tol);
    FreshFan(tol, from, p);
    InOneFan(tol, from, points, a, lo, hi, lo);
    InOneFan(tol, from, points, a, lo, hi, hi);
    InOneFan(tol, from, points, a, lo, hi, u);
    InOneFan(tol, from, points, a, lo, hi, v);
    SlopesHalfway(from, p, tol);
  }

  lemma InOneFan(tol: real, from: Point, points: seq<Point>, a: nat, lo: real, hi: real, s: real)
    requires a + 1 == |points| && Fan(tol, from, points, a, a + 1, lo, hi) && from.x < points[a].x
    ensures lo <= hi
    ensures lo <= s <= hi <==>
              Slope(from, points[a].x, points[a].y - tol) <= s <= Slope(from, points[a].x, points[a].y + tol)
  {
    hide Line, Near, Slope;
    NearIsBetween(tol, from, s, points[a]);
    assert PassesAll(tol, from, s, points, a, a + 1) <==> Near(tol, points[a].y, Line(from, s, points[a].x));
  }

  lemma SlopesHalfway(from: Point, p: Point, tol: real)
    requires from.x < p.x
    ensures (Slope(from, p.x, p.y - tol) + Slope(from, p.x, p.y + tol)) / 2.0 == Slope(from, p.x, p.y)
  {
  }

  // ----- a run

  /** With no more than two times nothing has been closed. */
  lemma TwoTimes(tol: real, points: seq<Point>, closed: nat, segs: seq<Segment>, begin: Point, lo: Bound, hi: Bound)
    requires Fits(tol, points, closed, segs, begin, lo, hi) && |points| <= 2
    ensures segs == [] && points != [] && begin == points[0] && closed == 1
  {
    hide Tight, AllMet, Reproduced, Passes, Near;
    ClosingTakesThree(tol, points, segs);
    FitsParts(tol, points, closed, segs, begin, lo, hi);
    Earlier(points, 0, closed - 1);
  }

  lemma ClosingTakesThree(tol: real, points: seq<Point>, segs: seq<Segment>)
    requires AllChosen(tol, points, segs)
    ensures segs == [] || 3 <= |points|
  {
    if segs != [] { assert Chosen(tol, points, segs[0]); }
  }

  /** With no tolerance the fan to one point has one slope. */
  lemma OneSlope(points: seq<Point>, closed: nat, segs: seq<Segment>, begin: Point, lo: Bound, hi: Bound)
    requires Fits(0.0, points, closed, segs, begin, lo, hi) && |points| == 2
    ensures lo.Finite? && hi.Finite? && points[0].x < points[1].x
    ensures lo.v == hi.v == Slope(points[0], points[1].x, points[1].y)
  {
    hide Fits, Slope, Near, Line;
    TwoTimes(0.0, points, closed, segs, begin, lo, hi);
    FitsParts(0.0, points, closed, segs, begin, lo, hi);
    Earlier(points, 0, 1);
    FitsFan(0.0, points, closed, segs, begin, lo, hi);
    InOneFan(0.0, begin, points, 1, lo.v, hi.v, lo.v);
    InOneFan(0.0, begin, points, 1, lo.v, hi.v, hi.v);
  }

  lemma FitsFan(tol: real, points: seq<Point>, closed: nat, segs: seq<Segment>, begin: Point, lo: Bound, hi: Bound)
    requires Fits(tol, points, closed, segs, begin, lo, hi) && closed < |points|
    ensures lo.Finite? && hi.Finite? && Fan(tol, begin, points, closed, |points|, lo.v, hi.v)
  {
    hide Joined, AllMet, Reproduced, AllChosen;
    forall s: real ensures lo.v <= s <= hi.v <==> PassesAll(tol, begin, s, points, closed, |points|) {
      FanPasses(tol, points, closed, begin, lo, hi, s);
    }
  }

  /** After a rise by 2 a rise by 1 closes a segment, which a second point of that time takes back. */
  lemma ThirdSpoils(pla: PLA)
    requires pla.Valid() && pla.tolerance == 0.0
    requires pla.points == [Point(1, 1.0), Point(2, 3.0), Point(3, 4.0)]
    ensures pla.Spoils(Point(3, 5.0)) && Undone(pla.result, pla.begin) == []
  {
    hide Fits, Slope;
    var points := pla.points;
    pla.ThreeTimes();
    pla.UndoneParts();
    assert points[..2] == [points[0], points[1]];
    TwoTimes(0.0, points[..2], pla.wasClosed, Undone(pla.result, pla.begin), pla.begin, pla.lower, pla.upper);
    OneSlope(points[..2], pla.wasClosed, Undone(pla.result, pla.begin), pla.begin, pla.lower, pla.upper);
    Slopes(points[0]);
    pla.FedParts();
    UndoneIs(pla.result, pla.begin);
    NotStraight(pla);
  }

  lemma Slopes(from: Point)
    requires from == Point(1, 1.0)
    ensures Slope(from, 2, 3.0) == 2.0 == Slope(from, 3, 5.0)
  {
  }

  /** No line passes the three points, so that the joint is not the first of them. */
  lemma NotStraight(pla: PLA)
    requires pla.Valid() && pla.bufferInitialized && pla.tolerance == 0.0
    requires pla.points == [Point(1, 1.0), Point(2, 3.0), Point(3, 4.0)]
    ensures pla.bufferBegin != pla.points[0]
  {
    hide Joined, AllMet, Reproduced, AllChosen, Near, Tight, PLA.Undoable, Passes, PassesAll;
    pla.FedParts();
    FitsParts(0.0, pla.points, pla.closed, pla.result, pla.bufferBegin, pla.bufferLower, pla.bufferUpper);
    Earlier(pla.points, 0, 1);
    Earlier(pla.points, 0, 2);
    var s := if pla.bufferLower.Finite? then pla.bufferLower.v else 0.0;
    FanPasses(0.0, pla.points, pla.closed, pla.bufferBegin, pla.bufferLower, pla.bufferUpper, s);
    TwoLines(pla.points[0], pla.points, s);
  }

  lemma TwoLines(from: Point, points: seq<Point>, s: real)
    requires from == Point(1, 1.0) && points == [from, Point(2, 3.0), Point(3, 4.0)]
    ensures !PassesAll(0.0, from, s, points, 1, 3)
  {
    assert Near(0.0, points[1].y, Line(from, s, points[1].x)) <==> s == 2.0;
    assert Near(0.0, points[2].y, Line(from, s, points[2].x)) <==> s == 1.5;
  }

  /** So with two points for each of the times 2 and 3 the curve is 0 at time 1, for which 1 was fed. */
  method GapRun() returns (pla: PLA, v: real)
    ensures pla.points == [Point(1, 1.0), Point(2, 3.0), Point(3, 5.0)] && pla.tolerance == 0.0
    ensures !pla.Valid() && v == 0.0
  {
    hide PLA.Valid, PLA.Gapped, PLA.Extends, Slope;
    pla := new PLA(0.0);
    pla.UnfedParts();
    pla.Feed(Point(1, 1.0));
    pla.FedParts();
    pla.Feed(Point(2, 2.0));
    pla.FedParts();
    pla.FewBroken();
    pla.Feed(Point(2, 3.0));
    pla.FedParts();
    pla.Feed(Point(3, 4.0));
    ThirdSpoils(pla);
    pla.Feed(Point(3, 5.0));
    pla.GapFrom(1);
    v := pla.Estimate(1);
  }
}
