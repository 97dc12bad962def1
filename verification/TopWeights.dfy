/** The k largest of a bag of weights, and how a reservoir keeps them one weight at a time. */
module TopWeights {

  type Weights = multiset<real>

  ghost predicate IsLeast(ws: Weights, x: real) {
    x in ws && forall y :: y in ws ==> x <= y
  }

  lemma OneIsLeast(z: real)
    ensures IsLeast(multiset{z}, z)
  {
  }

  lemma LeastOfTwo(rest: Weights, z: real, x: real)
    requires IsLeast(rest, x)
    ensures IsLeast(rest + multiset{z}, if x <= z then x else z)
  {
  }

  lemma NoneIsEmpty(ws: Weights)
    requires forall z :: z !in ws
    ensures ws == multiset{}
  {
    forall z: real ensures ws[z] == multiset{}[z] { assert z !in ws; }
  }

  lemma {:induction false} HasLeast(ws: Weights)
    requires 0 < |ws|
    ensures exists x :: IsLeast(ws, x)
    decreases |ws|
  {
    hide IsLeast;
    if forall z :: z !in ws { NoneIsEmpty(ws); }
    var z :| z in ws;
    var rest := ws - multiset{z};
    assert ws == rest + multiset{z} && |rest| == |ws| - 1;
    if |rest| == 0 {
      assert rest == multiset{};
      assert ws == multiset{z};
      OneIsLeast(z);
    } else {
      HasLeast(rest);
      var x :| IsLeast(rest, x);
      LeastOfTwo(rest, z, x);
    }
  }

  ghost function Least(ws: Weights): (x: real)
    requires 0 < |ws|
    ensures IsLeast(ws, x)
  {
    HasLeast(ws);
    var x :| IsLeast(ws, x);
    x
  }

  lemma LeastIs(ws: Weights, x: real)
    requires IsLeast(ws, x)
    ensures 0 < |ws| && Least(ws) == x
  {
  }

  /** Drop the least weight until no more than k are left. */
  ghost function Best(k: nat, ws: Weights): (r: Weights)
    ensures r <= ws && |r| == if |ws| <= k then |ws| else k
    decreases |ws|
  {
    if |ws| <= k then ws else Best(k, ws - multiset{Least(ws)})
  }

  /** What a reservoir of k makes of one more weight. */
  ghost function Keep(k: nat, r: Weights, w: real): Weights
    requires 0 < k
  {
    if |r| < k then r + multiset{w}
    else if w < Least(r) then r
    else r - multiset{Least(r)} + multiset{w}
  }

  /** The k best weights are those that no other weight exceeds. */
  ghost predicate IsTop(k: nat, r: Weights, ws: Weights) {
    && r <= ws && |r| == (if |ws| <= k then |ws| else k)
    && forall x, y :: x in r && y in ws - r ==> y <= x
  }

  lemma {:induction false} BestIsTop(k: nat, ws: Weights)
    ensures IsTop(k, Best(k, ws), ws)
    decreases |ws|
  {
    if |ws| <= k {
      assert ws - ws == multiset{};
    } else {
      var l := Least(ws);
      var rest := ws - multiset{l};
      BestIsTop(k, rest);
      var r := Best(k, rest);
      forall x, y | x in r && y in ws - r ensures y <= x {
        if y != l { assert (ws - r)[y] == (rest - r)[y]; }
      }
    }
  }

  /** There is only one bag of k best weights. */
  lemma TopIsUnique(k: nat, r: Weights, s: Weights, ws: Weights)
    requires IsTop(k, r, ws) && IsTop(k, s, ws)
    ensures r == s
  {
    if y :| s[y] > r[y] {
      forall x ensures r[x] <= s[x] { NotBoth(k, r, s, ws, x, y); }
      SameSize(r, s);
    } else {
      SameSize(s, r);
    }
  }

  lemma NotBoth(k: nat, r: Weights, s: Weights, ws: Weights, x: real, y: real)
    requires IsTop(k, r, ws) && IsTop(k, s, ws)
    ensures !(r[x] > s[x] && s[y] > r[y])
  {
    assert r[x] > s[x] ==> x in r && x in ws - s;
    assert s[y] > r[y] ==> y in s && y in ws - r;
  }

  lemma SameSize(r: Weights, s: Weights)
    requires |r| == |s| && forall x :: r[x] <= s[x]
    ensures r == s
  {
    forall x ensures r[x] <= s[x] {}
    assert r <= s;
    assert s == r + (s - r);
    assert s - r == multiset{};
  }

  lemma LeastOfMore(ws: Weights, w: real)
    requires 0 < |ws|
    ensures Least(ws + multiset{w}) == if Least(ws) <= w then Least(ws) else w
  {
    var l := if Least(ws) <= w then Least(ws) else w;
    LeastIs(ws + multiset{w}, l);
  }

  /** One more weight: the reservoir step computes the k best of all. */
  lemma {:induction false} BestKeep(k: nat, ws: Weights, w: real)
    requires 0 < k
    ensures Best(k, ws + multiset{w}) == Keep(k, Best(k, ws), w)
    decreases |ws|
  {
    hide *;
    var more := ws + multiset{w};
    BestSmall(k, ws);
    if |ws| < k {
      BestSmall(k, more);
      KeepMore(k, ws, w);
    } else if Least(ws) <= w {
      DropLeast(k, ws, w);
      if |ws| > k {
        BestDrops(k, ws);
        LeastIn(ws);
        BestKeep(k, ws - multiset{Least(ws)}, w);
      } else {
        KeepNewer(k, ws, w);
      }
    } else {
      DropNew(k, ws, w);
    }
  }

  lemma BestSmall(k: nat, ws: Weights)
    ensures |ws| <= k ==> Best(k, ws) == ws
    ensures |ws + multiset{}| == |ws|
  {
  }

  lemma KeepMore(k: nat, ws: Weights, w: real)
    requires |ws| < k
    ensures Keep(k, ws, w) == ws + multiset{w} && |ws + multiset{w}| <= k
  {
  }

  lemma DropLeast(k: nat, ws: Weights, w: real)
    requires 0 < k <= |ws| && Least(ws) <= w
    ensures Best(k, ws + multiset{w}) == Best(k, (ws - multiset{Least(ws)}) + multiset{w})
  {
    hide IsLeast;
    LeastIn(ws);
    LeastOfMore(ws, w);
    BestDrops(k, ws + multiset{w});
    assert ws + multiset{w} - multiset{Least(ws)} == (ws - multiset{Least(ws)}) + multiset{w};
  }

  lemma KeepNewer(k: nat, ws: Weights, w: real)
    requires 0 < k == |ws| && Least(ws) <= w
    ensures Best(k, (ws - multiset{Least(ws)}) + multiset{w}) == Keep(k, ws, w)
  {
    LeastIn(ws);
  }

  lemma DropNew(k: nat, ws: Weights, w: real)
    requires 0 < k <= |ws| && w < Least(ws)
    ensures Best(k, ws + multiset{w}) == Keep(k, Best(k, ws), w)
  {
    hide IsLeast;
    LeastOfMore(ws, w);
    BestDrops(k, ws + multiset{w});
    assert ws + multiset{w} - multiset{w} == ws;
    LeastOfPart(Best(k, ws), ws);
  }

  lemma BestDrops(k: nat, ws: Weights)
    requires k < |ws|
    ensures Best(k, ws) == Best(k, ws - multiset{Least(ws)})
  {
  }

  lemma LeastIn(ws: Weights)
    requires 0 < |ws|
    ensures Least(ws) in ws
  {
  }

  lemma LeastOfPart(part: Weights, ws: Weights)
    requires part <= ws && 0 < |part|
    ensures 0 < |ws| && Least(ws) <= Least(part)
  {
    assert Least(part) in part;
    assert Least(part) in ws;
  }

  /** Only the k best of the first part matter for the k best of the whole. */
  lemma {:induction false} BestOfBest(k: nat, a: Weights, b: Weights)
    requires 0 < k
    ensures Best(k, a + b) == Best(k, Best(k, a) + b)
    decreases |b|
  {
    hide Best, Least, Keep;
    if |b| == 0 {
      assert b == multiset{};
      assert a + b == a && Best(k, a) + b == Best(k, a);
      BestIsBest(k, a);
    } else {
      var w := Least(b);
      var c := b - multiset{w};
      LeastIn(b);
      assert b == c + multiset{w};
      BestOfBest(k, a, c);
      BestKeep(k, a + c, w);
      BestKeep(k, Best(k, a) + c, w);
      AddLast(a, b, c, w);
      AddLast(Best(k, a), b, c, w);
    }
  }

  lemma AddLast(a: Weights, b: Weights, c: Weights, w: real)
    requires b == c + multiset{w}
    ensures a + b == (a + c) + multiset{w}
  {
  }

  lemma BestIsBest(k: nat, a: Weights)
    ensures Best(k, Best(k, a)) == Best(k, a)
  {
  }

  /** A weight below the k best of those before it never matters again. */
  lemma DropIsSafe(k: nat, a: Weights, w: real, b: Weights)
    requires 0 < k && k <= |a| && w < Least(Best(k, a))
    ensures Best(k, a + multiset{w} + b) == Best(k, a + b)
  {
    BestKeep(k, a, w);
    BestOfBest(k, a + multiset{w}, b);
    BestOfBest(k, a, b);
  }
}
