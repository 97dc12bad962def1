/** A heap of counters, with the place every counter keeps of itself (pmmg.h, InvertedIndexProxy). */
module CounterHeaps {
  import opened MinHeap

  function Self(i: nat): nat { i }

  /** The keys of all items but one are what they were. */
  ghost predicate Agree(was: nat -> real, key: nat -> real, items: set<nat>, except: nat) {
    forall i <- items :: i != except ==> was(i) == key(i)
  }

  /** The same, place by place. */
  ghost predicate AgreeAt(was: nat -> real, key: nat -> real, s: seq<nat>, n: nat, i: nat)
    requires n <= |s|
  {
    forall p :: 0 <= p < n && p != i ==> was(s[p]) == key(s[p])
  }

  lemma Retained(was: nat -> real, key: nat -> real, s: seq<nat>, n: nat, i: nat)
    requires n <= |s| && Ordered(was, s, n) && AgreeAt(was, key, s, n, i)
    ensures n <= i ==> Ordered(key, s, n)
    ensures i < n ==> Loose(key, s, n, i)
    ensures i < n && key(s[i]) <= was(s[i]) ==> Rising(key, s, n, i)
    ensures i == 0 ==> Ready(key, s, n, 0, 0)
    ensures i < n && was(s[i]) <= key(s[i]) ==> FitsParent(key, s, i)
    ensures i < n && was(s[i]) <= key(s[i]) ==>
        (Ordered(key, s, n) <==> forall j :: 0 < j < n && Up(j) == i ==> key(s[i]) <= key(s[j]))
  {
    forall j | 0 < j < n ensures Below(was, s, j) {}
    if 0 < i < n {
      forall j | 0 < j < n && Up(j) == i
        ensures key(s[Up(i)]) <= key(s[j]) { assert Below(was, s, i) && Below(was, s, j); }
    }
    if Ordered(key, s, n) {
      forall j | 0 < j < n && Up(j) == i ensures key(s[i]) <= key(s[j]) { assert Below(key, s, j); }
    }
  }

  lemma Appended(was: nat -> real, key: nat -> real, s: seq<nat>, n: nat, id: nat)
    requires n < |s| && Ordered(was, s, n) && AgreeAt(was, key, s, n, n)
    ensures Rising(key, s[n := id], n + 1, n)
  {
    var r := s[n := id];
    forall j | 0 < j < n ensures Below(key, r, j) { assert Below(was, s, j); }
  }

  lemma ListGrows(s: seq<nat>, inv: seq<nat>, n: nat, items: set<nat>, i: nat)
    requires n < |s| && Indexed(Self, s, inv, n, 0, n) && Distinct(Self, s, n, |inv|) && i !in items && i < |inv|
    requires multiset(s[..n]) == multiset(items)
    ensures var r := s[n := i];
            && Indexed(Self, r, inv, n + 1, 0, n) && Distinct(Self, r, n + 1, |inv|)
            && multiset(r[..n + 1]) == multiset(items + {i}) && forall j <- items + {i} :: j < |inv|
  {
    var r := s[n := i];
    MemberOf(s[..n], items);
    assert r[..n + 1] == s[..n] + [i];
    assert multiset(items + {i}) == multiset(items) + multiset{i};
    forall p | 0 <= p < n ensures s[p] != i { assert s[..n][p] in s[..n]; }
    forall j <- items ensures j < |inv| { assert j in s[..n]; var p :| 0 <= p < n && s[..n][p] == j; assert s[p] == j; }
  }

  lemma MemberOf(s: seq<nat>, items: set<nat>)
    requires multiset(s) == multiset(items)
    ensures forall i :: i in s <==> i in items
    ensures forall p, q :: 0 <= p < q < |s| ==> s[p] != s[q]
    ensures |s| == |items|
  {
    forall i ensures i in s <==> i in items { assert i in multiset(s) <==> i in multiset(items); }
    forall p, q | 0 <= p < q < |s| ensures s[p] != s[q] {
      assert s == s[..p] + [s[p]] + s[p + 1..q] + [s[q]] + s[q + 1..];
      assert multiset(s)[s[p]] <= 1;
    }
    assert |multiset(s)| == |s| && |multiset(items)| == |items|;
  }

  class CounterHeap {
    const heap: array<nat>
    const place: array<nat>
    var n: nat
    ghost var items: set<nat>

    ghost predicate Valid()
      reads this, heap, place
    {
      && heap as object != place as object && n <= heap.Length
      && multiset(heap[..n]) == multiset(items)
      && (forall i <- items :: i < place.Length)
      && Indexed(Self, heap[..], place[..], n, 0, n)
    }

    ghost predicate Sorted(key: nat -> real)
      reads this, heap
    {
      n <= heap.Length && Ordered(key, heap[..], n)
    }

    constructor (most: nat, pool: nat)
      ensures Valid() && items == {} && heap.Length == most && place.Length == pool
      ensures fresh(heap) && fresh(place)
    {
      heap, place := new nat[most], new nat[pool];
      n, items := 0, {};
      new;
      assert heap[..0] == [];
    }

    lemma Members()
      requires Valid()
      ensures |items| == n && (forall i <- items :: place[i] < n && heap[place[i]] == i)
      ensures forall p :: 0 <= p < n ==> heap[p] in items && place[heap[p]] == p
      ensures Distinct(Self, heap[..], n, place.Length)
    {
      MemberOf(heap[..n], items);
      forall i <- items ensures place[i] < n && heap[place[i]] == i {
        assert i in heap[..n];
        var p :| 0 <= p < n && heap[..n][p] == i;
        assert heap[..][p] == i;
      }
      forall p | 0 <= p < n ensures heap[p] in items && place[heap[p]] == p {
        assert heap[..n][p] == heap[p] == heap[..][p];
      }
      forall p, q | 0 <= p < q < n ensures heap[..][p] != heap[..][q] {
        assert heap[..n][p] != heap[..n][q];
      }
    }

    /** The item on top has the least key. */
    lemma TopLeast(key: nat -> real)
      requires Valid() && Sorted(key) && 0 < n
      ensures heap[0] in items && forall i <- items :: key(heap[0]) <= key(i)
    {
      Members();
      forall i <- items ensures key(heap[0]) <= key(i) {
        TopIsLeast(key, heap[..], n, place[i]);
      }
    }

    lemma AgreeHere(was: nat -> real, key: nat -> real, except: nat)
      requires Valid() && Agree(was, key, items, except)
      ensures AgreeAt(was, key, heap[..], n, if except in items then place[except] else n)
    {
      hide Valid, Indexed;
      Members();
      Parts();
      forall p | 0 <= p < n && p != (if except in items then place[except] else n)
        ensures was(heap[..][p]) == key(heap[..][p]) {
        assert heap[p] in items && place[heap[p]] == p;
      }
    }

    lemma Parts()
      requires Valid()
      ensures heap as object != place as object && n <= heap.Length && Indexed(Self, heap[..], place[..], n, 0, n)
      ensures multiset(heap[..n]) == multiset(items) && forall i <- items :: i < place.Length
    {
    }

    lemma AreDifferent()
      requires Valid()
      ensures Distinct(Self, heap[..], n, place.Length)
    {
      hide *;
      Members();
    }

    lemma PlaceOf(i: nat)
      requires Valid() && i in items
      ensures i < place.Length && place[i] < n <= heap.Length && heap[place[i]] == i
    {
      hide *;
      Members();
      Parts();
    }

    lemma Resettled(was: seq<nat>)
      requires n <= heap.Length && |was| == heap.Length && heap as object != place as object
      requires multiset(was[..n]) == multiset(items) && forall i <- items :: i < place.Length
      requires multiset(heap[..]) == multiset(was) && Within(was, heap[..], 0, n)
      requires Indexed(Self, heap[..], place[..], n, 0, n)
      ensures Valid()
    {
      assert heap[..][n..] == was[n..];
      PermutedPrefix(heap[..], was, n);
      assert heap[..][..n] == heap[..n];
    }

    /** The first item. */
    method Top() returns (i: nat)
      requires Valid() && items != {}
      ensures 0 < n <= heap.Length && i == heap[0] && i in items
    {
      Members();
      i := heap[0];
    }

    /** push_back and push up */
    method Push(i: nat, key: nat -> real, ghost was: nat -> real)
      requires Valid() && i < place.Length && i !in items && n < heap.Length && Agree(was, key, items, i)
      modifies this, heap, place
      ensures Valid() && items == old(items) + {i}
      ensures old(Sorted(was)) ==> Sorted(key)
    {
      hide *;
      AreDifferent();
      Parts();
      AgreeHere(was, key, i);
      ghost var s, sorted := heap[..], Sorted(was);
      if sorted { SortedIs(was); Appended(was, key, s, n, i); }
      assert heap[..n] == s[..n];
      ListGrows(s, place[..], n, items, i);
      heap[n] := i;
      ghost var r := heap[..];
      assert r == s[n := i];
      n := n + 1;
      items := items + {i};
      PushUpIndexed(heap, place, n - 1, n, key, Self);
      Resettled(r);
      if sorted { IsSorted(key); }
    }

    lemma SortedIs(key: nat -> real)
      requires Sorted(key)
      ensures n <= heap.Length && Ordered(key, heap[..], n)
    {
    }

    lemma IsSorted(key: nat -> real)
      requires n <= heap.Length && Ordered(key, heap[..], n)
      ensures Sorted(key)
    {
    }

    /** Removal by the place the counter keeps, and pop_back. */
    method Remove(i: nat, key: nat -> real)
      requires Valid() && i in items
      modifies this, heap, place
      ensures Valid()
      ensures items == old(items) - {i}
      ensures old(Sorted(key)) ==> Sorted(key)
    {
      hide *;
      AreDifferent();
      PlaceOf(i);
      Parts();
      ghost var s, sorted := heap[..], Sorted(key);
      if sorted { SortedIs(key); }
      var at := place[i];
      assert heap[..n] == s[..n] && s[at] == i;
      RemoveIndexed(heap, place, at, n, key, Self);
      assert sorted ==> Ordered(key, heap[..], n - 1);
      assert multiset(s[..n]) == multiset(heap[..n - 1]) + multiset{i};
      OneLess(s[..n], heap[..n - 1], items, i);
      n, items := n - 1, items - {i};
      if sorted { IsSorted(key); }
      Remains();
    }

    lemma OneLess(s: seq<nat>, r: seq<nat>, items: set<nat>, i: nat)
      requires multiset(s) == multiset(items) == multiset(r) + multiset{i} && i in items
      ensures multiset(r) == multiset(items - {i})
    {
      assert items == (items - {i}) + {i};
      assert multiset(r) == multiset(items) - multiset{i};
      assert multiset(items) == multiset(items - {i}) + multiset{i};
    }

    lemma Remains()
      requires heap as object != place as object && n <= heap.Length && multiset(heap[..n]) == multiset(items)
      requires (forall i <- items :: i < place.Length) && Indexed(Self, heap[..], place[..], n, 0, n)
      ensures Valid()
    {
    }

    /** Push up after a change of the item's key; enough when it has fallen, and idle when it has risen. */
    method PushedUp(i: nat, key: nat -> real, ghost was: nat -> real)
      requires Valid() && i in items && Agree(was, key, items, i)
      modifies heap, place
      ensures Valid()
      ensures old(Sorted(was)) && key(i) <= was(i) ==> Sorted(key)
      ensures old(Sorted(was)) && was(i) <= key(i) ==>
                heap[..] == old(heap[..]) && (Sorted(key) <==> FitsChildren(key, i))
                  && (Sorted(key) <==> old(FitsChildren(key, i)))
      ensures n == old(n)
    {
      hide *;
      Members();
      Parts();
      AgreeHere(was, key, i);
      var at := place[i];
      ghost var s, sorted := heap[..], Sorted(was);
      FitsIs(key, i, at);
      if sorted { SortedIs(was); Retained(was, key, s, n, at); }
      Unsettled(s, place[..], n, at);
      PushUpIndexed(heap, place, at, n, key, Self);
      Resettled(s);
      Members();
      if sorted && key(i) <= was(i) { IsSorted(key); }
      if sorted && was(i) <= key(i) {
        FitsIs(key, i, at);
        if Sorted(key) { SortedIs(key); }
        if Ordered(key, heap[..], n) { IsSorted(key); }
      }
    }

    /** The item's key is not above those of its children. */
    ghost predicate FitsChildren(key: nat -> real, i: nat)
      reads this, heap, place
      requires Valid() && i in items
    {
      forall j :: 0 < j < n && Up(j) == place[i] ==> key(i) <= key(heap[j])
    }

    lemma FitsIs(key: nat -> real, i: nat, at: nat)
      requires Valid() && i in items && at == place[i] && at < n && heap[at] == i
      ensures FitsChildren(key, i) <==> forall j :: 0 < j < n && Up(j) == at ==> key(heap[..][at]) <= key(heap[..][j])
    {
    }

    lemma Unsettled(s: seq<nat>, inv: seq<nat>, n: nat, i: nat)
      requires n <= |s| && Indexed(Self, s, inv, n, 0, n)
      ensures Indexed(Self, s, inv, n, 0, i)
    {
    }

    /** The item's key may have moved either way. */
    method Updated(i: nat, key: nat -> real, ghost was: nat -> real)
      requires Valid() && i in items && Agree(was, key, items, i)
      modifies heap, place
      ensures Valid()
      ensures old(Sorted(was)) ==> Sorted(key)
    {
      hide *;
      Members();
      Parts();
      AgreeHere(was, key, i);
      var at := place[i];
      ghost var s, sorted := heap[..], Sorted(was);
      if sorted { SortedIs(was); Retained(was, key, s, n, at); }
      Unsettled(s, place[..], n, at);
      MarkUpdatedIndexed(heap, place, at, n, key, Self);
      Resettled(s);
      if sorted { IsSorted(key); }
    }

    /** The key of the item on top may have moved either way. */
    method TopUpdated(key: nat -> real, ghost was: nat -> real)
      requires Valid() && 0 < n && Agree(was, key, items, heap[0])
      modifies heap, place
      ensures Valid()
      ensures old(Sorted(was)) ==> Sorted(key)
    {
      hide *;
      Members();
      Parts();
      AgreeHere(was, key, heap[0]);
      ghost var s, sorted := heap[..], Sorted(was);
      if sorted { SortedIs(was); Retained(was, key, s, n, 0); }
      Unsettled(s, place[..], n, 0);
      PushDownIndexed(heap, place, 0, n, key, Self, 0);
      Resettled(s);
      if sorted { OrderedIs(key, heap[..], n); IsSorted(key); }
    }

    method Clear()
      requires Valid()
      modifies this
      ensures Valid() && items == {}
    {
      n, items := 0, {};
      assert heap[..0] == [];
    }

    /** The order only depends on the keys of the items. */
    lemma SameKeys(was: nat -> real, key: nat -> real)
      requires Valid() && Sorted(was) && forall i <- items :: was(i) == key(i)
      ensures Sorted(key)
    {
      Members();
      forall j | 0 < j < n ensures Below(key, heap[..], j) {
        assert Below(was, heap[..], j);
        assert heap[j] in items && heap[Up(j)] in items;
      }
    }

    /** With all keys alike any order will do. */
    lemma AlikeIsSorted(key: nat -> real, v: real)
      requires Valid() && forall i <- items :: key(i) == v
      ensures Sorted(key)
    {
      Members();
      forall j | 0 < j < n ensures Below(key, heap[..], j) {}
    }
  }
}
