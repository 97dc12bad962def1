/**
 The binary heap of min_heap.h: an item moves as a hole through the array, with or without
 an inverted index that records where every item is. A max heap is a heap of negated keys.
 */
module MinHeap {

  function Up(j: nat): nat
    requires 0 < j
  {
    (j - 1) / 2
  }

  predicate Below<T>(key: T -> real, s: seq<T>, j: nat)
    requires 0 < j < |s|
  {
    key(s[Up(j)]) <= key(s[j])
  }

  /** Every node from lo on is no larger than its children, except perhaps for node `hole`. */
  ghost predicate Ready<T>(key: T -> real, s: seq<T>, n: nat, lo: nat, hole: nat)
    requires n <= |s|
  {
    && (forall j :: 0 < j < n && lo <= Up(j) && Up(j) != hole ==> Below(key, s, j))
    && (0 < hole && lo <= Up(hole) ==>
          forall j :: 0 < j < n && Up(j) == hole ==> key(s[Up(hole)]) <= key(s[j]))
  }

  ghost predicate OrderedFrom<T>(key: T -> real, s: seq<T>, n: nat, lo: nat)
    requires n <= |s|
  {
    forall j :: 0 < j < n && lo <= Up(j) ==> Below(key, s, j)
  }

  ghost predicate Ordered<T>(key: T -> real, s: seq<T>, n: nat)
    requires n <= |s|
  {
    OrderedFrom(key, s, n, 0)
  }

  /** Every node is no larger than its children, except perhaps that node `hole` is smaller than its parent. */
  ghost predicate Rising<T>(key: T -> real, s: seq<T>, n: nat, hole: nat)
    requires n <= |s|
  {
    && (forall j :: 0 < j < n && j != hole ==> Below(key, s, j))
    && (0 < hole < n ==> forall j :: 0 < j < n && Up(j) == hole ==> key(s[Up(hole)]) <= key(s[j]))
  }

  /** The value of node i has changed in an ordered heap. */
  ghost predicate Loose<T>(key: T -> real, s: seq<T>, n: nat, i: nat)
    requires n <= |s|
  {
    && (forall j :: 0 < j < n && j != i && Up(j) != i ==> Below(key, s, j))
    && (0 < i < n ==> forall j :: 0 < j < n && Up(j) == i ==> key(s[Up(i)]) <= key(s[j]))
  }

  /** The least key is on top. */
  lemma {:induction false} TopIsLeast<T>(key: T -> real, s: seq<T>, n: nat, j: nat)
    requires n <= |s| && Ordered(key, s, n) && j < n
    ensures key(s[0]) <= key(s[j])
  {
    if j > 0 {
      assert Below(key, s, j);
      TopIsLeast(key, s, n, Up(j));
    }
  }

  function Swap<T>(s: seq<T>, i: nat, j: nat): (r: seq<T>)
    requires i < |s| && j < |s|
    ensures |r| == |s|
  {
    s[i := s[j]][j := s[i]]
  }

  lemma SwapPermutes<T>(s: seq<T>, i: nat, j: nat)
    requires i < |s| && j < |s|
    ensures multiset(Swap(s, i, j)) == multiset(s)
  {
  }

  lemma DownStep<T>(key: T -> real, s: seq<T>, n: nat, lo: nat, i: nat, k: nat)
    requires n <= |s| && lo <= i && k < n && 0 < k && Up(k) == i && Ready(key, s, n, lo, i)
    requires key(s[k]) < key(s[i]) && forall j :: 0 < j < n && Up(j) == i ==> key(s[k]) <= key(s[j])
    ensures Ready(key, Swap(s, i, k), n, lo, k)
  {
    var r := Swap(s, i, k);
    forall j | 0 < j < n && lo <= Up(j) && Up(j) != k ensures Below(key, r, j) {
      if Up(j) != i && j != i { assert Below(key, s, j); }
    }
    forall j | 0 < j < n && Up(j) == k ensures key(r[Up(k)]) <= key(r[j]) {
      assert Below(key, s, j);
    }
  }

  lemma DownDone<T>(key: T -> real, s: seq<T>, n: nat, lo: nat, i: nat)
    requires n <= |s| && Ready(key, s, n, lo, i)
    requires forall j :: 0 < j < n && Up(j) == i ==> key(s[i]) <= key(s[j])
    ensures OrderedFrom(key, s, n, lo)
  {
    forall j | 0 < j < n && lo <= Up(j) ensures Below(key, s, j) {}
  }

  lemma UpStep<T>(key: T -> real, s: seq<T>, n: nat, i: nat)
    requires n <= |s| && 0 < i < n && key(s[i]) < key(s[Up(i)])
    requires Rising(key, s, n, i) || Loose(key, s, n, i)
    ensures Rising(key, Swap(s, i, Up(i)), n, Up(i))
  {
    var p, r := Up(i), Swap(s, i, Up(i));
    forall j | 0 < j < n && j != p ensures Below(key, r, j) {
      if Up(j) != i && j != i { assert Below(key, s, j); }
    }
    forall j | 0 < p && 0 < j < n && Up(j) == p ensures key(r[Up(p)]) <= key(r[j]) {
      assert Below(key, s, p);
      if j != i { assert Below(key, s, j); }
    }
  }

  /** Child k of node i is smaller than the item that is on its way, and no larger than its sibling. */
  ghost predicate Smallest<T>(key: T -> real, h: seq<T>, n: nat, i: nat, k: nat)
    requires n <= |h|
  {
    0 < k < n && Up(k) == i && forall j :: 0 < j < n && Up(j) == i ==> key(h[k]) <= key(h[j])
  }

  /** h with the item put into its hole. */
  function Fill<T>(h: seq<T>, i: nat, item: T): (r: seq<T>)
    requires i < |h|
    ensures |r| == |h| && r[i] == item && forall j :: 0 <= j < |h| && j != i ==> r[j] == h[j]
  {
    h[i := item]
  }

  lemma HoleMoves<T>(h: seq<T>, i: nat, k: nat, item: T)
    requires i < |h| && k < |h| && i != k
    ensures Fill(h[i := h[k]], k, item) == Swap(Fill(h, i, item), i, k)
    ensures multiset(Fill(h[i := h[k]], k, item)) == multiset(Fill(h, i, item))
  {
    SwapPermutes(Fill(h, i, item), i, k);
  }

  lemma DownMove<T>(key: T -> real, h: seq<T>, n: nat, lo: nat, i: nat, k: nat, item: T)
    requires n <= |h| && lo <= i < n && Smallest(key, h, n, i, k) && key(h[k]) < key(item)
    requires Ready(key, Fill(h, i, item), n, lo, i)
    ensures k < n && k != i && Ready(key, Fill(h[i := h[k]], k, item), n, lo, k)
    ensures multiset(Fill(h[i := h[k]], k, item)) == multiset(Fill(h, i, item))
  {
    HoleMoves(h, i, k, item);
    DownStep(key, Fill(h, i, item), n, lo, i, k);
  }

  lemma DownStop<T>(key: T -> real, h: seq<T>, n: nat, lo: nat, i: nat, item: T)
    requires n <= |h| && i < n && Ready(key, Fill(h, i, item), n, lo, i)
    requires (exists k: nat :: Smallest(key, h, n, i, k) && key(item) <= key(h[k])) || n <= 2 * i + 1
    ensures OrderedFrom(key, Fill(h, i, item), n, lo)
  {
    DownDone(key, Fill(h, i, item), n, lo, i);
  }

  lemma ChildIs<T>(key: T -> real, h: seq<T>, n: nat, i: nat)
    requires n <= |h| && 2 * i + 1 < n
    ensures Smallest(key, h, n, i, if 2 * i + 2 < n && key(h[2 * i + 2]) < key(h[2 * i + 1]) then 2 * i + 2
        else 2 * i + 1)
  {
  }

  /** Only places from lo to n may have changed. */
  ghost predicate Within<T>(a: seq<T>, b: seq<T>, lo: nat, n: nat) {
    |a| == |b| && forall p :: 0 <= p < |a| && (p < lo || n <= p) ==> b[p] == a[p]
  }

  lemma WithinStep<T>(a: seq<T>, b: seq<T>, lo: nat, n: nat, i: nat, x: T)
    requires Within(a, b, lo, n) && lo <= i < n && i < |b|
    ensures Within(a, b[i := x], lo, n) && Within(a, Fill(b, i, x), lo, n)
  {
  }

  lemma WithinSelf<T>(a: seq<T>, lo: nat, n: nat)
    ensures Within(a, a, lo, n)
  {
  }

  /** `push_down`; `lo` is the first node the order is known, and restored, from. */
  method PushDown<T>(heap: array<T>, i0: nat, n: nat, key: T -> real, ghost lo: nat)
    requires i0 < n <= heap.Length && lo <= i0 && Ready(key, heap[..], n, lo, i0)
    modifies heap
    ensures OrderedFrom(key, heap[..], n, lo)
    ensures multiset(heap[..]) == multiset(old(heap[..]))
    ensures Within(old(heap[..]), heap[..], i0, n)
  {
    hide *;
    var item := heap[i0];
    var i := i0 + 1;
    var j := 2 * i;
    assert heap[..] == Fill(heap[..], i0, item);
    WithinSelf(heap[..], i0, n);
    while j <= n
      invariant i0 < i <= n && j == 2 * i
      invariant Ready(key, Fill(heap[..], i - 1, item), n, lo, i - 1)
      invariant multiset(Fill(heap[..], i - 1, item)) == multiset(old(heap[..]))
      invariant Within(old(heap[..]), heap[..], i0, n)
      decreases n - i
    {
      ghost var h := heap[..];
      ChildIs(key, h, n, i - 1);
      var k := if j < n && key(heap[j]) < key(heap[j - 1]) then j + 1 else j;
      if !(key(heap[k - 1]) < key(item)) {
        break;
      }
      DownMove(key, h, n, lo, i - 1, k - 1, item);
      WithinStep(old(heap[..]), h, i0, n, i - 1, h[k - 1]);
      heap[i - 1] := heap[k - 1];
      assert heap[..] == h[i - 1 := h[k - 1]];
      i := k;
      j := 2 * i;
    }
    DownStop(key, heap[..], n, lo, i - 1, item);
    WithinStep(old(heap[..]), heap[..], i0, n, i - 1, item);
    ghost var h := heap[..];
    heap[i - 1] := item;
    assert heap[..] == Fill(h, i - 1, item);
  }

  // ----- upwards

  lemma UpMove<T>(key: T -> real, h: seq<T>, n: nat, i: nat, item: T)
    requires n <= |h| && 0 < i < n && key(item) < key(h[Up(i)])
    requires Rising(key, Fill(h, i, item), n, i) || Loose(key, Fill(h, i, item), n, i)
    ensures Rising(key, Fill(h[i := h[Up(i)]], Up(i), item), n, Up(i))
    ensures multiset(Fill(h[i := h[Up(i)]], Up(i), item)) == multiset(Fill(h, i, item))
  {
    HoleMoves(h, i, Up(i), item);
    UpStep(key, Fill(h, i, item), n, i);
  }

  lemma UpStop<T>(key: T -> real, s: seq<T>, n: nat, i: nat)
    requires n <= |s| && i < n && (i == 0 || Below(key, s, i))
    ensures Rising(key, s, n, i) ==> Ordered(key, s, n)
    ensures Loose(key, s, n, i) ==> Ready(key, s, n, 0, i)
  {
  }

  lemma OrderedIsReady<T>(key: T -> real, s: seq<T>, n: nat, i: nat)
    requires n <= |s| && i < n && Ordered(key, s, n)
    ensures Ready(key, s, n, 0, i)
  {
    forall j | 0 < j < n && Up(j) == i && 0 < i ensures key(s[Up(i)]) <= key(s[j]) {
      assert Below(key, s, i) && Below(key, s, j);
    }
  }

  /**
   `push_up`. A node that fits its children fits everywhere afterwards; one that has been
   changed at will fits its ancestors, and only its children remain to be looked at.
   */
  method PushUp<T>(heap: array<T>, i0: nat, n: nat, key: T -> real)
    requires i0 < n <= heap.Length && (Rising(key, heap[..], n, i0) || Loose(key, heap[..], n, i0))
    modifies heap
    ensures old(Rising(key, heap[..], n, i0)) ==> Ordered(key, heap[..], n)
    ensures Ready(key, heap[..], n, 0, i0)
    ensures multiset(heap[..]) == multiset(old(heap[..]))
    ensures Within(old(heap[..]), heap[..], 0, n)
  {
    hide *;
    var item := heap[i0];
    var i := i0 + 1;
    var j := i / 2;
    ghost var rising := Rising(key, heap[..], n, i0);
    assert heap[..] == Fill(heap[..], i0, item);
    WithinSelf(heap[..], 0, n);
    while j >= 1
      invariant 1 <= i <= i0 + 1 && j == i / 2
      invariant Rising(key, Fill(heap[..], i - 1, item), n, i - 1)
          || (i == i0 + 1 && Loose(key, Fill(heap[..], i - 1, item), n, i - 1))
      invariant rising ==> Rising(key, Fill(heap[..], i - 1, item), n, i - 1)
      invariant multiset(Fill(heap[..], i - 1, item)) == multiset(old(heap[..]))
      invariant Within(old(heap[..]), heap[..], 0, n)
    {
      ghost var h := heap[..];
      UpIs(i - 1);
      if !(key(item) < key(heap[j - 1])) {
        break;
      }
      UpMove(key, h, n, i - 1, item);
      WithinStep(old(heap[..]), h, 0, n, i - 1, h[j - 1]);
      heap[i - 1] := heap[j - 1];
      assert heap[..] == h[i - 1 := h[j - 1]];
      i := j;
      j := i / 2;
    }
    ghost var h := heap[..];
    FitsAbove(key, h, item, i);
    WithinStep(old(heap[..]), h, 0, n, i - 1, item);
    heap[i - 1] := item;
    assert heap[..] == Fill(h, i - 1, item);
    UpStop(key, heap[..], n, i - 1);
    if Ordered(key, heap[..], n) { OrderedIsReady(key, heap[..], n, i0); }
  }

  lemma UpIs(i: nat)
    ensures 0 < i ==> Up(i) == (i + 1) / 2 - 1
  {
  }

  lemma FitsAbove<T>(key: T -> real, h: seq<T>, item: T, i: nat)
    requires 1 <= i <= |h| && (i / 2 < 1 || key(h[i / 2 - 1]) <= key(item))
    ensures i - 1 == 0 || Below(key, Fill(h, i - 1, item), i - 1)
  {
  }

  /** `mark_updated`: the key of node i may have moved either way. */
  method MarkUpdated<T>(heap: array<T>, i: nat, n: nat, key: T -> real)
    requires i < n <= heap.Length && Loose(key, heap[..], n, i)
    modifies heap
    ensures Ordered(key, heap[..], n)
    ensures multiset(heap[..]) == multiset(old(heap[..]))
    ensures Within(old(heap[..]), heap[..], 0, n)
  {
    PushUp(heap, i, n, key);
    PushDown(heap, i, n, key, 0);
  }

  /** `make`: order an arbitrary array from the last inner node on. */
  method Make<T>(heap: array<T>, n: nat, key: T -> real)
    requires n <= heap.Length
    modifies heap
    ensures Ordered(key, heap[..], n)
    ensures multiset(heap[..]) == multiset(old(heap[..]))
    ensures Within(old(heap[..]), heap[..], 0, n)
  {
    hide Ordered, Below;
    var i := n / 2;
    assert OrderedFrom(key, heap[..], n, i);
    while i >= 1
      invariant 0 <= i <= n / 2 && OrderedFrom(key, heap[..], n, i)
      invariant multiset(heap[..]) == multiset(old(heap[..]))
      invariant Within(old(heap[..]), heap[..], 0, n)
    {
      PushDown(heap, i - 1, n, key, i - 1);
      i := i - 1;
    }
    OrderedIs(key, heap[..], n);
  }

  lemma OrderedIs<T>(key: T -> real, s: seq<T>, n: nat)
    requires n <= |s| && OrderedFrom(key, s, n, 0)
    ensures Ordered(key, s, n)
  {
  }

  lemma ReplaceIsLoose<T>(key: T -> real, s: seq<T>, n: nat, i: nat)
    requires 1 <= n <= |s| && i < n - 1 && Ordered(key, s, n)
    ensures Loose(key, s[i := s[n - 1]], n - 1, i)
  {
    var r := s[i := s[n - 1]];
    forall j | 0 < j < n - 1 && j != i && Up(j) != i ensures Below(key, r, j) { assert Below(key, s, j); }
    if i > 0 {
      forall j | 0 < j < n - 1 && Up(j) == i ensures key(r[Up(i)]) <= key(r[j]) {
        assert Below(key, s, i) && Below(key, s, j);
      }
    }
  }

  lemma RemovePermutes<T>(s: seq<T>, n: nat, i: nat)
    requires 1 <= n <= |s| && i < n
    ensures var r := s[i := s[n - 1]];
            multiset(s[..n]) == multiset(r[..n - 1]) + multiset{s[i]} && r[n - 1..] == s[n - 1..]
  {
    var r := s[i := s[n - 1]];
    var t := Swap(s[..n], i, n - 1);
    SwapPermutes(s[..n], i, n - 1);
    assert t == r[..n - 1] + [s[i]];
  }

  lemma PermutedPrefix<T>(a: seq<T>, b: seq<T>, n: nat)
    requires |a| == |b| && n <= |a| && multiset(a) == multiset(b) && a[n..] == b[n..]
    ensures multiset(a[..n]) == multiset(b[..n])
  {
    assert a == a[..n] + a[n..] && b == b[..n] + b[n..];
    assert multiset(a[..n]) == multiset(a) - multiset(a[n..]);
    assert multiset(b[..n]) == multiset(b) - multiset(b[n..]);
  }

  /** `remove`: the caller drops the last place, where the removed item need not be. */
  method Remove<T>(heap: array<T>, i: nat, n: nat, key: T -> real)
    requires i < n <= heap.Length && Ordered(key, heap[..], n)
    modifies heap
    ensures Ordered(key, heap[..], n - 1)
    ensures multiset(old(heap[..n])) == multiset(heap[..n - 1]) + multiset{old(heap[i])}
    ensures Within(old(heap[..]), heap[..], 0, n)
  {
    hide *;
    ghost var s := heap[..];
    RemovePermutes(s, n, i);
    assert heap[..n] == s[..n];
    if n == 1 || i + 1 == n {
      OrderedLess(key, s, n);
      assert s[i := s[n - 1]] == s && heap[..n - 1] == s[..n - 1];
      WithinSelf(s, 0, n);
      return;
    }
    ReplaceIsLoose(key, s, n, i);
    heap[i] := heap[n - 1];
    ghost var r := heap[..];
    assert r == s[i := s[n - 1]];
    MarkUpdated(heap, i, n - 1, key);
    WithinTail(s, r, heap[..], n, i);
    PermutedPrefix(heap[..], r, n - 1);
    assert heap[..][..n - 1] == heap[..n - 1];
  }

  lemma WithinJoin<T>(a: seq<T>, b: seq<T>, c: seq<T>, i: nat, n: nat)
    requires Within(a, b, 0, n) && Within(b, c, i, n)
    ensures Within(a, c, 0, n)
  {
  }

  lemma WithinTail<T>(s: seq<T>, r: seq<T>, h: seq<T>, n: nat, i: nat)
    requires 1 <= n <= |s| && i < n && r == s[i := s[n - 1]] && Within(r, h, 0, n - 1)
    ensures h[n - 1..] == r[n - 1..] && Within(s, h, 0, n)
  {
  }

  lemma OrderedLess<T>(key: T -> real, s: seq<T>, n: nat)
    requires 1 <= n <= |s| && Ordered(key, s, n)
    ensures Ordered(key, s, n - 1)
  {
  }

  // ----- with an inverted index

  /** Every item from place lo on, but for the hole, is where the index says. */
  ghost predicate Indexed<T>(idx: T -> nat, h: seq<T>, inv: seq<nat>, n: nat, lo: nat, hole: nat)
    requires n <= |h|
  {
    forall p :: lo <= p < n && p != hole ==> idx(h[p]) < |inv| && inv[idx(h[p])] == p
  }

  /** The index tells the items apart. */
  ghost predicate Distinct<T>(idx: T -> nat, s: seq<T>, n: nat, bound: nat)
    requires n <= |s|
  {
    && (forall p :: 0 <= p < n ==> idx(s[p]) < bound)
    && (forall p, q :: 0 <= p < q < n ==> idx(s[p]) != idx(s[q]))
  }

  lemma SwapDistinct<T>(idx: T -> nat, s: seq<T>, n: nat, bound: nat, i: nat, k: nat)
    requires n <= |s| && i < n && k < n && Distinct(idx, s, n, bound)
    ensures Distinct(idx, Swap(s, i, k), n, bound)
  {
    var r := Swap(s, i, k);
    forall p, q | 0 <= p < q < n ensures idx(r[p]) != idx(r[q]) {
      var p', q' := if p == i then k else if p == k then i else p, if q == i then k else if q == k then i else q;
      if p' < q' { assert idx(s[p']) != idx(s[q']); } else { assert idx(s[q']) != idx(s[p']); }
    }
  }

  /** Moving item k into the hole i and recording it keeps the index right but for the new hole. */
  lemma IndexMoves<T>(idx: T -> nat, h: seq<T>, inv: seq<nat>, n: nat, lo: nat, i: nat, k: nat, item: T)
    requires n <= |h| && i < n && k < n && i != k
    requires Indexed(idx, h, inv, n, lo, i) && Distinct(idx, Fill(h, i, item), n, |inv|)
    ensures idx(h[k]) < |inv|
    ensures Indexed(idx, h[i := h[k]], inv[idx(h[k]) := i], n, lo, k)
    ensures Distinct(idx, Fill(h[i := h[k]], k, item), n, |inv|)
  {
    var s := Fill(h, i, item);
    assert s[k] == h[k];
    HoleMoves(h, i, k, item);
    SwapDistinct(idx, s, n, |inv|, i, k);
    var h', inv' := h[i := h[k]], inv[idx(h[k]) := i];
    forall p | lo <= p < n && p != k ensures idx(h'[p]) < |inv| && inv'[idx(h'[p])] == p {
      if p != i {
        assert s[p] == h[p];
        if p < k { assert idx(s[p]) != idx(s[k]); } else { assert idx(s[k]) != idx(s[p]); }
      }
    }
  }

  /** Recording the item that fills the hole makes the index right everywhere. */
  lemma IndexSettles<T>(idx: T -> nat, h: seq<T>, inv: seq<nat>, n: nat, lo: nat, i: nat, item: T, none: nat)
    requires n <= |h| && i < n <= none
    requires Indexed(idx, h, inv, n, lo, i) && Distinct(idx, Fill(h, i, item), n, |inv|)
    ensures idx(item) < |inv| && Indexed(idx, Fill(h, i, item), inv[idx(item) := i], n, lo, none)
  {
    var s := Fill(h, i, item);
    assert s[i] == item;
    forall p | lo <= p < n ensures idx(s[p]) < |inv| && inv[idx(item) := i][idx(s[p])] == p {
      if p < i { assert idx(s[p]) != idx(s[i]); } else if p > i { assert idx(s[i]) != idx(s[p]); }
    }
  }

  /** The item is on its way: with it in the hole i the array is what it was, rearranged from place `from` on. */
  ghost predicate Moving<T>(idx: T -> nat, was: seq<T>, h: seq<T>, inv: seq<nat>, n: nat, lo: nat, from: nat, i: nat,
                            item: T)
  {
    && from <= i < n <= |h|
    && multiset(Fill(h, i, item)) == multiset(was) && Within(was, h, from, n)
    && Indexed(idx, h, inv, n, lo, i) && Distinct(idx, Fill(h, i, item), n, |inv|)
  }

  lemma MovingStarts<T>(idx: T -> nat, h: seq<T>, inv: seq<nat>, n: nat, lo: nat, from: nat, i: nat)
    requires from <= i < n <= |h| && Indexed(idx, h, inv, n, lo, i) && Distinct(idx, h, n, |inv|)
    ensures Moving(idx, h, h, inv, n, lo, from, i, h[i]) && Fill(h, i, h[i]) == h
  {
    assert h == Fill(h, i, h[i]);
  }

  lemma MovingStep<T>(idx: T -> nat, was: seq<T>, h: seq<T>, inv: seq<nat>, n: nat, lo: nat, from: nat, i: nat, k: nat,
                      item: T)
    requires Moving(idx, was, h, inv, n, lo, from, i, item) && from <= k < n && i != k
    ensures idx(h[k]) < |inv| && Moving(idx, was, h[i := h[k]], inv[idx(h[k]) := i], n, lo, from, k, item)
  {
    hide *;
    MovingParts(idx, was, h, inv, n, lo, from, i, item);
    IndexMoves(idx, h, inv, n, lo, i, k, item);
    HoleMoves(h, i, k, item);
    WithinStep(was, h, from, n, i, h[k]);
    MovingIs(idx, was, h[i := h[k]], inv[idx(h[k]) := i], n, lo, from, k, item);
  }

  lemma MovingParts<T>(idx: T -> nat, was: seq<T>, h: seq<T>, inv: seq<nat>, n: nat, lo: nat, from: nat, i: nat,
                       item: T)
    requires Moving(idx, was, h, inv, n, lo, from, i, item)
    ensures from <= i < n <= |h| && multiset(Fill(h, i, item)) == multiset(was) && Within(was, h, from, n)
    ensures Indexed(idx, h, inv, n, lo, i) && Distinct(idx, Fill(h, i, item), n, |inv|)
  {
  }

  lemma MovingIs<T>(idx: T -> nat, was: seq<T>, h: seq<T>, inv: seq<nat>, n: nat, lo: nat, from: nat, i: nat, item: T)
    requires from <= i < n <= |h| && multiset(Fill(h, i, item)) == multiset(was) && Within(was, h, from, n)
    requires Indexed(idx, h, inv, n, lo, i) && Distinct(idx, Fill(h, i, item), n, |inv|)
    ensures Moving(idx, was, h, inv, n, lo, from, i, item)
  {
  }

  /** Move item k into the hole i and record it. */
  method Shift<T>(heap: array<T>, inverted: array<nat>, i: nat, k: nat, n: nat, idx: T -> nat,
                  ghost was: seq<T>, ghost lo: nat, ghost from: nat, ghost item: T)
    requires heap as object != inverted as object && from <= k < n <= heap.Length && i != k
    requires Moving(idx, was, heap[..], inverted[..], n, lo, from, i, item)
    modifies heap, inverted
    ensures i < |old(heap[..])| && heap[..] == old(heap[..])[i := old(heap[k])]
    ensures Moving(idx, was, heap[..], inverted[..], n, lo, from, k, item)
  {
    hide *;
    ghost var h, inv := heap[..], inverted[..];
    MovingParts(idx, was, h, inv, n, lo, from, i, item);
    MovingStep(idx, was, h, inv, n, lo, from, i, k, item);
    heap[i] := heap[k];
    inverted[idx(heap[i])] := i;
    assert heap[..] == h[i := h[k]] && inverted[..] == inv[idx(h[k]) := i];
  }

  /** Put the item into the hole i and record it. */
  method Rest<T>(heap: array<T>, inverted: array<nat>, i: nat, n: nat, idx: T -> nat,
                 ghost was: seq<T>, ghost lo: nat, ghost from: nat, item: T)
    requires heap as object != inverted as object
    requires Moving(idx, was, heap[..], inverted[..], n, lo, from, i, item)
    modifies heap, inverted
    ensures i < |old(heap[..])| && heap[..] == Fill(old(heap[..]), i, item) && n <= heap.Length
    ensures Indexed(idx, heap[..], inverted[..], n, lo, n) && Distinct(idx, heap[..], n, inverted.Length)
    ensures multiset(heap[..]) == multiset(was) && Within(was, heap[..], from, n)
  {
    hide *;
    ghost var h, inv := heap[..], inverted[..];
    MovingParts(idx, was, h, inv, n, lo, from, i, item);
    IndexSettles(idx, h, inv, n, lo, i, item, n);
    WithinStep(was, h, from, n, i, item);
    heap[i] := item;
    inverted[idx(item)] := i;
    assert heap[..] == Fill(h, i, item) && inverted[..] == inv[idx(item) := i];
  }

  /** `push_down_with_inverted_index`; the index is kept right even in a heap that is out of order. */
  method PushDownIndexed<T>(heap: array<T>, inverted: array<nat>, i0: nat, n: nat, key: T -> real, idx: T -> nat,
                            ghost lo: nat)
    requires heap as object != inverted as object
    requires i0 < n <= heap.Length && lo <= i0
    requires Indexed(idx, heap[..], inverted[..], n, lo, i0) && Distinct(idx, heap[..], n, inverted.Length)
    modifies heap, inverted
    ensures old(Ready(key, heap[..], n, lo, i0)) ==> OrderedFrom(key, heap[..], n, lo)
    ensures Indexed(idx, heap[..], inverted[..], n, lo, n) && Distinct(idx, heap[..], n, inverted.Length)
    ensures multiset(heap[..]) == multiset(old(heap[..]))
    ensures Within(old(heap[..]), heap[..], i0, n)
  {
    hide *;
    var item := heap[i0];
    var i := i0 + 1;
    var j := 2 * i;
    ghost var was := heap[..];
    ghost var ready := Ready(key, was, n, lo, i0);
    MovingStarts(idx, was, inverted[..], n, lo, i0, i0);
    while j <= n
      invariant i0 < i <= n && j == 2 * i
      invariant Moving(idx, was, heap[..], inverted[..], n, lo, i0, i - 1, item)
      invariant ready ==> Ready(key, Fill(heap[..], i - 1, item), n, lo, i - 1)
      decreases n - i
    {
      ghost var h := heap[..];
      ChildIs(key, h, n, i - 1);
      var k := if j < n && key(heap[j]) < key(heap[j - 1]) then j + 1 else j;
      if !(key(heap[k - 1]) < key(item)) {
        break;
      }
      if ready { DownMove(key, h, n, lo, i - 1, k - 1, item); }
      Shift(heap, inverted, i - 1, k - 1, n, idx, was, lo, i0, item);
      i := k;
      j := 2 * i;
    }
    if ready { DownStop(key, heap[..], n, lo, i - 1, item); }
    Rest(heap, inverted, i - 1, n, idx, was, lo, i0, item);
  }

  /** The item at place i fits its parent. */
  predicate FitsParent<T>(key: T -> real, s: seq<T>, i: nat)
    requires i < |s|
  {
    i == 0 || Below(key, s, i)
  }

  /** `push_up_with_inverted_index`; it moves nothing if the item fits its parent. */
  method PushUpIndexed<T>(heap: array<T>, inverted: array<nat>, i0: nat, n: nat, key: T -> real, idx: T -> nat)
    requires heap as object != inverted as object
    requires i0 < n <= heap.Length
    requires Indexed(idx, heap[..], inverted[..], n, 0, i0) && Distinct(idx, heap[..], n, inverted.Length)
    modifies heap, inverted
    ensures old(Rising(key, heap[..], n, i0)) ==> Ordered(key, heap[..], n)
    ensures old(Rising(key, heap[..], n, i0) || Loose(key, heap[..], n, i0)) ==> Ready(key, heap[..], n, 0, i0)
    ensures old(FitsParent(key, heap[..], i0)) ==> heap[..] == old(heap[..])
    ensures Indexed(idx, heap[..], inverted[..], n, 0, n) && Distinct(idx, heap[..], n, inverted.Length)
    ensures multiset(heap[..]) == multiset(old(heap[..]))
    ensures Within(old(heap[..]), heap[..], 0, n)
  {
    hide *;
    var item := heap[i0];
    var i := i0 + 1;
    var j := i / 2;
    ghost var was := heap[..];
    ghost var rising, known := Rising(key, was, n, i0), Rising(key, was, n, i0) || Loose(key, was, n, i0);
    ghost var fits := FitsParent(key, was, i0);
    MovingStarts(idx, was, inverted[..], n, 0, 0, i0);
    while j >= 1
      invariant 1 <= i <= i0 + 1 && j == i / 2
      invariant Moving(idx, was, heap[..], inverted[..], n, 0, 0, i - 1, item)
      invariant known ==>
                  Rising(key, Fill(heap[..], i - 1, item), n, i - 1)
                    || (i == i0 + 1 && Loose(key, Fill(heap[..], i - 1, item), n, i - 1))
      invariant rising ==> Rising(key, Fill(heap[..], i - 1, item), n, i - 1)
      invariant fits ==> i == i0 + 1 && heap[..] == was
    {
      ghost var h := heap[..];
      UpIs(i - 1);
      if fits { FitsAt(key, h, i0); }
      if !(key(item) < key(heap[j - 1])) {
        break;
      }
      if known { UpMove(key, h, n, i - 1, item); }
      Shift(heap, inverted, i - 1, j - 1, n, idx, was, 0, 0, item);
      i := j;
      j := i / 2;
    }
    FitsAbove(key, heap[..], item, i);
    Rest(heap, inverted, i - 1, n, idx, was, 0, 0, item);
    UpStop(key, heap[..], n, i - 1);
    if Ordered(key, heap[..], n) { OrderedIsReady(key, heap[..], n, i0); }
  }

  lemma FitsAt<T>(key: T -> real, s: seq<T>, i: nat)
    requires i < |s|
    ensures FitsParent(key, s, i) && 0 < i ==> key(s[Up(i)]) <= key(s[i])
  {
  }

  method MarkUpdatedIndexed<T>(heap: array<T>, inverted: array<nat>, i: nat, n: nat, key: T -> real, idx: T -> nat)
    requires heap as object != inverted as object
    requires i < n <= heap.Length
    requires Indexed(idx, heap[..], inverted[..], n, 0, i) && Distinct(idx, heap[..], n, inverted.Length)
    modifies heap, inverted
    ensures old(Loose(key, heap[..], n, i)) ==> Ordered(key, heap[..], n)
    ensures Indexed(idx, heap[..], inverted[..], n, 0, n) && Distinct(idx, heap[..], n, inverted.Length)
    ensures multiset(heap[..]) == multiset(old(heap[..]))
    ensures Within(old(heap[..]), heap[..], 0, n)
  {
    hide *;
    PushUpIndexed(heap, inverted, i, n, key, idx);
    IndexedMost(idx, heap[..], inverted[..], n, i);
    ghost var h := heap[..];
    PushDownIndexed(heap, inverted, i, n, key, idx, 0);
    WithinJoin(old(heap[..]), h, heap[..], i, n);
    if OrderedFrom(key, heap[..], n, 0) { OrderedIs(key, heap[..], n); }
  }

  lemma IndexedMost<T>(idx: T -> nat, h: seq<T>, inv: seq<nat>, n: nat, i: nat)
    requires n <= |h| && Indexed(idx, h, inv, n, 0, n)
    ensures Indexed(idx, h, inv, n, 0, i)
  {
  }

  /** `make_with_inverted_index`: the leaves are recorded first, then the inner nodes as they settle. */
  method MakeIndexed<T>(heap: array<T>, inverted: array<nat>, n: nat, key: T -> real, idx: T -> nat)
    requires heap as object != inverted as object
    requires n <= heap.Length && Distinct(idx, heap[..], n, inverted.Length)
    modifies heap, inverted
    ensures Ordered(key, heap[..], n)
    ensures Indexed(idx, heap[..], inverted[..], n, 0, n) && Distinct(idx, heap[..], n, inverted.Length)
    ensures multiset(heap[..]) == multiset(old(heap[..]))
    ensures Within(old(heap[..]), heap[..], 0, n)
  {
    hide Below, Ordered;
    var i := n;
    while i > n / 2
      invariant n / 2 <= i <= n && heap[..] == old(heap[..])
      invariant Indexed(idx, heap[..], inverted[..], n, i, n)
    {
      ghost var inv := inverted[..];
      RecordOne(idx, heap[..], inv, n, i - 1);
      inverted[idx(heap[i - 1])] := i - 1;
      assert inverted[..] == inv[idx(heap[i - 1]) := (i - 1) as nat];
      i := i - 1;
    }
    while i >= 1
      invariant 0 <= i <= n / 2 && OrderedFrom(key, heap[..], n, i)
      invariant Indexed(idx, heap[..], inverted[..], n, i, n) && Distinct(idx, heap[..], n, inverted.Length)
      invariant multiset(heap[..]) == multiset(old(heap[..]))
      invariant Within(old(heap[..]), heap[..], 0, n)
    {
      PushDownIndexed(heap, inverted, i - 1, n, key, idx, i - 1);
      i := i - 1;
    }
    OrderedIs(key, heap[..], n);
  }

  lemma RecordOne<T>(idx: T -> nat, h: seq<T>, inv: seq<nat>, n: nat, i: nat)
    requires i < n <= |h| && Distinct(idx, h, n, |inv|) && Indexed(idx, h, inv, n, i + 1, n)
    ensures idx(h[i]) < |inv| && Indexed(idx, h, inv[idx(h[i]) := i], n, i, n)
  {
    forall p | i < p < n ensures idx(h[p]) != idx(h[i]) {}
  }

  lemma ReplaceIsIndexed<T>(idx: T -> nat, s: seq<T>, inv: seq<nat>, n: nat, i: nat)
    requires 1 <= n <= |s| && i < n - 1 && Indexed(idx, s, inv, n, 0, n) && Distinct(idx, s, n, |inv|)
    ensures Indexed(idx, s[i := s[n - 1]], inv, n - 1, 0, i) && Distinct(idx, s[i := s[n - 1]], n - 1, |inv|)
  {
    var r := s[i := s[n - 1]];
    forall p, q | 0 <= p < q < n - 1 ensures idx(r[p]) != idx(r[q]) {
      if p == i { assert idx(s[q]) != idx(s[n - 1]); }
      else if q == i { assert idx(s[p]) != idx(s[n - 1]); }
      else { assert idx(s[p]) != idx(s[q]); }
    }
  }

  lemma IndexedLess<T>(idx: T -> nat, s: seq<T>, inv: seq<nat>, n: nat)
    requires 1 <= n <= |s| && Indexed(idx, s, inv, n, 0, n) && Distinct(idx, s, n, |inv|)
    ensures Indexed(idx, s, inv, n - 1, 0, n - 1) && Distinct(idx, s, n - 1, |inv|)
  {
  }

  method RemoveIndexed<T>(heap: array<T>, inverted: array<nat>, i: nat, n: nat, key: T -> real, idx: T -> nat)
    requires heap as object != inverted as object
    requires i < n <= heap.Length
    requires Indexed(idx, heap[..], inverted[..], n, 0, n) && Distinct(idx, heap[..], n, inverted.Length)
    modifies heap, inverted
    ensures old(Ordered(key, heap[..], n)) ==> Ordered(key, heap[..], n - 1)
    ensures Indexed(idx, heap[..], inverted[..], n - 1, 0, n - 1) && Distinct(idx, heap[..], n - 1, inverted.Length)
    ensures multiset(old(heap[..n])) == multiset(heap[..n - 1]) + multiset{old(heap[i])}
    ensures Within(old(heap[..]), heap[..], 0, n)
  {
    hide *;
    ghost var s := heap[..];
    RemovePermutes(s, n, i);
    assert heap[..n] == s[..n];
    if n == 1 || i + 1 == n {
      if Ordered(key, s, n) { OrderedLess(key, s, n); }
      IndexedLess(idx, s, inverted[..], n);
      assert s[i := s[n - 1]] == s && heap[..n - 1] == s[..n - 1];
      WithinSelf(s, 0, n);
      return;
    }
    if Ordered(key, s, n) { ReplaceIsLoose(key, s, n, i); }
    ReplaceIsIndexed(idx, s, inverted[..], n, i);
    heap[i] := heap[n - 1];
    ghost var r := heap[..];
    assert r == s[i := s[n - 1]];
    MarkUpdatedIndexed(heap, inverted, i, n - 1, key, idx);
    WithinTail(s, r, heap[..], n, i);
    PermutedPrefix(heap[..], r, n - 1);
    assert heap[..][..n - 1] == heap[..n - 1];
  }
}
