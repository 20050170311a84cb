// rqsort of quickjs/cutils.c: a three-way quicksort with a bounded stack, heapsort when it goes too
// deep and insertion sort for short segments.

module RqSort {

  // ----- Orders -----

  // cmp is negative, zero or positive as its first argument is before, like or after the second.
  ghost predicate TotalPreorder<T(!new)>(cmp: (T, T) -> int) {
    && (forall x, y :: cmp(x, y) <= 0 <==> cmp(y, x) >= 0)
    && (forall x, y, z :: cmp(x, y) <= 0 && cmp(y, z) <= 0 ==> cmp(x, z) <= 0)
  }

  ghost predicate Sorted<T>(s: seq<T>, cmp: (T, T) -> int) {
    forall i, j :: 0 <= i < j < |s| ==> cmp(s[i], s[j]) <= 0
  }

  lemma Trans<T(!new)>(cmp: (T, T) -> int, x: T, y: T, z: T)
    requires TotalPreorder(cmp)
    ensures cmp(x, y) <= 0 && cmp(y, z) <= 0 ==> cmp(x, z) <= 0
    ensures cmp(x, y) < 0 && cmp(y, z) <= 0 ==> cmp(x, z) < 0
    ensures cmp(x, y) <= 0 && cmp(y, z) < 0 ==> cmp(x, z) < 0
    ensures cmp(x, y) >= 0 <==> cmp(y, x) <= 0
    ensures cmp(x, y) == 0 <==> cmp(y, x) == 0
  {
    assert cmp(x, y) <= 0 <==> cmp(y, x) >= 0;
    assert cmp(y, x) <= 0 <==> cmp(x, y) >= 0;
    assert cmp(x, z) <= 0 <==> cmp(z, x) >= 0;
    assert cmp(z, x) <= 0 <==> cmp(x, z) >= 0;
    assert cmp(z, y) <= 0 <==> cmp(y, z) >= 0;
    assert cmp(z, x) <= 0 && cmp(x, y) <= 0 ==> cmp(z, y) <= 0;
    assert cmp(y, z) <= 0 && cmp(z, x) <= 0 ==> cmp(y, x) <= 0;
  }

  // ----- Rearranging a segment -----

  // The n elements from b on are rearranged, the others stay.
  ghost predicate Perm<T>(was: seq<T>, now: seq<T>, b: nat, n: nat) {
    && |was| == |now| && b + n <= |was| && was[..b] == now[..b] && was[b + n..] == now[b + n..]
    && multiset(was[b..b + n]) == multiset(now[b..b + n])
  }

  lemma PermSelf<T>(s: seq<T>, b: nat, n: nat)
    requires b + n <= |s|
    ensures Perm(s, s, b, n)
  {
  }

  lemma PermTrans<T>(r: seq<T>, s: seq<T>, t: seq<T>, b: nat, n: nat)
    requires Perm(r, s, b, n) && Perm(s, t, b, n)
    ensures Perm(r, t, b, n)
  {
  }

  lemma PermWhole<T>(s: seq<T>, t: seq<T>, b: nat, n: nat)
    requires Perm(s, t, b, n)
    ensures multiset(s) == multiset(t)
  {
    assert s == s[..b] + s[b..b + n] + s[b + n..];
    assert t == t[..b] + t[b..b + n] + t[b + n..];
  }

  // Rearranging a part of a segment rearranges the segment.
  lemma PermWider<T>(s: seq<T>, t: seq<T>, b: nat, n: nat, b': nat, n': nat)
    requires Perm(s, t, b', n') && b <= b' && b' + n' <= b + n <= |s|
    ensures Perm(s, t, b, n)
  {
    assert s[b..b + n] == s[b..b'] + s[b'..b' + n'] + s[b' + n'..b + n];
    assert t[b..b + n] == t[b..b'] + t[b'..b' + n'] + t[b' + n'..b + n];
    assert s[b..b'] == s[..b'][b..] && t[b..b'] == t[..b'][b..];
    assert s[b' + n'..b + n] == s[b' + n'..][..b + n - b' - n'] && t[b' + n'..b + n] == t[b' + n'..][..b + n - b' - n'];
    assert s[..b] == s[..b'][..b] && t[..b] == t[..b'][..b];
    assert s[b + n..] == s[b' + n'..][b + n - b' - n'..] && t[b + n..] == t[b' + n'..][b + n - b' - n'..];
  }

  // Every element of the segment was in it before.
  lemma PermElement<T>(s: seq<T>, t: seq<T>, b: nat, n: nat, k: nat) returns (j: nat)
    requires Perm(s, t, b, n) && b <= k < b + n
    ensures b <= j < b + n && s[j] == t[k]
  {
    var u := s[b..b + n];
    assert t[k] == t[b..b + n][k - b];
    assert t[k] in multiset(t[b..b + n]);
    assert t[k] in multiset(u);
    var q :| 0 <= q < |u| && u[q] == t[k];
    j := b + q;
  }

  function Swapped<T>(s: seq<T>, i: nat, j: nat): seq<T>
    requires i < |s| && j < |s|
  {
    s[i := s[j]][j := s[i]]
  }

  lemma PermSwap<T>(s: seq<T>, i: nat, j: nat, b: nat, n: nat)
    requires b <= i < b + n && b <= j < b + n && b + n <= |s|
    ensures Perm(s, Swapped(s, i, j), b, n)
  {
    var u, t := s[b..b + n], Swapped(s, i, j);
    assert t[b..b + n] == Swapped(u, i - b, j - b);
    assert t[..b] == s[..b] && t[b + n..] == s[b + n..];
  }

  lemma SwappedFirst<T>(s: seq<T>, i: nat, j: nat)
    requires i < |s| && j < |s|
    ensures Swapped(s, i, j)[i] == s[j]
  {
  }

  // The exchange functions.
  method Swap<T>(a: array<T>, i: nat, j: nat, ghost b: nat, ghost n: nat)
    requires b <= i < b + n && b <= j < b + n && b + n <= a.Length
    modifies a
    ensures a[..] == Swapped(old(a[..]), i, j) && Perm(old(a[..]), a[..], b, n)
  {
    PermSwap(a[..], i, j, b, n);
    a[i], a[j] := a[j], a[i];
    assert a[..] == Swapped(old(a[..]), i, j);
  }

  // ----- Insertion sort -----

  // The first i + 1 elements from b on are in order, except that the one at j may have to go further down.
  ghost predicate SortedButAt<T>(s: seq<T>, b: nat, i: nat, j: nat, cmp: (T, T) -> int) {
    b + i < |s| && forall p, q :: b <= p < q <= b + i && q != b + j ==> cmp(s[p], s[q]) <= 0
  }

  lemma InsertionStep<T(!new)>(s: seq<T>, b: nat, i: nat, j: nat, cmp: (T, T) -> int)
    requires TotalPreorder(cmp) && SortedButAt(s, b, i, j, cmp) && 0 < j <= i && cmp(s[b + j - 1], s[b + j]) > 0
    ensures SortedButAt(Swapped(s, b + j, b + j - 1), b, i, j - 1, cmp)
  {
    Trans(cmp, s[b + j - 1], s[b + j], s[b + j]);
  }

  // The n elements from b on are in order.
  ghost predicate SortedSegment<T>(s: seq<T>, b: nat, n: nat, cmp: (T, T) -> int) {
    b + n <= |s| && forall p, q :: b <= p < q < b + n ==> cmp(s[p], s[q]) <= 0
  }

  lemma InsertionDone<T(!new)>(s: seq<T>, b: nat, i: nat, j: nat, cmp: (T, T) -> int)
    requires TotalPreorder(cmp) && SortedButAt(s, b, i, j, cmp) && j <= i &&
             (j == 0 || cmp(s[b + j - 1], s[b + j]) <= 0)
    ensures SortedSegment(s, b, i + 1, cmp)
  {
    forall p, q | b <= p < q <= b + i ensures cmp(s[p], s[q]) <= 0 {
      if q == b + j && p < b + j - 1 {
        assert cmp(s[p], s[b + j - 1]) <= 0;
        Trans(cmp, s[p], s[b + j - 1], s[b + j]);
      }
    }
  }

  lemma InsertionStart<T>(s: seq<T>, b: nat, i: nat, cmp: (T, T) -> int)
    requires b + i < |s| && SortedSegment(s, b, i, cmp)
    ensures SortedButAt(s, b, i, i, cmp)
  {
  }

  // The inner loop: element i goes down to its place.
  method Insert<T(!new)>(a: array<T>, b: nat, ghost n: nat, i: nat, cmp: (T, T) -> int)
    requires TotalPreorder(cmp) && b + n <= a.Length && i < n && SortedSegment(a[..], b, i, cmp)
    modifies a
    ensures Perm(old(a[..]), a[..], b, n) && SortedSegment(a[..], b, i + 1, cmp)
  {
    hide TotalPreorder;
    hide Perm;
    hide SortedButAt;
    hide SortedSegment;
    hide Swapped;
    ghost var was := a[..];
    PermSelf(was, b, n);
    InsertionStart(was, b, i, cmp);
    var j := i;
    while j > 0 && cmp(a[b + j - 1], a[b + j]) > 0
      invariant 0 <= j <= i && Perm(was, a[..], b, n) && SortedButAt(a[..], b, i, j, cmp)
    {
      ghost var s := a[..];
      InsertionStep(s, b, i, j, cmp);
      Swap(a, b + j, b + j - 1, b, n);
      PermTrans(was, s, a[..], b, n);
      j := j - 1;
    }
    InsertionDone(a[..], b, i, j, cmp);
  }

  // The loop at the end of rqsort for short segments.
  method InsertionSort<T(!new)>(a: array<T>, b: nat, n: nat, cmp: (T, T) -> int)
    requires TotalPreorder(cmp) && b + n <= a.Length
    modifies a
    ensures Perm(old(a[..]), a[..], b, n) && SortedSegment(a[..], b, n, cmp)
  {
    hide TotalPreorder;
    hide Perm;
    ghost var was := a[..];
    PermSelf(was, b, n);
    var i := 1;
    while i < n
      invariant 1 <= i && (i <= n || n == 0)
      invariant Perm(was, a[..], b, n) && SortedSegment(a[..], b, if n == 0 then 0 else i, cmp)
    {
      ghost var s := a[..];
      Insert(a, b, n, i, cmp);
      PermTrans(was, s, a[..], b, n);
      i := i + 1;
    }
  }

  // ----- Heapsort -----

  predicate IsChild(p: nat, k: nat) {
    k == 2 * p + 1 || k == 2 * p + 2
  }

  // Element k after b is not above element p.
  ghost predicate Under<T>(s: seq<T>, b: nat, k: nat, p: nat, cmp: (T, T) -> int) {
    b + k < |s| && b + p < |s| && cmp(s[b + k], s[b + p]) <= 0
  }

  // No element of the heap [0, n) after b is above its parent, for parents from lo on.
  ghost predicate HeapFrom<T>(s: seq<T>, b: nat, n: nat, lo: nat, cmp: (T, T) -> int) {
    b + n <= |s| && forall p: nat, k: nat :: IsChild(p, k) && k < n && lo <= p ==> Under(s, b, k, p, cmp)
  }

  // The same when r is in doubt: its children are compared with the parent of r instead.
  ghost predicate HeapBut<T>(s: seq<T>, b: nat, n: nat, lo: nat, r: nat, cmp: (T, T) -> int) {
    && b + n <= |s|
    && (forall p: nat, k: nat :: IsChild(p, k) && k < n && lo <= p && p != r ==> Under(s, b, k, p, cmp))
    && (forall g: nat, k: nat :: IsChild(g, r) && IsChild(r, k) && k < n && lo <= g ==> Under(s, b, k, g, cmp))
  }

  // c is the larger child of r.
  ghost predicate LargerChild<T>(s: seq<T>, b: nat, n: nat, r: nat, c: nat, cmp: (T, T) -> int) {
    IsChild(r, c) && c < n && b + n <= |s| && forall k: nat :: IsChild(r, k) && k < n ==> Under(s, b, k, c, cmp)
  }

  // What an exchange of r and its child c does to the edge from p to k.
  lemma SiftEdge<T(!new)>(s: seq<T>, b: nat, n: nat, lo: nat, r: nat, c: nat, cmp: (T, T) -> int, p: nat, k: nat)
    requires TotalPreorder(cmp) && HeapBut(s, b, n, lo, r, cmp) && lo <= r && LargerChild(s, b, n, r, c, cmp) &&
             Under(s, b, r, c, cmp)
    requires IsChild(p, k) && k < n && lo <= p && p != c
    ensures Under(Swapped(s, b + r, b + c), b, k, p, cmp)
  {
    if p == r {
      assert Under(s, b, k, c, cmp);
    } else if k == r {
      assert IsChild(p, r) && IsChild(r, c);
      assert Under(s, b, c, p, cmp);
    } else {
      assert Under(s, b, k, p, cmp);
    }
  }

  lemma SiftStep<T(!new)>(s: seq<T>, b: nat, n: nat, lo: nat, r: nat, c: nat, cmp: (T, T) -> int)
    requires TotalPreorder(cmp) && HeapBut(s, b, n, lo, r, cmp) && lo <= r && LargerChild(s, b, n, r, c, cmp) &&
             Under(s, b, r, c, cmp)
    ensures HeapBut(Swapped(s, b + r, b + c), b, n, lo, c, cmp)
  {
    var t := Swapped(s, b + r, b + c);
    forall p: nat, k: nat | IsChild(p, k) && k < n && lo <= p && p != c ensures Under(t, b, k, p, cmp) {
      SiftEdge(s, b, n, lo, r, c, cmp, p, k);
    }
    forall g: nat, k: nat | IsChild(g, c) && IsChild(c, k) && k < n && lo <= g ensures Under(t, b, k, g, cmp) {
      assert g == r;
      assert Under(s, b, k, c, cmp);
    }
  }

  lemma SiftDone<T(!new)>(s: seq<T>, b: nat, n: nat, lo: nat, r: nat, c: nat, cmp: (T, T) -> int)
    requires TotalPreorder(cmp) && HeapBut(s, b, n, lo, r, cmp)
    requires 2 * r + 1 >= n || (LargerChild(s, b, n, r, c, cmp) && b + r < |s| && cmp(s[b + r], s[b + c]) > 0)
    ensures HeapFrom(s, b, n, lo, cmp)
  {
    forall p: nat, k: nat | IsChild(p, k) && k < n && lo <= p ensures Under(s, b, k, p, cmp) {
      if p == r {
        assert Under(s, b, k, c, cmp);
        Trans(cmp, s[b + r], s[b + c], s[b + k]);
        Trans(cmp, s[b + k], s[b + c], s[b + r]);
      }
    }
  }

  // The inner loops of heapsortx: the element at r0 sinks within the first n.
  method SiftDown<T(!new)>(a: array<T>, b: nat, n: nat, ghost lo: nat, r0: nat, cmp: (T, T) -> int)
    requires TotalPreorder(cmp) && lo <= r0 < n && b + n <= a.Length && HeapBut(a[..], b, n, lo, r0, cmp)
    modifies a
    ensures Perm(old(a[..]), a[..], b, n) && HeapFrom(a[..], b, n, lo, cmp)
  {
    hide Perm;
    hide HeapFrom;
    hide HeapBut;
    hide TotalPreorder;
    hide LargerChild;
    hide Swapped;
    ghost var was := a[..];
    PermSelf(was, b, n);
    var r := r0;
    while 2 * r + 1 < n
      invariant lo <= r < n && Perm(was, a[..], b, n) && HeapBut(a[..], b, n, lo, r, cmp)
      decreases n - r
    {
      var c := ChooseChild(a, b, n, r, cmp);
      ghost var s := a[..];
      if cmp(a[b + r], a[b + c]) > 0 {
        SiftDone(s, b, n, lo, r, c, cmp);
        return;
      }
      SiftStep(s, b, n, lo, r, c, cmp);
      Swap(a, b + r, b + c, b, n);
      PermTrans(was, s, a[..], b, n);
      r := c;
    }
    SiftDone(a[..], b, n, lo, r, 0, cmp);
  }

  method ChooseChild<T(!new)>(a: array<T>, b: nat, n: nat, r: nat, cmp: (T, T) -> int) returns (c: nat)
    requires TotalPreorder(cmp) && b + n <= a.Length && 2 * r + 1 < n
    ensures LargerChild(a[..], b, n, r, c, cmp) && r < c < n
  {
    c := r * 2 + 1;
    if c + 1 < n {
      Trans(cmp, a[b + c], a[b + c + 1], a[b + c]);
      Reflexive(cmp, a[b + c]);
      Reflexive(cmp, a[b + c + 1]);
      if cmp(a[b + c], a[b + c + 1]) <= 0 {
        c := c + 1;
      }
    } else {
      Reflexive(cmp, a[b + c]);
    }
  }

  lemma Reflexive<T(!new)>(cmp: (T, T) -> int, x: T)
    requires TotalPreorder(cmp)
    ensures cmp(x, x) == 0
  {
    assert cmp(x, x) <= 0 <==> cmp(x, x) >= 0;
  }

  // The root of a heap is its largest element.
  lemma {:induction false} RootIsMax<T(!new)>(s: seq<T>, b: nat, n: nat, k: nat, cmp: (T, T) -> int)
    requires TotalPreorder(cmp) && HeapFrom(s, b, n, 0, cmp) && k < n
    ensures Under(s, b, k, 0, cmp)
    decreases k
  {
    if k == 0 {
      Reflexive(cmp, s[b]);
    } else {
      var p := (k - 1) / 2;
      assert IsChild(p, k);
      assert Under(s, b, k, p, cmp);
      RootIsMax(s, b, n, p, cmp);
      Trans(cmp, s[b + k], s[b + p], s[b]);
    }
  }

  // Elements from m on are in order and not below those before.
  ghost predicate TopSorted<T>(s: seq<T>, b: nat, n: nat, m: nat, cmp: (T, T) -> int) {
    b + n <= |s| && forall p, q :: b <= p < q < b + n && b + m <= q ==> cmp(s[p], s[q]) <= 0
  }

  // The largest element goes to the end of the heap.
  lemma ExtractStep<T(!new)>(s: seq<T>, b: nat, n: nat, i: nat, cmp: (T, T) -> int)
    requires TotalPreorder(cmp) && 0 < i < n && HeapFrom(s, b, i + 1, 0, cmp) && TopSorted(s, b, n, i + 1, cmp)
    ensures var t := Swapped(s, b, b + i); TopSorted(t, b, n, i, cmp) && HeapBut(t, b, i, 0, 0, cmp)
  {
    var t := Swapped(s, b, b + i);
    forall p, q | b <= p < q < b + n && b + i <= q ensures cmp(t[p], t[q]) <= 0 {
      RootIsMax(s, b, i + 1, i, cmp);
      if q == b + i {
        if p != b {
          RootIsMax(s, b, i + 1, p - b, cmp);
        }
      }
    }
    forall p: nat, k: nat | IsChild(p, k) && k < i && p != 0 ensures Under(t, b, k, p, cmp) {
      assert Under(s, b, k, p, cmp);
    }
  }

  // Sinking rearranges the heap only.
  lemma TopKept<T(!new)>(s: seq<T>, t: seq<T>, b: nat, n: nat, i: nat, cmp: (T, T) -> int)
    requires TopSorted(s, b, n, i, cmp) && i <= n && Perm(s, t, b, i)
    ensures TopSorted(t, b, n, i, cmp)
  {
    forall p, q | b <= p < q < b + n && b + i <= q ensures cmp(t[p], t[q]) <= 0 {
      AfterSame(s, t, b, i, q);
      if p < b + i {
        var j := PermElement(s, t, b, i, p);
      } else {
        AfterSame(s, t, b, i, p);
      }
    }
  }

  lemma AfterSame<T>(s: seq<T>, t: seq<T>, b: nat, i: nat, q: nat)
    requires Perm(s, t, b, i) && b + i <= q < |s|
    ensures s[q] == t[q]
  {
    assert s[q] == s[b + i..][q - b - i] && t[q] == t[b + i..][q - b - i];
  }

  lemma HeapStart<T>(s: seq<T>, b: nat, n: nat, cmp: (T, T) -> int)
    requires b + n <= |s|
    ensures HeapFrom(s, b, n, n / 2, cmp)
  {
  }

  lemma HeapDown<T>(s: seq<T>, b: nat, n: nat, i: nat, cmp: (T, T) -> int)
    requires HeapFrom(s, b, n, i + 1, cmp)
    ensures HeapBut(s, b, n, i, i, cmp)
  {
  }

  lemma TopNone<T>(s: seq<T>, b: nat, n: nat, cmp: (T, T) -> int)
    requires b + n <= |s|
    ensures TopSorted(s, b, n, n, cmp)
  {
  }

  lemma TopAll<T>(s: seq<T>, b: nat, n: nat, cmp: (T, T) -> int)
    requires TopSorted(s, b, n, 1, cmp)
    ensures SortedSegment(s, b, n, cmp)
  {
  }

  // heapsortx
  method HeapSort<T(!new)>(a: array<T>, b: nat, n: nat, cmp: (T, T) -> int)
    requires TotalPreorder(cmp) && b + n <= a.Length
    modifies a
    ensures Perm(old(a[..]), a[..], b, n) && SortedSegment(a[..], b, n, cmp)
  {
    hide Perm;
    hide HeapFrom;
    hide HeapBut;
    hide TotalPreorder;
    hide TopSorted;
    hide SortedSegment;
    ghost var was := a[..];
    PermSelf(was, b, n);
    if n > 1 {
      var i := n / 2;
      HeapStart(was, b, n, cmp);
      while i > 0
        invariant 0 <= i <= n / 2 && Perm(was, a[..], b, n) && HeapFrom(a[..], b, n, i, cmp)
      {
        i := i - 1;
        ghost var s := a[..];
        HeapDown(s, b, n, i, cmp);
        SiftDown(a, b, n, i, i, cmp);
        PermTrans(was, s, a[..], b, n);
      }
      i := n - 1;
      TopNone(a[..], b, n, cmp);
      while i > 0
        invariant 0 <= i < n && Perm(was, a[..], b, n) && HeapFrom(a[..], b, i + 1, 0, cmp) &&
                  TopSorted(a[..], b, n, i + 1, cmp)
      {
        ExtractOne(a, b, n, i, cmp, was);
        i := i - 1;
      }
      TopAll(a[..], b, n, cmp);
    } else {
      TopNone(a[..], b, n, cmp);
      Short(a[..], b, n, cmp);
    }
  }

  lemma Short<T>(s: seq<T>, b: nat, n: nat, cmp: (T, T) -> int)
    requires b + n <= |s| && n <= 1
    ensures SortedSegment(s, b, n, cmp)
  {
  }

  // One round of the second loop of heapsortx.
  method ExtractOne<T(!new)>(a: array<T>, b: nat, ghost n: nat, i: nat, cmp: (T, T) -> int, ghost was: seq<T>)
    requires TotalPreorder(cmp) && b + n <= a.Length && 0 < i < n && Perm(was, a[..], b, n)
    requires HeapFrom(a[..], b, i + 1, 0, cmp) && TopSorted(a[..], b, n, i + 1, cmp)
    modifies a
    ensures Perm(was, a[..], b, n) && HeapFrom(a[..], b, i, 0, cmp) && TopSorted(a[..], b, n, i, cmp)
  {
    hide Perm;
    hide HeapFrom;
    hide HeapBut;
    hide TotalPreorder;
    hide TopSorted;
    ghost var s := a[..];
    ExtractStep(s, b, n, i, cmp);
    Swap(a, b, b + i, b, n);
    PermTrans(was, s, a[..], b, n);
    ghost var t := a[..];
    SiftDown(a, b, i, 0, 0, cmp);
    TopKept(t, a[..], b, n, i, cmp);
    PermWider(t, a[..], b, n, b, i);
    PermTrans(was, t, a[..], b, n);
  }

  // ----- Partition -----

  function Sign(x: int): int {
    if x < 0 then -1 else if x > 0 then 1 else 0
  }

  // v compares with every element from x up to y with the given sign.
  ghost predicate Range<T>(s: seq<T>, x: nat, y: int, v: T, sign: int, cmp: (T, T) -> int) {
    y <= |s| && forall q :: x <= q < y ==> Sign(cmp(v, s[q])) == sign
  }

  // Four parts around the unknown [i, j): like the pivot, smaller, greater, like the pivot.
  ghost predicate Parts<T>(s: seq<T>, b: nat, n: nat, lt: nat, i: nat, j: int, gt: nat, cmp: (T, T) -> int) {
    && 1 <= lt <= i <= j <= gt <= n && b + n <= |s|
    && Range(s, b, b + lt, s[b], 0, cmp) && Range(s, b + lt, b + i, s[b], 1, cmp)
    && Range(s, b + j, b + gt, s[b], -1, cmp) && Range(s, b + gt, b + n, s[b], 0, cmp)
  }

  // An element like the pivot joins the left part.
  lemma EqualLeft<T>(s: seq<T>, b: nat, n: nat, lt: nat, i: nat, j: int, gt: nat, cmp: (T, T) -> int)
    requires Parts(s, b, n, lt, i, j, gt, cmp) && i < j && cmp(s[b], s[b + i]) == 0
    ensures Parts(Swapped(s, b + lt, b + i), b, n, lt + 1, i + 1, j, gt, cmp) && Swapped(s, b + lt, b + i)[b] == s[b]
  {
  }

  // A smaller element stays.
  lemma SmallerLeft<T>(s: seq<T>, b: nat, n: nat, lt: nat, i: nat, j: int, gt: nat, cmp: (T, T) -> int)
    requires Parts(s, b, n, lt, i, j, gt, cmp) && i < j && cmp(s[b], s[b + i]) > 0
    ensures Parts(s, b, n, lt, i + 1, j, gt, cmp)
  {
  }

  lemma EqualRight<T>(s: seq<T>, b: nat, n: nat, lt: nat, i: nat, j: int, gt: nat, cmp: (T, T) -> int)
    requires Parts(s, b, n, lt, i, j + 1, gt, cmp) && i < j && cmp(s[b], s[b + j]) == 0
    ensures Parts(Swapped(s, b + gt - 1, b + j), b, n, lt, i, j, gt - 1, cmp)
    ensures var t := Swapped(s, b + gt - 1, b + j); t[b] == s[b] && t[b + i] == s[b + i]
  {
  }

  lemma GreaterRight<T>(s: seq<T>, b: nat, n: nat, lt: nat, i: nat, j: int, gt: nat, cmp: (T, T) -> int)
    requires Parts(s, b, n, lt, i, j + 1, gt, cmp) && i <= j && cmp(s[b], s[b + j]) < 0
    ensures Parts(s, b, n, lt, i, j, gt, cmp)
  {
  }

  // A greater and a smaller element change places.
  lemma Exchange<T>(s: seq<T>, b: nat, n: nat, lt: nat, i: nat, j: int, gt: nat, cmp: (T, T) -> int)
    requires Parts(s, b, n, lt, i, j + 1, gt, cmp) && i < j && cmp(s[b], s[b + i]) < 0 && cmp(s[b], s[b + j]) > 0
    ensures Parts(Swapped(s, b + i, b + j), b, n, lt, i + 1, j, gt, cmp) && Swapped(s, b + i, b + j)[b] == s[b]
  {
  }

  lemma PartsStart<T(!new)>(s: seq<T>, b: nat, n: nat, cmp: (T, T) -> int)
    requires TotalPreorder(cmp) && 1 <= n && b + n <= |s|
    ensures Parts(s, b, n, 1, 1, n, n, cmp)
  {
    Reflexive(cmp, s[b]);
  }

  lemma PartsBounds<T>(s: seq<T>, b: nat, n: nat, lt: nat, i: nat, j: int, gt: nat, cmp: (T, T) -> int)
    requires Parts(s, b, n, lt, i, j, gt, cmp)
    ensures 1 <= lt <= i <= j <= gt <= n && b + n <= |s|
  {
  }

  // The first inner loop of the partition.
  method ScanLeft<T(!new)>(a: array<T>, b: nat, n: nat, lt0: nat, i0: nat, j: int, ghost gt: nat, cmp: (T, T) -> int)
    returns (lt: nat, i: nat)
    requires b + n <= a.Length && Parts(a[..], b, n, lt0, i0, j, gt, cmp)
    modifies a
    ensures Perm(old(a[..]), a[..], b, n) && Parts(a[..], b, n, lt, i, j, gt, cmp) && i0 <= i
    ensures b < a.Length && a[b] == old(a[b])
    ensures i < j ==> b + i < a.Length && cmp(a[b], a[b + i]) < 0
  {
    hide Perm;
    hide Parts;
    hide Swapped;
    ghost var was := a[..];
    PermSelf(was, b, n);
    lt, i := lt0, i0;
    PartsBounds(was, b, n, lt, i, j, gt, cmp);
    while i < j && cmp(a[b], a[b + i]) >= 0
      invariant 1 <= lt <= i && i0 <= i <= j <= n && Perm(was, a[..], b, n) && Parts(a[..], b, n, lt, i, j, gt, cmp)
      invariant a[b] == was[b]
      decreases j - i
    {
      ghost var s := a[..];
      if cmp(a[b], a[b + i]) == 0 {
        EqualLeft(s, b, n, lt, i, j, gt, cmp);
        Swap(a, b + lt, b + i, b, n);
        PermTrans(was, s, a[..], b, n);
        lt := lt + 1;
      } else {
        SmallerLeft(s, b, n, lt, i, j, gt, cmp);
      }
      i := i + 1;
    }
  }

  // The second inner loop of the partition; j is decremented before every test.
  method ScanRight<T(!new)>(a: array<T>, b: nat, n: nat, ghost lt: nat, i: nat, j0: int, gt0: nat, cmp: (T, T) -> int)
    returns (j: int, gt: nat)
    requires b + n <= a.Length && Parts(a[..], b, n, lt, i, j0, gt0, cmp) && (i < j0 ==> cmp(a[b], a[b + i]) < 0)
    modifies a
    ensures Perm(old(a[..]), a[..], b, n) && i - 1 <= j < j0 && Parts(a[..], b, n, lt, i, j + 1, gt, cmp)
    ensures b < a.Length && a[b] == old(a[b])
    ensures i <= j ==> b + j < a.Length && b + i < a.Length && cmp(a[b], a[b + i]) < 0
    ensures i < j ==> cmp(a[b], a[b + j]) > 0
  {
    hide Perm;
    hide Parts;
    hide Swapped;
    ghost var was := a[..];
    PermSelf(was, b, n);
    PartsBounds(was, b, n, lt, i, j0, gt0, cmp);
    j, gt := j0 - 1, gt0;
    while i < j && cmp(a[b], a[b + j]) <= 0
      invariant i - 1 <= j < j0 && j < gt <= n && 1 <= i && (i <= j ==> b + i < a.Length && cmp(a[b], a[b + i]) < 0)
      invariant Perm(was, a[..], b, n) && Parts(a[..], b, n, lt, i, j + 1, gt, cmp) && a[b] == was[b]
      decreases j - i
    {
      ghost var s := a[..];
      if cmp(a[b], a[b + j]) == 0 {
        gt := gt - 1;
        EqualRight(s, b, n, lt, i, j, gt + 1, cmp);
        Swap(a, b + gt, b + j, b, n);
        PermTrans(was, s, a[..], b, n);
      } else {
        GreaterRight(s, b, n, lt, i, j, gt, cmp);
      }
      j := j - 1;
      PartsBounds(a[..], b, n, lt, i, j + 1, gt, cmp);
    }
  }

  // The loop of the partition: in the end nothing is unknown.
  method FourParts<T(!new)>(a: array<T>, b: nat, n: nat, cmp: (T, T) -> int) returns (lt: nat, i: nat, gt: nat)
    requires TotalPreorder(cmp) && 1 <= n && b + n <= a.Length
    modifies a
    ensures Perm(old(a[..]), a[..], b, n) && Parts(a[..], b, n, lt, i, i, gt, cmp) && a[b] == old(a[b])
  {
    hide Perm;
    hide Parts;
    hide Swapped;
    ghost var was := a[..];
    PermSelf(was, b, n);
    PartsStart(was, b, n, cmp);
    lt, i, gt := 1, 1, n;
    var j := n;
    while true
      invariant Perm(was, a[..], b, n) && Parts(a[..], b, n, lt, i, j, gt, cmp) && a[b] == was[b]
      decreases j - i
    {
      ghost var s := a[..];
      PartsBounds(s, b, n, lt, i, j, gt, cmp);
      var jBefore := j;
      ghost var iBefore := i;
      lt, i := ScanLeft(a, b, n, lt, i, j, gt, cmp);
      PermTrans(was, s, a[..], b, n);
      s := a[..];
      j, gt := ScanRight(a, b, n, lt, i, j, gt, cmp);
      PermTrans(was, s, a[..], b, n);
      s := a[..];
      if i >= j {
        if i == j {
          GreaterRight(s, b, n, lt, i, j, gt, cmp);
        }
        return;
      }
      Exchange(s, b, n, lt, i, j, gt, cmp);
      PartsBounds(s, b, n, lt, i, j + 1, gt, cmp);
      Swap(a, b + i, b + j, b, n);
      PermTrans(was, s, a[..], b, n);
      i := i + 1;
    }
  }

  // ----- Moving the elements like the pivot to the middle -----

  // swap_block: the ranges of span elements at x and y change places.
  ghost predicate BlocksSwapped<T>(s: seq<T>, t: seq<T>, x: nat, y: nat, span: nat) {
    && |s| == |t| && x + span <= y && y + span <= |s|
    && (forall q :: x <= q < x + span ==> t[q] == s[q + (y - x)])
    && (forall q :: y <= q < y + span ==> t[q] == s[q - (y - x)])
    && (forall q :: 0 <= q < |s| && !(x <= q < x + span) && !(y <= q < y + span) ==> t[q] == s[q])
  }

  lemma BlocksStep<T>(r: seq<T>, s: seq<T>, x: nat, y: nat, k: nat, span: nat)
    requires BlocksSwapped(r, s, x, y, k) && k < span && x + span <= y && y + span <= |s|
    ensures BlocksSwapped(r, Swapped(s, x + k, y + k), x, y, k + 1)
  {
  }

  lemma BlocksStart<T>(s: seq<T>, x: nat, y: nat)
    requires x <= y <= |s|
    ensures BlocksSwapped(s, s, x, y, 0)
  {
  }

  method SwapBlock<T>(a: array<T>, x: nat, y: nat, span: nat, ghost b: nat, ghost n: nat)
    requires b <= x && x + span <= y && y + span <= b + n <= a.Length
    modifies a
    ensures Perm(old(a[..]), a[..], b, n) && BlocksSwapped(old(a[..]), a[..], x, y, span)
  {
    hide Perm;
    hide BlocksSwapped;
    hide Swapped;
    ghost var was := a[..];
    PermSelf(was, b, n);
    BlocksStart(was, x, y);
    var k := 0;
    while k < span
      invariant 0 <= k <= span && Perm(was, a[..], b, n) && BlocksSwapped(was, a[..], x, y, k)
    {
      ghost var s := a[..];
      BlocksStep(was, s, x, y, k, span);
      Swap(a, x + k, y + k, b, n);
      PermTrans(was, s, a[..], b, n);
      k := k + 1;
    }
  }

  // Smaller than, like and greater than v.
  ghost predicate ThreeWay<T>(s: seq<T>, b: nat, n: nat, lt: nat, gt: nat, v: T, cmp: (T, T) -> int) {
    && lt < gt <= n && b + n <= |s|
    && Range(s, b, b + lt, v, 1, cmp) && Range(s, b + lt, b + gt, v, 0, cmp) && Range(s, b + gt, b + n, v, -1, cmp)
  }

  lemma LeftBlock<T>(s: seq<T>, t: seq<T>, b: nat, n: nat, lt: nat, i: nat, gt: nat, span: nat, cmp: (T, T) -> int)
    requires Parts(s, b, n, lt, i, i, gt, cmp) && span == (if lt <= i - lt then lt else i - lt) &&
             BlocksSwapped(s, t, b, b + i - span, span)
    ensures Range(t, b, b + (i - lt), s[b], 1, cmp) && Range(t, b + (i - lt), b + i, s[b], 0, cmp)
    ensures Range(t, b + i, b + gt, s[b], -1, cmp) && Range(t, b + gt, b + n, s[b], 0, cmp)
  {
    var v := s[b];
    forall q | b <= q < b + (i - lt) ensures Sign(cmp(v, t[q])) == 1 {
      if q < b + span {
        assert t[q] == s[q + (i - span)];
      }
    }
    forall q | b + (i - lt) <= q < b + i ensures Sign(cmp(v, t[q])) == 0 {
      if q >= b + i - span {
        assert t[q] == s[q - (i - span)];
      }
    }
  }

  lemma RightBlock<T>(s: seq<T>, t: seq<T>, b: nat, n: nat, lt: nat, i: nat, gt: nat, span: nat, v: T,
                      cmp: (T, T) -> int)
    requires 1 <= lt <= i <= gt <= n && b + n <= |s|
    requires Range(s, b, b + (i - lt), v, 1, cmp) && Range(s, b + (i - lt), b + i, v, 0, cmp)
    requires Range(s, b + i, b + gt, v, -1, cmp) && Range(s, b + gt, b + n, v, 0, cmp)
    requires span == (if n - gt <= gt - i then n - gt else gt - i) && BlocksSwapped(s, t, b + i, b + n - span, span)
    ensures ThreeWay(t, b, n, i - lt, n - (gt - i), v, cmp)
  {
    var g := n - (gt - i);
    forall q | b + (i - lt) <= q < b + g ensures Sign(cmp(v, t[q])) == 0 {
      if b + i <= q < b + i + span {
        assert t[q] == s[q + (n - span - i)];
      }
    }
    forall q | b + g <= q < b + n ensures Sign(cmp(v, t[q])) == -1 {
      if q >= b + n - span {
        assert t[q] == s[q - (n - span - i)];
      }
    }
  }

  // med3: the index of the middle one of three elements
  function Med3<T>(s: seq<T>, x: nat, y: nat, z: nat, cmp: (T, T) -> int): (m: nat)
    requires x < |s| && y < |s| && z < |s|
    ensures m == x || m == y || m == z
  {
    if cmp(s[x], s[y]) < 0 then (if cmp(s[y], s[z]) < 0 then y else if cmp(s[x], s[z]) < 0 then z else x)
    else (if cmp(s[y], s[z]) > 0 then y else if cmp(s[x], s[z]) < 0 then x else z)
  }

  // v lies between two of x, y and z.
  ghost predicate Middle<T>(v: T, x: T, y: T, z: T, cmp: (T, T) -> int) {
    || (cmp(x, v) <= 0 && cmp(v, y) <= 0) || (cmp(y, v) <= 0 && cmp(v, x) <= 0)
    || (cmp(x, v) <= 0 && cmp(v, z) <= 0) || (cmp(z, v) <= 0 && cmp(v, x) <= 0)
  }

  // med3 takes a middle element.
  lemma Med3IsMiddle<T(!new)>(s: seq<T>, x: nat, y: nat, z: nat, cmp: (T, T) -> int)
    requires TotalPreorder(cmp) && x < |s| && y < |s| && z < |s|
    ensures Middle(s[Med3(s, x, y, z, cmp)], s[x], s[y], s[z], cmp)
  {
    Reflexive(cmp, s[x]);
    Reflexive(cmp, s[y]);
    Reflexive(cmp, s[z]);
    Trans(cmp, s[x], s[y], s[z]);
    Trans(cmp, s[y], s[x], s[z]);
    Trans(cmp, s[x], s[z], s[y]);
    Trans(cmp, s[y], s[z], s[x]);
  }

  // The elements like the pivot move to the middle.
  method GatherMiddle<T(!new)>(a: array<T>, b: nat, n: nat, lt0: nat, i: nat, gt0: nat, cmp: (T, T) -> int)
    returns (lt: nat, gt: nat, ghost v: T)
    requires b + n <= a.Length && Parts(a[..], b, n, lt0, i, i, gt0, cmp)
    modifies a
    ensures Perm(old(a[..]), a[..], b, n) && ThreeWay(a[..], b, n, lt, gt, v, cmp)
    ensures b < a.Length && v == old(a[b])
  {
    hide Perm;
    hide Range;
    hide Parts;
    hide BlocksSwapped;
    hide ThreeWay;
    ghost var was := a[..];
    PartsBounds(was, b, n, lt0, i, i, gt0, cmp);
    v := was[b];
    var span := if lt0 <= i - lt0 then lt0 else i - lt0;
    SwapBlock(a, b, b + i - span, span, b, n);
    ghost var s := a[..];
    LeftBlock(was, s, b, n, lt0, i, gt0, span, cmp);
    span := if n - gt0 <= gt0 - i then n - gt0 else gt0 - i;
    SwapBlock(a, b + i, b + n - span, span, b, n);
    PermTrans(was, s, a[..], b, n);
    RightBlock(s, a[..], b, n, lt0, i, gt0, span, v, cmp);
    lt, gt := i - lt0, n - (gt0 - i);
  }

  // One round of rqsort on a segment: the pivot v is the middle of three elements, and the segment is
  // split around it.
  method Partition<T(!new)>(a: array<T>, b: nat, n: nat, cmp: (T, T) -> int) returns (lt: nat, gt: nat, ghost v: T)
    requires TotalPreorder(cmp) && n > 6 && b + n <= a.Length
    modifies a
    ensures Perm(old(a[..]), a[..], b, n) && ThreeWay(a[..], b, n, lt, gt, v, cmp)
    ensures Middle(v, old(a[b + n / 4]), old(a[b + 2 * (n / 4)]), old(a[b + 3 * (n / 4)]), cmp)
  {
    hide Perm;
    hide Parts;
    hide Swapped;
    hide Med3;
    hide Middle;
    hide TotalPreorder;
    hide ThreeWay;
    ghost var was := a[..];
    var m4 := n / 4;
    var m := Med3(a[..], b + m4, b + 2 * m4, b + 3 * m4, cmp);
    Med3IsMiddle(was, b + m4, b + 2 * m4, b + 3 * m4, cmp);
    Swap(a, b, m, b, n);
    SwappedFirst(was, b, m);
    ghost var s := a[..];
    var i: nat;
    lt, i, gt := FourParts(a, b, n, cmp);
    PermTrans(was, s, a[..], b, n);
    s := a[..];
    lt, gt, v := GatherMiddle(a, b, n, lt, i, gt, cmp);
    PermTrans(was, s, a[..], b, n);
  }

  // ----- Segments still to be sorted -----

  datatype Segment = Segment(base: nat, count: nat, depth: nat)

  const STACK_SIZE: nat := 50

  predicate Inside(g: Segment, i: int) {
    g.base <= i < g.base + g.count
  }

  ghost predicate Disjoint(gs: seq<Segment>) {
    forall k, l, i :: 0 <= k < l < |gs| && Inside(gs[k], i) ==> !Inside(gs[l], i)
  }

  // Both positions are in one of the segments.
  ghost predicate Together(gs: seq<Segment>, i: int, j: int) {
    exists k :: 0 <= k < |gs| && Inside(gs[k], i) && Inside(gs[k], j)
  }

  // Everything is in order except within the segments.
  ghost predicate SortedBut<T>(s: seq<T>, gs: seq<Segment>, cmp: (T, T) -> int) {
    && Disjoint(gs) && (forall k :: 0 <= k < |gs| ==> gs[k].base + gs[k].count <= |s|)
    && forall i, j :: 0 <= i < j < |s| && !Together(gs, i, j) ==> cmp(s[i], s[j]) <= 0
  }

  lemma WholeStart<T>(s: seq<T>, n: nat, cmp: (T, T) -> int)
    requires n == |s|
    ensures SortedBut(s, [Segment(0, n, 0)], cmp)
  {
    var gs := [Segment(0, n, 0)];
    forall i, j | 0 <= i < j < |s| ensures Together(gs, i, j) {
      assert Inside(gs[0], i) && Inside(gs[0], j);
    }
  }

  lemma NothingLeft<T>(s: seq<T>, cmp: (T, T) -> int)
    requires SortedBut(s, [], cmp)
    ensures Sorted(s, cmp)
  {
    forall i, j | 0 <= i < j < |s| ensures cmp(s[i], s[j]) <= 0 {
      assert !Together([], i, j);
    }
  }

  lemma NotTogether(gs: seq<Segment>, g: Segment, i: int, j: int)
    requires Disjoint(gs + [g]) && Inside(g, i) != Inside(g, j)
    ensures !Together(gs + [g], i, j)
  {
    var hs := gs + [g];
    forall k | 0 <= k < |hs| ensures !(Inside(hs[k], i) && Inside(hs[k], j)) {
      assert hs[|gs|] == g;
    }
  }

  // Where an element of the rearranged segment came from keeps its place in the order of the others.
  lemma {:induction false} Rearranged<T>(s: seq<T>, t: seq<T>, gs: seq<Segment>, g: Segment, cmp: (T, T) -> int)
    requires SortedBut(s, gs + [g], cmp) && Perm(s, t, g.base, g.count)
    ensures SortedBut(t, gs + [g], cmp)
  {
    var hs := gs + [g];
    forall i, j | 0 <= i < j < |t| && !Together(hs, i, j) ensures cmp(t[i], t[j]) <= 0 {
      RearrangedPair(s, t, gs, g, cmp, i, j);
    }
  }

  lemma SameElement<T>(s: seq<T>, t: seq<T>, g: Segment, i: nat)
    requires Perm(s, t, g.base, g.count) && i < |s| && !Inside(g, i)
    ensures s[i] == t[i]
  {
    if i < g.base {
      assert s[i] == s[..g.base][i] && t[i] == t[..g.base][i];
    } else {
      AfterSame(s, t, g.base, g.count, i);
    }
  }

  lemma RearrangedPair<T>(s: seq<T>, t: seq<T>, gs: seq<Segment>, g: Segment, cmp: (T, T) -> int, i: nat, j: nat)
    requires SortedBut(s, gs + [g], cmp) && Perm(s, t, g.base, g.count) && i < j < |t| && !Together(gs + [g], i, j)
    ensures cmp(t[i], t[j]) <= 0
  {
    hide Perm;
    var hs := gs + [g];
    assert hs[|gs|] == g;
    assert |s| == |t| by { PermLength(s, t, g.base, g.count); }
    if Inside(g, i) {
      var i' := PermElement(s, t, g.base, g.count, i);
      SameElement(s, t, g, j);
      NotTogether(gs, g, i', j);
    } else if Inside(g, j) {
      var j' := PermElement(s, t, g.base, g.count, j);
      SameElement(s, t, g, i);
      NotTogether(gs, g, i, j');
    } else {
      SameElement(s, t, g, i);
      SameElement(s, t, g, j);
    }
  }

  lemma PermLength<T>(s: seq<T>, t: seq<T>, b: nat, n: nat)
    requires Perm(s, t, b, n)
    ensures |s| == |t|
  {
  }

  lemma LastTogether(gs: seq<Segment>, g: Segment, i: int, j: int)
    ensures Together(gs + [g], i, j) ==> Together(gs, i, j) || (Inside(g, i) && Inside(g, j))
  {
    var hs := gs + [g];
    if Together(hs, i, j) {
      var k :| 0 <= k < |hs| && Inside(hs[k], i) && Inside(hs[k], j);
      if k < |gs| {
        assert hs[k] == gs[k];
      }
    }
  }

  lemma StillTogether(gs: seq<Segment>, more: seq<Segment>, i: int, j: int)
    ensures Together(gs, i, j) ==> Together(gs + more, i, j)
  {
    if Together(gs, i, j) {
      var k :| 0 <= k < |gs| && Inside(gs[k], i) && Inside(gs[k], j);
      assert (gs + more)[k] == gs[k];
    }
  }

  // A sorted segment is done.
  lemma SegmentDone<T>(s: seq<T>, gs: seq<Segment>, g: Segment, cmp: (T, T) -> int)
    requires SortedBut(s, gs + [g], cmp) && SortedSegment(s, g.base, g.count, cmp)
    ensures SortedBut(s, gs, cmp)
  {
    var hs := gs + [g];
    forall k, l, i | 0 <= k < l < |gs| && Inside(gs[k], i) ensures !Inside(gs[l], i) {
      assert Inside(hs[k], i);
      assert hs[l] == gs[l];
    }
    forall k | 0 <= k < |gs| ensures gs[k].base + gs[k].count <= |s| {
      assert hs[k] == gs[k];
    }
    forall i, j | 0 <= i < j < |s| && !Together(gs, i, j) ensures cmp(s[i], s[j]) <= 0 {
      LastTogether(gs, g, i, j);
    }
  }

  // After the partition the smaller and the greater elements are left, in two segments.
  lemma SegmentSplit<T(!new)>(s: seq<T>, gs: seq<Segment>, g: Segment, g1: Segment, g2: Segment, lt: nat, gt: nat,
                              v: T, cmp: (T, T) -> int)
    requires TotalPreorder(cmp) && SortedBut(s, gs + [g], cmp) && ThreeWay(s, g.base, g.count, lt, gt, v, cmp)
    requires (g1.base == g.base && g1.count == lt && g2.base == g.base + gt && g2.count == g.count - gt)
          || (g2.base == g.base && g2.count == lt && g1.base == g.base + gt && g1.count == g.count - gt)
    ensures SortedBut(s, gs + [g1] + [g2], cmp)
  {
    var hs, ns := gs + [g], gs + [g1] + [g2];
    assert hs[|gs|] == g;
    forall k, l, i | 0 <= k < l < |ns| && Inside(ns[k], i) ensures !Inside(ns[l], i) {
      var k', l' := if k < |gs| then k else |gs|, if l < |gs| then l else |gs|;
      assert Inside(hs[k'], i);
      if k' < l' {
        assert !Inside(hs[l'], i);
      }
    }
    forall k | 0 <= k < |ns| ensures ns[k].base + ns[k].count <= |s| {
      assert k < |gs| ==> hs[k] == ns[k];
    }
    forall i, j | 0 <= i < j < |s| && !Together(ns, i, j) ensures cmp(s[i], s[j]) <= 0 {
      SplitPair(s, gs, g, g1, g2, lt, gt, v, cmp, i, j);
    }
  }

  lemma SplitPair<T(!new)>(s: seq<T>, gs: seq<Segment>, g: Segment, g1: Segment, g2: Segment, lt: nat, gt: nat, v: T,
                           cmp: (T, T) -> int, i: nat, j: nat)
    requires TotalPreorder(cmp) && SortedBut(s, gs + [g], cmp) && ThreeWay(s, g.base, g.count, lt, gt, v, cmp)
    requires (g1.base == g.base && g1.count == lt && g2.base == g.base + gt && g2.count == g.count - gt)
          || (g2.base == g.base && g2.count == lt && g1.base == g.base + gt && g1.count == g.count - gt)
    requires i < j < |s| && !Together(gs + [g1] + [g2], i, j)
    ensures cmp(s[i], s[j]) <= 0
  {
    var hs, ns := gs + [g], gs + [g1] + [g2];
    LastTogether(gs, g, i, j);
    StillTogether(gs, [g1] + [g2], i, j);
    assert gs + ([g1] + [g2]) == ns;
    if Together(hs, i, j) {
      if Inside(g, i) && Inside(g, j) {
        assert ns[|gs|] == g1 && ns[|gs| + 1] == g2;
        assert !(Inside(g1, i) && Inside(g1, j)) && !(Inside(g2, i) && Inside(g2, j));
        assert Sign(cmp(v, s[i])) >= 0 && Sign(cmp(v, s[j])) <= 0;
        Trans(cmp, v, s[i], s[j]);
        Trans(cmp, s[i], v, s[j]);
        Trans(cmp, v, s[j], s[i]);
      }
    }
  }

  // ----- rqsort -----

  // The work that is left: every segment counts twice its elements and one.
  ghost function Work(gs: seq<Segment>): nat {
    if gs == [] then 0 else Work(gs[..|gs| - 1]) + 2 * gs[|gs| - 1].count + 1
  }

  lemma WorkSnoc(gs: seq<Segment>, g: Segment)
    ensures Work(gs + [g]) == Work(gs) + 2 * g.count + 1
  {
    assert (gs + [g])[..|gs|] == gs;
  }

  // The depths on the stack are positive and strictly increase.
  ghost predicate Deep(gs: seq<Segment>) {
    (forall k :: 0 <= k < |gs| ==> gs[k].depth >= 1) && forall k, l :: 0 <= k < l < |gs| ==> gs[k].depth < gs[l].depth
  }

  // So each entry is deeper than its position.
  lemma {:induction false} DeepAt(gs: seq<Segment>, k: nat)
    requires Deep(gs) && k < |gs|
    ensures gs[k].depth >= k + 1
    decreases k
  {
    if k > 0 {
      DeepAt(gs, k - 1);
    }
  }

  // The segments above a stack of gs, of which the first is being worked on.
  ghost predicate State<T>(s: seq<T>, gs: seq<Segment>, g: Segment, cmp: (T, T) -> int) {
    SortedBut(s, gs + [g], cmp) && Deep(gs) && forall k :: 0 <= k < |gs| ==> gs[k].depth <= g.depth
  }

  lemma StateFits<T>(s: seq<T>, gs: seq<Segment>, g: Segment, cmp: (T, T) -> int)
    requires State(s, gs, g, cmp)
    ensures g.base + g.count <= |s|
  {
    assert (gs + [g])[|gs|] == g;
  }

  lemma StateSplit<T(!new)>(s: seq<T>, gs: seq<Segment>, g: Segment, g1: Segment, g2: Segment, lt: nat, gt: nat, v: T,
                            cmp: (T, T) -> int)
    requires TotalPreorder(cmp) && State(s, gs, g, cmp) && ThreeWay(s, g.base, g.count, lt, gt, v, cmp)
    requires g1.depth == g2.depth == g.depth + 1
    requires (g1.base == g.base && g1.count == lt && g2.base == g.base + gt && g2.count == g.count - gt)
          || (g2.base == g.base && g2.count == lt && g1.base == g.base + gt && g1.count == g.count - gt)
    ensures State(s, gs + [g1], g2, cmp) && Work(gs + [g1]) + 2 * g2.count < Work(gs) + 2 * g.count
  {
    SegmentSplit(s, gs, g, g1, g2, lt, gt, v, cmp);
    WorkSnoc(gs, g1);
    DeepPush(gs, g, g1);
    ThreeBounds(s, g.base, g.count, lt, gt, v, cmp);
    hide SortedBut;
    hide ThreeWay;
    hide TotalPreorder;
    hide Deep;
    hide Work;
  }

  lemma DeepPush(gs: seq<Segment>, g: Segment, g1: Segment)
    requires Deep(gs) && (forall k :: 0 <= k < |gs| ==> gs[k].depth <= g.depth) && g1.depth == g.depth + 1
    ensures Deep(gs + [g1]) && forall k :: 0 <= k < |gs + [g1]| ==> (gs + [g1])[k].depth <= g1.depth
  {
  }

  // A segment that is sorted within is done.
  lemma StateDone<T(!new)>(s: seq<T>, t: seq<T>, gs: seq<Segment>, g: Segment, cmp: (T, T) -> int)
    requires State(s, gs, g, cmp) && Perm(s, t, g.base, g.count) && SortedSegment(t, g.base, g.count, cmp)
    ensures SortedBut(t, gs, cmp) && Deep(gs)
  {
    Rearranged(s, t, gs, g, cmp);
    SegmentDone(t, gs, g, cmp);
  }

  lemma StateRearranged<T(!new)>(s: seq<T>, t: seq<T>, gs: seq<Segment>, g: Segment, cmp: (T, T) -> int)
    requires State(s, gs, g, cmp) && Perm(s, t, g.base, g.count)
    ensures State(t, gs, g, cmp) && multiset(s) == multiset(t)
  {
    Rearranged(s, t, gs, g, cmp);
    PermWhole(s, t, g.base, g.count);
  }

  // The larger part is stacked and the smaller one is worked on next.
  method SplitSegment<T(!new)>(a: array<T>, ghost gs: seq<Segment>, g: Segment, cmp: (T, T) -> int)
    returns (larger: Segment, smaller: Segment)
    requires TotalPreorder(cmp) && State(a[..], gs, g, cmp) && g.count > 6
    modifies a
    ensures multiset(a[..]) == multiset(old(a[..])) && State(a[..], gs + [larger], smaller, cmp)
    ensures Work(gs + [larger]) + 2 * smaller.count < Work(gs) + 2 * g.count && |gs| <= g.depth
    ensures larger.depth == smaller.depth == g.depth + 1 && smaller.count <= larger.count &&
            larger.count + smaller.count < g.count
  {
    hide Perm;
    hide ThreeWay;
    hide SortedBut;
    hide TotalPreorder;
    ghost var s := a[..];
    StateFits(s, gs, g, cmp);
    DepthBound(s, gs, g, cmp);
    hide State;
    var lt, gt;
    ghost var v;
    lt, gt, v := Partition(a, g.base, g.count, cmp);
    StateRearranged(s, a[..], gs, g, cmp);
    ThreeBounds(a[..], g.base, g.count, lt, gt, v, cmp);
    if lt > g.count - gt {
      larger, smaller := Segment(g.base, lt, g.depth + 1), Segment(g.base + gt, g.count - gt, g.depth + 1);
    } else {
      larger, smaller := Segment(g.base + gt, g.count - gt, g.depth + 1), Segment(g.base, lt, g.depth + 1);
    }
    StateSplit(a[..], gs, g, larger, smaller, lt, gt, v, cmp);
  }

  lemma ThreeBounds<T>(s: seq<T>, b: nat, n: nat, lt: nat, gt: nat, v: T, cmp: (T, T) -> int)
    requires ThreeWay(s, b, n, lt, gt, v, cmp)
    ensures lt < gt <= n
  {
  }

  // The end of a round: heapsort when the depth is exhausted, insertion sort for a short segment.
  method FinishSegment<T(!new)>(a: array<T>, ghost gs: seq<Segment>, g: Segment, cmp: (T, T) -> int, deep: bool)
    requires TotalPreorder(cmp) && State(a[..], gs, g, cmp)
    modifies a
    ensures multiset(a[..]) == multiset(old(a[..])) && SortedBut(a[..], gs, cmp) && Deep(gs)
  {
    hide Perm;
    hide SortedBut;
    hide SortedSegment;
    hide TotalPreorder;
    ghost var s := a[..];
    StateFits(s, gs, g, cmp);
    hide State;
    if deep {
      HeapSort(a, g.base, g.count, cmp);
    } else {
      InsertionSort(a, g.base, g.count, cmp);
    }
    StateRearranged(s, a[..], gs, g, cmp);
    StateDone(s, a[..], gs, g, cmp);
  }

  // rqsort: sorted, a rearrangement of what was there, and never more than 50 segments on the stack
  method Sort<T(!new)>(a: array<T>, cmp: (T, T) -> int)
    requires TotalPreorder(cmp)
    modifies a
    ensures Sorted(a[..], cmp) && multiset(a[..]) == multiset(old(a[..]))
  {
    hide TotalPreorder;
    hide SortedBut;
    hide Sorted;
    if a.Length < 2 {
      AlreadySorted(a[..], cmp);
      return;
    }
    var stack := new Segment[STACK_SIZE](_ => Segment(0, 0, 0));
    stack[0] := Segment(0, a.Length, 0);
    var sp := 1;
    assert stack[..1] == [Segment(0, a.Length, 0)];
    WholeStart(a[..], a.Length, cmp);
    while sp > 0
      invariant 0 <= sp <= STACK_SIZE && fresh(stack) && stack.Length == STACK_SIZE
      invariant multiset(a[..]) == multiset(old(a[..])) && SortedBut(a[..], stack[..sp], cmp)
      invariant sp == 1 || Deep(stack[..sp])
      decreases Work(stack[..sp])
    {
      sp := SortSegment(a, stack, sp, cmp);
    }
    assert stack[..0] == [];
    NothingLeft(a[..], cmp);
  }

  lemma AlreadySorted<T>(s: seq<T>, cmp: (T, T) -> int)
    requires |s| < 2
    ensures Sorted(s, cmp)
  {
  }

  lemma PopState<T>(s: seq<T>, gs: seq<Segment>, g: Segment, cmp: (T, T) -> int)
    requires SortedBut(s, gs + [g], cmp) && (gs == [] || Deep(gs + [g]))
    ensures State(s, gs, g, cmp) && Work(gs + [g]) == Work(gs) + 2 * g.count + 1
  {
    WorkSnoc(gs, g);
    if gs != [] {
      DeepFirst(gs, g);
    }
  }

  lemma DeepFirst(gs: seq<Segment>, g: Segment)
    requires Deep(gs + [g])
    ensures Deep(gs) && forall k :: 0 <= k < |gs| ==> gs[k].depth <= g.depth
  {
    assert (gs + [g])[|gs|] == g;
    assert forall k :: 0 <= k < |gs| ==> gs[k] == (gs + [g])[k];
  }

  lemma DepthBound<T>(s: seq<T>, gs: seq<Segment>, g: Segment, cmp: (T, T) -> int)
    requires State(s, gs, g, cmp)
    ensures |gs| <= g.depth
  {
    if gs != [] {
      DeepAt(gs, |gs| - 1);
    }
  }

  // One segment taken from the stack; what is split off it goes on the stack.
  method SortSegment<T(!new)>(a: array<T>, stack: array<Segment>, sp0: nat, cmp: (T, T) -> int) returns (sp: nat)
    requires stack as object != a as object
    requires TotalPreorder(cmp) && 0 < sp0 <= STACK_SIZE && stack.Length == STACK_SIZE &&
             SortedBut(a[..], stack[..sp0], cmp)
    requires sp0 == 1 || Deep(stack[..sp0])
    modifies a, stack
    ensures sp <= STACK_SIZE && multiset(a[..]) == multiset(old(a[..])) && SortedBut(a[..], stack[..sp], cmp) &&
            Deep(stack[..sp])
    ensures Work(stack[..sp]) < Work(old(stack[..sp0]))
  {
    hide TotalPreorder;
    hide SortedBut;
    hide State;
    hide Work;
    sp := sp0 - 1;
    var g := stack[sp];
    assert stack[..sp0] == stack[..sp] + [g];
    PopState(a[..], stack[..sp], g, cmp);
    var deep := false;
    while g.count > 6
      invariant 0 <= sp <= STACK_SIZE && stack.Length == STACK_SIZE
      invariant multiset(a[..]) == multiset(old(a[..])) && State(a[..], stack[..sp], g, cmp)
      invariant Work(stack[..sp]) + 2 * g.count < Work(old(stack[..sp0]))
      decreases g.count
    {
      if g.depth + 1 > STACK_SIZE {
        // no entry deeper than the stack is long
        deep := true;
        break;
      }
      ghost var gs := stack[..sp];
      DepthBound(a[..], gs, g, cmp);
      var larger, smaller := SplitSegment(a, gs, g, cmp);
      stack[sp] := larger;
      sp := sp + 1;
      assert stack[..sp] == gs + [larger];
      g := smaller;
    }
    FinishSegment(a, stack[..sp], g, cmp, deep);
  }
}
