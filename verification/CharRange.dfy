// Sets of code points kept as sorted boundary points (quickjs/libunicode.c).

module CharRanges {

  const UINT32_MAX: int := 0xFFFF_FFFF

  type u32 = x: int | 0 <= x <= UINT32_MAX

  // ----- What a list of boundary points denotes -----

  // Points come in pairs; the pair (lo, hi) stands for the code points lo <= c < hi.
  ghost predicate In(pts: seq<u32>, c: int) {
    exists k :: 0 <= k && 2 * k + 1 < |pts| && Between(pts, k, c)
  }

  ghost predicate Between(pts: seq<u32>, k: int, c: int)
    requires 0 <= k && 2 * k + 1 < |pts|
  {
    pts[2 * k] <= c < pts[2 * k + 1]
  }

  ghost predicate Ascending(pts: seq<u32>) {
    forall i, j :: 0 <= i < j < |pts| ==> pts[i] <= pts[j]
  }

  ghost predicate StrictlyAscending(pts: seq<u32>) {
    forall i, j :: 0 <= i < j < |pts| ==> pts[i] < pts[j]
  }

  // Whether an odd number of the points is <= c.
  ghost predicate Odd(pts: seq<u32>, c: int) {
    pts != [] && (if pts[|pts| - 1] <= c then !Odd(pts[..|pts| - 1], c) else Odd(pts[..|pts| - 1], c))
  }

  // Above all points, parity is the parity of the length.
  lemma {:induction false} OddAbove(pts: seq<u32>, c: int)
    requires forall i :: 0 <= i < |pts| ==> pts[i] <= c
    ensures Odd(pts, c) <==> |pts| % 2 == 1
  {
    if pts != [] {
      OddAbove(pts[..|pts| - 1], c);
    }
  }

  lemma {:induction false} OddBelow(pts: seq<u32>, c: int)
    requires forall i :: 0 <= i < |pts| ==> c < pts[i]
    ensures !Odd(pts, c)
  {
    if pts != [] {
      OddBelow(pts[..|pts| - 1], c);
    }
  }

  lemma OddSnoc(pts: seq<u32>, v: u32, c: int)
    ensures Odd(pts + [v], c) <==> (Odd(pts, c) != (v <= c))
  {
    assert (pts + [v])[..|pts|] == pts;
  }

  // For ascending points, membership in an interval is parity of the points passed.
  lemma {:induction false} InIsOdd(pts: seq<u32>, c: int)
    requires Ascending(pts) && |pts| % 2 == 0
    ensures In(pts, c) <==> Odd(pts, c)
  {
    if pts != [] {
      var n := |pts|;
      var init := pts[..n - 2];
      InIsOdd(init, c);
      assert pts[..n - 1][..n - 2] == init;
      assert Odd(pts, c) <==> ((Odd(init, c) != (pts[n - 2] <= c)) != (pts[n - 1] <= c));
      if In(pts, c) {
        var k :| 0 <= k && 2 * k + 1 < |pts| && Between(pts, k, c);
        if 2 * k + 1 < n - 2 {
          assert Between(init, k, c);
        } else {
          assert k == n / 2 - 1;
          OddAbove(init, c);
        }
      }
      if Odd(pts, c) {
        if pts[n - 2] <= c < pts[n - 1] {
          assert Between(pts, n / 2 - 1, c);
        } else {
          var k :| 0 <= k && 2 * k + 1 < |init| && Between(init, k, c);
          assert Between(pts, k, c);
        }
      }
    }
  }

  lemma AllInIsOdd(pts: seq<u32>)
    requires Ascending(pts) && |pts| % 2 == 0
    ensures forall c: int :: In(pts, c) <==> Odd(pts, c)
  {
    forall c: int ensures In(pts, c) <==> Odd(pts, c) {
      InIsOdd(pts, c);
    }
  }

  // Strictly ascending point lists are canonical: equal sets have equal points.
  lemma {:induction false} Canonical(p: seq<u32>, q: seq<u32>)
    requires StrictlyAscending(p) && StrictlyAscending(q)
    requires |p| % 2 == 0 && |q| % 2 == 0
    requires forall c: int :: In(p, c) <==> In(q, c)
    ensures p == q
  {
    AllInIsOdd(p);
    AllInIsOdd(q);
    CanonicalOdd(p, q);
  }

  lemma {:induction false} CanonicalOdd(p: seq<u32>, q: seq<u32>)
    requires StrictlyAscending(p) && StrictlyAscending(q)
    requires |p| % 2 == |q| % 2
    requires forall c: int :: Odd(p, c) <==> Odd(q, c)
    ensures p == q
  {
    if p == [] && q == [] {
    } else {
      LastPointMatters(p, q);
      LastPointMatters(q, p);
      var m, n := |p| - 1, |q| - 1;
      assert p[m] == q[n];
      forall c: int ensures Odd(p[..m], c) <==> Odd(q[..n], c) {
        assert Odd(p, c) <==> Odd(q, c);
      }
      CanonicalOdd(p[..m], q[..n]);
      assert p == p[..m] + [p[m]] && q == q[..n] + [q[n]];
    }
  }

  // Just below its last point a strictly ascending list changes parity, so a list of the same
  // parity everywhere cannot end earlier.
  lemma LastPointMatters(p: seq<u32>, q: seq<u32>)
    requires StrictlyAscending(p) && StrictlyAscending(q)
    requires |p| % 2 == |q| % 2
    requires forall c: int :: Odd(p, c) <==> Odd(q, c)
    ensures p != [] ==> q != [] && p[|p| - 1] <= q[|q| - 1]
  {
    if p != [] {
      var last: int := p[|p| - 1];
      OddAbove(p[..|p| - 1], last - 1);
      if q == [] || q[|q| - 1] < last {
        OddAbove(q, last - 1);
      }
    }
  }

  // ----- The operations -----

  datatype Op = Union | Inter | Xor

  predicate Apply(op: Op, x: bool, y: bool) {
    match op
    case Union => x || y
    case Inter => x && y
    case Xor => x != y
  }

  // r, built from the consumed prefixes a and b, has the right parity everywhere.
  ghost predicate Combines(op: Op, r: seq<u32>, a: seq<u32>, b: seq<u32>) {
    forall c: int :: Odd(r, c) <==> Apply(op, Odd(a, c), Odd(b, c))
  }

  ghost predicate Below(s: seq<u32>, v: int) {
    forall i :: 0 <= i < |s| ==> s[i] <= v
  }

  lemma BelowSnoc(s: seq<u32>, last: int, v: u32)
    requires Below(s, last) && last <= v
    ensures Below(s, v) && Below(s + [v], v)
    ensures Ascending(s) ==> Ascending(s + [v])
  {
  }

  lemma NextAbove(s: seq<u32>, i: nat)
    requires Ascending(s) && i <= |s|
    ensures 0 < i < |s| ==> s[i - 1] <= s[i]
  {
  }

  lemma CombinesNothing(op: Op)
    ensures Combines(op, [], [], []) && Below([], 0) && Ascending([])
  {
  }

  lemma CombinesIn(op: Op, r: seq<u32>, a: seq<u32>, b: seq<u32>)
    requires Combines(op, r, a, b)
    requires Ascending(r) && |r| % 2 == 0
    requires Ascending(a) && |a| % 2 == 0
    requires Ascending(b) && |b| % 2 == 0
    ensures forall c: int :: In(r, c) <==> Apply(op, In(a, c), In(b, c))
  {
    AllInIsOdd(r);
    AllInIsOdd(a);
    AllInIsOdd(b);
  }

  // Consuming one more point v >= everything so far, from a and/or b, and adding v to r exactly
  // when the in/out status changes keeps the parities right.
  lemma CombinesStep(op: Op, r: seq<u32>, a: seq<u32>, b: seq<u32>, v: u32, fromA: bool, fromB: bool)
    requires Combines(op, r, a, b)
    requires Below(r, v) && Below(a, v) && Below(b, v)
    ensures var a' := if fromA then a + [v] else a;
            var b' := if fromB then b + [v] else b;
            var isIn := Apply(op, |a'| % 2 == 1, |b'| % 2 == 1);
            Combines(op, if isIn != (|r| % 2 == 1) then r + [v] else r, a', b')
  {
    var a' := if fromA then a + [v] else a;
    var b' := if fromB then b + [v] else b;
    var isIn := Apply(op, |a'| % 2 == 1, |b'| % 2 == 1);
    var r' := if isIn != (|r| % 2 == 1) then r + [v] else r;
    forall c: int
      ensures Odd(r', c) <==> Apply(op, Odd(a', c), Odd(b', c))
    {
      OddAppended(r, v, r' != r, c);
      OddAppended(a, v, fromA, c);
      OddAppended(b, v, fromB, c);
      assert Odd(r, c) <==> Apply(op, Odd(a, c), Odd(b, c));
    }
  }

  // Appending (or not) a point v that is not below the others.
  lemma OddAppended(s: seq<u32>, v: u32, append: bool, c: int)
    requires Below(s, v)
    ensures var s' := if append then s + [v] else s;
            Odd(s', c) <==> if v <= c then |s'| % 2 == 1 else Odd(s, c)
  {
    OddSnoc(s, v, c);
    if v <= c {
      OddAbove(s, c);
    }
  }

  // Points scanned so far (src) against points written so far (out) in the compression loop.
  ghost predicate SameSet(out: seq<u32>, src: seq<u32>) {
    forall c: int :: Odd(out, c) <==> Odd(src, c)
  }

  // Two equal neighbours cancel; a run of touching intervals lo, m, m, hi collapses to lo, hi.
  lemma SameSetPair(out: seq<u32>, src: seq<u32>, lo: u32, hi: u32)
    requires SameSet(out, src)
    ensures SameSet(out + [lo, hi], src + [lo, hi])
    ensures lo == hi ==> SameSet(out, src + [lo, hi])
  {
    forall c: int
      ensures Odd(out + [lo, hi], c) <==> Odd(src + [lo, hi], c)
      ensures lo == hi ==> (Odd(out, c) <==> Odd(src + [lo, hi], c))
    {
      assert out + [lo, hi] == (out + [lo]) + [hi] && src + [lo, hi] == (src + [lo]) + [hi];
      OddSnoc(out + [lo], hi, c);
      OddSnoc(out, lo, c);
      OddSnoc(src + [lo], hi, c);
      OddSnoc(src, lo, c);
      assert Odd(out, c) <==> Odd(src, c);
    }
  }

  lemma SameSetExtend(out: seq<u32>, src: seq<u32>, lo: u32, mid: u32, hi: u32)
    requires SameSet(out + [lo, mid], src)
    ensures SameSet(out + [lo, hi], src + [mid, hi])
  {
    forall c: int ensures Odd(out + [lo, hi], c) <==> Odd(src + [mid, hi], c) {
      assert Odd(out + [lo, mid], c) <==> Odd(src, c);
      assert out + [lo, mid] == (out + [lo]) + [mid];
      assert out + [lo, hi] == (out + [lo]) + [hi];
      assert src + [mid, hi] == (src + [mid]) + [hi];
      OddSnoc(out + [lo], mid, c);
      OddSnoc(out + [lo], hi, c);
      OddSnoc(src + [mid], hi, c);
      OddSnoc(src, mid, c);
    }
  }

  lemma SameSetIn(out: seq<u32>, src: seq<u32>)
    requires SameSet(out, src)
    requires StrictlyAscending(out) && |out| % 2 == 0
    requires Ascending(src) && |src| % 2 == 0
    ensures forall c: int :: In(out, c) <==> In(src, c)
  {
    AllInIsOdd(out);
    AllInIsOdd(src);
  }

  lemma AscendingAt(s: seq<u32>, i: nat, j: nat)
    requires Ascending(s) && i < j < |s|
    ensures s[i] <= s[j]
  {
  }

  lemma NothingYet()
    ensures SameSet([], []) && StrictlyAscending([])
  {
  }

  lemma StrictlyAscendingPair(out: seq<u32>, lo: u32, hi: u32)
    requires StrictlyAscending(out) && lo < hi
    requires out != [] ==> out[|out| - 1] < lo
    ensures StrictlyAscending(out + [lo, hi])
  {
  }

  class CharRange {
    var points: array<u32>
    var len: nat

    ghost predicate Valid()
      reads this
    {
      len <= points.Length
    }

    function Pts(): seq<u32>
      requires Valid()
      reads this, points
    {
      points[..len]
    }

    constructor ()
      ensures Valid() && Pts() == [] && fresh(points)
    {
      points := new u32[0];
      len := 0;
    }

    // cr_realloc: make room for `size` points; the contents stay.
    method Realloc(size: nat)
      requires Valid()
      modifies this`points
      ensures Valid() && size <= points.Length
      ensures Pts() == old(Pts())
      ensures points == old(points) || fresh(points)
    {
      if size > points.Length {
        var newSize := if size > points.Length * 3 / 2 then size else points.Length * 3 / 2;
        var buf := new u32[newSize];
        for i := 0 to len
          invariant points == old(points) && len <= points.Length <= buf.Length
          invariant buf[..i] == points[..i]
        {
          buf[i] := points[i];
        }
        assert buf[..len] == points[..len];
        points := buf;
      }
    }

    method AddPoint(v: u32)
      requires Valid()
      modifies this, points
      ensures Valid() && Pts() == old(Pts()) + [v]
      ensures points == old(points) || fresh(points)
    {
      if len >= points.Length {
        Realloc(len + 1);
      }
      points[len] := v;
      len := len + 1;
    }

    // cr_compress: the same set, in place, with no interval empty or touching the next.
    method Compress()
      requires Valid() && Ascending(Pts()) && len % 2 == 0
      modifies this`len, points
      ensures Valid()
      ensures StrictlyAscending(Pts()) && len % 2 == 0
      ensures forall c: int :: In(Pts(), c) <==> In(old(Pts()), c)
    {
      hide In;
      hide SameSet;
      hide Ascending;
      hide StrictlyAscending;
      ghost var s, out := Pts(), [];
      NothingYet();
      var i, k := 0, 0;
      while i + 1 < len
        invariant 0 <= k <= i <= len == |s| <= points.Length
        invariant i % 2 == 0 && k % 2 == 0
        invariant forall t :: i <= t < len ==> points[t] == s[t]
        invariant out == points[..k]
        invariant StrictlyAscending(out)
        invariant k > 0 && i < len ==> out[k - 1] < s[i]
        invariant SameSet(out, s[..i])
        decreases len - i
      {
        assert (i + 2) % 2 == 0 && (k + 2) % 2 == 0;
        assert s[..i + 2] == s[..i] + [s[i], s[i + 1]];
        SameSetPair(out, s[..i], s[i], s[i + 1]);
        AscendingAt(s, i, i + 1);
        if points[i] == points[i + 1] {
          if i + 2 < len {
            AscendingAt(s, i, i + 2);
          }
          i := i + 2;
        } else {
          var j := RunEnd(i, s, out);
          StrictlyAscendingPair(out, s[i], s[j + 1]);
          PutPair(k, points[i], points[j + 1]);
          out := points[..k + 2];
          k := k + 2;
          i := j + 2;
        }
      }
      len := k;
      assert s[..i] == s;
      SameSetIn(out, s);
    }

    // Write one interval at k.
    method PutPair(k: nat, lo: u32, hi: u32)
      requires k + 2 <= points.Length
      modifies points
      ensures points[..k + 2] == old(points[..k]) + [lo, hi]
      ensures forall t :: k + 2 <= t < points.Length ==> points[t] == old(points[t])
    {
      points[k] := lo;
      points[k + 1] := hi;
    }

    // The inner loop of the compression: from the interval at i, step over the intervals that
    // touch their predecessor; j is the last one of the run.
    method RunEnd(i: nat, ghost s: seq<u32>, ghost out: seq<u32>) returns (j: nat)
      requires Valid() && len == |s| && len % 2 == 0 && i % 2 == 0 && i + 1 < len
      requires forall t :: i <= t < len ==> points[t] == s[t]
      requires Ascending(s) && s[i] < s[i + 1]
      requires SameSet(out + [s[i], s[i + 1]], s[..i + 2])
      ensures i <= j && j + 1 < len && j % 2 == 0 && (j + 2) % 2 == 0
      ensures s[i] < s[j + 1] && (j + 2 < len ==> s[j + 1] < s[j + 2])
      ensures SameSet(out + [s[i], s[j + 1]], s[..j + 2])
    {
      j := i;
      while j + 3 < len && points[j + 1] == points[j + 2]
        invariant i <= j && j + 1 < len && j % 2 == 0
        invariant s[i] < s[j + 1]
        invariant SameSet(out + [s[i], s[j + 1]], s[..j + 2])
      {
        SameSetExtend(out, s[..j + 2], s[i], s[j + 1], s[j + 3]);
        assert s[..j + 4] == s[..j + 2] + [s[j + 2], s[j + 3]];
        j := j + 2;
      }
    }

    // cr_op: set this empty range to `a op b` by merging the two point lists.
    method Combine(a: seq<u32>, b: seq<u32>, op: Op)
      requires Valid() && len == 0
      requires Ascending(a) && |a| % 2 == 0
      requires Ascending(b) && |b| % 2 == 0
      modifies this, points
      ensures Valid() && StrictlyAscending(Pts()) && len % 2 == 0
      ensures forall c: int :: In(Pts(), c) <==> match op
                                                 case Union => In(a, c) || In(b, c)
                                                 case Inter => In(a, c) && In(b, c)
                                                 case Xor => In(a, c) != In(b, c)
      ensures points == old(points) || fresh(points)
    {
      hide In;
      hide Combines;
      hide Ascending;
      hide Below;
      CombinesNothing(op);
      var aIdx, bIdx := 0, 0;
      ghost var last := 0;
      while aIdx < |a| || bIdx < |b|
        invariant aIdx <= |a| && bIdx <= |b|
        invariant Valid()
        invariant points == old(points) || fresh(points)
        invariant Combines(op, Pts(), a[..aIdx], b[..bIdx])
        invariant Below(a[..aIdx], last) && Below(b[..bIdx], last) && Below(Pts(), last)
        invariant aIdx < |a| ==> last <= a[aIdx]
        invariant bIdx < |b| ==> last <= b[bIdx]
        invariant Ascending(Pts())
        decreases |a| - aIdx + |b| - bIdx
      {
        ghost var a0, b0, r0 := aIdx, bIdx, Pts();
        var v: u32;
        if aIdx < |a| && bIdx < |b| {
          if a[aIdx] < b[bIdx] {
            v := a[aIdx];
            aIdx := aIdx + 1;
          } else if a[aIdx] == b[bIdx] {
            v := a[aIdx];
            aIdx := aIdx + 1;
            bIdx := bIdx + 1;
          } else {
            v := b[bIdx];
            bIdx := bIdx + 1;
          }
        } else if aIdx < |a| {
          v := a[aIdx];
          aIdx := aIdx + 1;
        } else {
          v := b[bIdx];
          bIdx := bIdx + 1;
        }
        assert aIdx > a0 ==> a[..aIdx] == a[..a0] + [v];
        assert bIdx > b0 ==> b[..bIdx] == b[..b0] + [v];
        BelowSnoc(a[..a0], last, v);
        BelowSnoc(b[..b0], last, v);
        BelowSnoc(r0, last, v);
        NextAbove(a, aIdx);
        NextAbove(b, bIdx);
        CombinesStep(op, r0, a[..a0], b[..b0], v, aIdx > a0, bIdx > b0);
        last := v;
        var isIn := Apply(op, aIdx % 2 == 1, bIdx % 2 == 1);
        if isIn != (len % 2 == 1) {
          AddPoint(v);
        }
      }
      assert a[..aIdx] == a && b[..bIdx] == b;
      EvenAtEnd(op, Pts(), a, b);
      CombinesIn(op, Pts(), a, b);
      Compress();
    }

    // cr_union1: add the set b to this one.
    method UnionWith(b: seq<u32>)
      requires Valid() && Ascending(Pts()) && len % 2 == 0
      requires Ascending(b) && |b| % 2 == 0
      modifies this, points
      ensures Valid() && StrictlyAscending(Pts()) && len % 2 == 0
      ensures forall c: int :: In(Pts(), c) <==> In(old(Pts()), c) || In(b, c)
    {
      var a := Pts();
      len := 0;
      points := new u32[0];
      Combine(a, b, Union);
    }

    // cr_invert: complement within [0, UINT32_MAX).
    method Invert()
      requires Valid() && Ascending(Pts()) && len % 2 == 0
      modifies this, points
      ensures Valid() && StrictlyAscending(Pts()) && len % 2 == 0
      ensures forall c: int :: In(Pts(), c) <==> 0 <= c < UINT32_MAX && !In(old(Pts()), c)
    {
      hide In;
      hide Ascending;
      hide StrictlyAscending;
      assert (len + 2) % 2 == 0;
      ghost var s := Pts();
      Realloc(len + 2);
      ShiftUp();
      points[0] := 0;
      points[len + 1] := UINT32_MAX;
      len := len + 2;
      InvertedPoints(s);
      assert Pts() == [0] + s + [UINT32_MAX];
      Compress();
    }

    // memmove of the points one place up.
    method ShiftUp()
      requires Valid() && len < points.Length
      modifies points
      ensures points[1..len + 1] == old(Pts())
    {
      ghost var s := Pts();
      var i := len;
      while i > 0
        invariant 0 <= i <= len == |s|
        invariant forall t :: 0 <= t < i ==> points[t] == s[t]
        invariant forall t :: i <= t < len ==> points[t + 1] == s[t]
      {
        points[i] := points[i - 1];
        i := i - 1;
      }
    }
  }

  // Merging ends outside both sets, so the number of points produced is even.
  lemma EvenAtEnd(op: Op, r: seq<u32>, a: seq<u32>, b: seq<u32>)
    requires Combines(op, r, a, b) && |a| % 2 == 0 && |b| % 2 == 0
    ensures |r| % 2 == 0
  {
    OddAbove(r, UINT32_MAX);
    OddAbove(a, UINT32_MAX);
    OddAbove(b, UINT32_MAX);
    assert Odd(r, UINT32_MAX) <==> Apply(op, Odd(a, UINT32_MAX), Odd(b, UINT32_MAX));
  }

  lemma {:induction false} OddCons(v: u32, pts: seq<u32>, c: int)
    ensures Odd([v] + pts, c) <==> (Odd(pts, c) != (v <= c))
  {
    if pts == [] {
      assert [v] + pts == [] + [v];
      OddSnoc([], v, c);
    } else {
      var init, last := pts[..|pts| - 1], pts[|pts| - 1];
      OddCons(v, init, c);
      assert [v] + pts == ([v] + init) + [last];
      assert pts == init + [last];
      OddSnoc([v] + init, last, c);
      OddSnoc(init, last, c);
    }
  }

  lemma InvertedPoints(s: seq<u32>)
    requires Ascending(s) && |s| % 2 == 0
    ensures Ascending([0] + s + [UINT32_MAX])
    ensures forall c: int :: In([0] + s + [UINT32_MAX], c) <==> 0 <= c < UINT32_MAX && !In(s, c)
  {
    var inv := [0] + s + [UINT32_MAX];
    assert Ascending(inv);
    AllInIsOdd(inv);
    AllInIsOdd(s);
    forall c: int
      ensures Odd(inv, c) <==> 0 <= c < UINT32_MAX && !Odd(s, c)
    {
      OddSnoc([0] + s, UINT32_MAX, c);
      OddCons(0, s, c);
      if c < 0 {
        OddBelow(s, c);
      }
      if UINT32_MAX <= c {
        OddAbove(s, c);
      }
    }
  }
}
