// The recursive Karatsuba square root of quickjs/libbf.c on limb arrays.

module LimbSqrtRec {
  import opened Limbs
  import opened LimbOps
  import opened LimbDiv
  import opened LimbRecip
  import opened LimbDivLarge
  import opened LimbSqrt

  // ----- The quotient by twice the root -----

  lemma ReducedRemainder(r: int, qh: int, p: int, s1: int, r': int, k: int)
    requires qh == 1 && 0 <= r && 0 <= r' < p && s1 < p && r + p <= 2 * s1 && r' - k * p == r - s1 && (k == 0 || k == 1)
    ensures r' == r + qh * p - s1
  {
  }

  // Divide r1 * beta + c1 by the root s1; qh is the part of the quotient at weight beta.
  method DivideByRoot(tabs: array<Limb>, so: nat, taba: array<Limb>, ao: nat, l: nat, h: nat, tmp: array<Limb>,
                      qh0: Limb)
    returns (qh: Limb)
    requires tabs != taba && tmp != tabs && tmp != taba && 1 <= l <= h
    requires so + h <= tabs.Length && ao + l + h <= taba.Length && l + 1 <= tmp.Length
    requires tabs[so + h - 1] >= HALF && qh0 <= 1
    requires At(taba, ao + l, h) + qh0 * Pow(h) <= 2 * At(tabs, so, h)
    modifies taba, tmp
    ensures Outside(old(taba[..]), taba[..], ao, l + h) && qh <= 2
    ensures old((At(taba, ao + l, h) + qh0 * Pow(h)) * Pow(l) + At(taba, ao, l))
         == (qh * Pow(l) + At(tmp, 0, l)) * At(tabs, so, h) + At(taba, ao, h)
    ensures At(taba, ao, h) < At(tabs, so, h)
  {
    hide Val;
    hide Pow;
    ghost var s1, r, c1 := At(tabs, so, h), At(taba, ao + l, h), At(taba, ao, l);
    ghost var low := taba[ao..ao + l];
    AtBound(tabs, so, h);
    AtBound(taba, ao + l, h);
    if qh0 != 0 {
      var k := MpSub(taba, ao + l, taba, ao + l, tabs, so, h, 0);
      AtBound(taba, ao + l, h);
      ReducedRemainder(r, qh0, Pow(h), s1, At(taba, ao + l, h), k);
    }
    assert taba[ao..ao + l] == low;
    AtConcat(taba, ao, l, h);
    ghost var reduced := At(taba, ao + l, h);
    MpDivnorm(tmp, 0, taba, ao, l + h, tabs, so, h);
    qh := qh0 + tmp[l];
    AtSnoc(tmp, 0, l);
    QuotientParts(r, qh0, Pow(h), Pow(l), c1, s1, reduced, At(tmp, 0, l), tmp[l], At(taba, ao, h));
  }

  lemma QuotientParts(r: int, qh0: int, p: int, beta: int, c1: int, s1: int, reduced: int, low: int, top: int, u: int)
    requires qh0 == 0 || qh0 == 1
    requires reduced == r + qh0 * p - qh0 * s1 && c1 + reduced * beta == (low + top * beta) * s1 + u
    ensures (r + qh0 * p) * beta + c1 == ((qh0 + top) * beta + low) * s1 + u
  {
    assert (r + qh0 * p) * beta == reduced * beta + (qh0 * s1) * beta;
    assert ((qh0 + top) * beta + low) * s1 == (low + top * beta) * s1 + (qh0 * s1) * beta;
  }

  // ----- Halving the quotient -----

  lemma HalfArith(qh: int, beta: int, low: int, s1: int, u: int, x: int, low': int, ql: int, qh': int)
    requires (qh * beta + low) * s1 + u == x && low' * 2 + ql == low + (qh % 2) * beta && qh' == qh / 2 && 0 <= qh
    ensures (qh' * beta + low') * (2 * s1) + (u + ql * s1) == x
  {
    assert qh == 2 * qh' + qh % 2;
    assert (2 * qh' + qh % 2) * beta == 2 * (qh' * beta) + (qh % 2) * beta;
    assert qh * beta + low == 2 * (qh' * beta + low') + ql;
    assert (2 * (qh' * beta + low') + ql) * s1 == (qh' * beta + low') * (2 * s1) + ql * s1;
  }

  // Instead of dividing by 2 * s1: halve the quotient, and add s1 back to the remainder if it was odd.
  method HalveQuotient(tabs: array<Limb>, so: nat, taba: array<Limb>, ao: nat, l: nat, h: nat, tmp: array<Limb>,
                       qh0: Limb, ghost x: int)
    returns (qh: Limb, rh: Limb)
    requires tabs != taba && tmp != tabs && tmp != taba && 1 <= l <= h && qh0 <= 2
    requires so + l + h <= tabs.Length && ao + h <= taba.Length && l + 1 <= tmp.Length
    requires (qh0 * Pow(l) + At(tmp, 0, l)) * At(tabs, so + l, h) + At(taba, ao, h) == x
    requires At(taba, ao, h) < At(tabs, so + l, h)
    modifies tabs, taba
    ensures Outside(old(tabs[..]), tabs[..], so, l) && Outside(old(taba[..]), taba[..], ao, h)
    ensures qh == qh0 / 2 && rh <= 1
    ensures (qh * Pow(l) + At(tabs, so, l)) * (2 * At(tabs, so + l, h)) + (At(taba, ao, h) + rh * Pow(h)) == x
    ensures At(taba, ao, h) + rh * Pow(h) < 2 * At(tabs, so + l, h)
  {
    hide Val;
    hide Pow;
    ghost var s1s, s1, u, low := tabs[so + l..so + l + h], At(tabs, so + l, h), At(taba, ao, h), At(tmp, 0, l);
    CopyLimbs(tabs, so, tmp, 0, l);
    Pow2Small();
    var ql := MpShr(tabs, so, tabs, so, l, 1, qh0 % 2);
    qh := qh0 / 2;
    assert tabs[so + l..so + l + h] == s1s;
    rh := 0;
    if ql != 0 {
      rh := MpAdd(taba, ao, taba, ao, tabs, so + l, h, 0);
    }
    HalfArith(qh0, Pow(l), low, s1, u, x, At(tabs, so, l), ql, qh);
    AtBound(taba, ao, h);
  }

  // ----- Subtracting the square -----

  lemma AddHighArith(low: int, beta: int, s1: int, qh: int, hi: int, k: int, p: int, pn: int)
    requires hi + k * p == s1 + qh && pn == beta * p
    ensures low + hi * beta == s1 * beta + (qh * beta + low) - k * pn
  {
    assert (s1 + qh - k * p) * beta == s1 * beta + qh * beta - k * (beta * p);
  }

  // The root estimate s1 * beta + q, possibly one carry too large for its n limbs.
  method AddHigh(tabs: array<Limb>, so: nat, l: nat, h: nat, qh: Limb) returns (ghost k: int)
    requires 1 <= l <= h && so + l + h <= tabs.Length && qh <= 1
    modifies tabs
    ensures Outside(old(tabs[..]), tabs[..], so, l + h) && (k == 0 || k == 1)
    ensures At(tabs, so, l) == old(At(tabs, so, l))
    ensures At(tabs, so, l + h) == old(At(tabs, so + l, h)) * Pow(l)
              + (qh * Pow(l) + old(At(tabs, so, l))) - k * Pow(l + h)
  {
    hide Val;
    hide Pow;
    ghost var lows, s1, low := tabs[so..so + l], At(tabs, so + l, h), At(tabs, so, l);
    k := MpAddUi(tabs, so + l, qh, h);
    assert tabs[so..so + l] == lows;
    AtConcat(tabs, so, l, h);
    PowAdd(l, h);
    AddHighArith(low, Pow(l), s1, qh, At(tabs, so + l, h), k, Pow(h), Pow(l + h));
  }

  lemma SquareArith(lo: int, hi: int, lo': int, hi': int, c: int, k: int, p: int, w: int, sq: int, pn: int)
    requires lo' - c * p == lo - sq && hi' - k * w == hi - c && pn == p * w
    ensures lo' + hi' * p == (lo + hi * p) - sq + k * pn
  {
    assert (hi - c + k * w) * p == hi * p - c * p + k * (p * w);
  }

  // Subtract the square of the low limbs of tabs from the low 2 * l limbs of taba, the product
  // being computed in the unused upper half of taba.
  method SubtractLowSquare(taba: array<Limb>, ao: nat, tabs: array<Limb>, so: nat, l: nat, n: nat) returns (c: Limb)
    requires tabs != taba && 1 <= l && 2 * l <= n && so + l <= tabs.Length && ao + 2 * n <= taba.Length
    modifies taba
    ensures Outside(old(taba[..]), taba[..], ao, 2 * n) && c <= 1
    ensures taba[ao + 2 * l..ao + n] == old(taba[ao + 2 * l..ao + n])
    ensures At(taba, ao, 2 * l) - c * Pow(2 * l) == old(At(taba, ao, 2 * l)) - At(tabs, so, l) * At(tabs, so, l)
  {
    hide Val;
    hide Pow;
    ghost var los, his := taba[ao..ao + 2 * l], taba[ao + 2 * l..ao + n];
    MpMul(taba, ao + n, tabs, so, l, tabs, so, l);
    assert taba[ao..ao + 2 * l] == los && taba[ao + 2 * l..ao + n] == his;
    c := MpSub(taba, ao, taba, ao, taba, ao + n, 2 * l, 0);
    assert taba[ao + 2 * l..ao + n] == his;
  }

  lemma SquareOfBeta(qh: int, beta: int, low: int)
    requires qh == 0 || (qh == 1 && low == 0)
    ensures (qh * beta + low) * (qh * beta + low) == if qh == 0 then low * low else beta * beta
  {
  }

  // taba := taba - q^2, q being either beta (qh set) or the low limbs of tabs; returns the borrow.
  method SubtractSquare(taba: array<Limb>, ao: nat, tabs: array<Limb>, so: nat, l: nat, n: nat, qh: Limb)
    returns (k: Limb)
    requires tabs != taba && 1 <= l && 2 * l <= n && so + l <= tabs.Length && ao + 2 * n <= taba.Length && qh <= 1
    requires qh == 1 ==> At(tabs, so, l) == 0
    modifies taba
    ensures Outside(old(taba[..]), taba[..], ao, 2 * n) && k <= 1
    ensures var q := qh * Pow(l) + At(tabs, so, l);
      At(taba, ao, n) == old(At(taba, ao, n)) - q * q + k * Pow(n)
  {
    hide Val;
    hide Pow;
    var m := n - 2 * l;
    ghost var lo, hi, sq := At(taba, ao, 2 * l), At(taba, ao + 2 * l, m), At(tabs, so, l) * At(tabs, so, l);
    AtConcat(taba, ao, 2 * l, m);
    SquareOfBeta(qh, Pow(l), At(tabs, so, l));
    PowAdd(l, l);
    PowAdd(2 * l, m);
    var c: Limb := qh;
    if qh == 0 {
      c := SubtractLowSquare(taba, ao, tabs, so, l, n);
    } else {
      sq := Pow(2 * l);
    }
    ghost var lo' := At(taba, ao, 2 * l);
    ghost var los' := taba[ao..ao + 2 * l];
    k := MpSubUi(taba, ao + 2 * l, c, m);
    assert taba[ao..ao + 2 * l] == los';
    AtConcat(taba, ao, 2 * l, m);
    if m == 0 {
      EmptyBorrow(taba, ao + 2 * l, k, c);
    }
    SquareArith(lo, hi, lo', At(taba, ao + 2 * l, m), c, k, Pow(2 * l), Pow(m), sq, Pow(n));
  }

  // Subtracting from no limbs at all returns what was to be subtracted.
  lemma EmptyBorrow(a: array<Limb>, o: nat, k: Limb, c: Limb)
    requires o <= a.Length && At(a, o, 0) - k * Pow(0) == 0 - c
    ensures k == c
  {
  }

  // ----- The repair -----

  lemma WrapCongruent(x: int, k: int, p: int, y: int)
    requires x - k * p == y && 0 <= x < p && 0 <= y < p
    ensures k == 0 && x == y
  {
    DivUnique(p, 0, x, k, y);
  }

  // The root estimate s or s - B^n (when it has overflowed), less one.
  method LowerRoot(tabs: array<Limb>, so: nat, n: nat, ghost s: int)
    requires n >= 1 && so + n <= tabs.Length && 0 <= s - 1 < Pow(n)
    requires At(tabs, so, n) == s || At(tabs, so, n) == s - Pow(n)
    modifies tabs
    ensures Outside(old(tabs[..]), tabs[..], so, n) && At(tabs, so, n) == s - 1
  {
    hide Val;
    hide Pow;
    ghost var root, p := At(tabs, so, n), Pow(n);
    var k := MpSubUi(tabs, so, 1, n);
    AtBound(tabs, so, n);
    assert root == s - p ==> (k as int - 1) * p == k * p - p;
    WrapCongruent(At(tabs, so, n), if root == s then k else k as int - 1, p, s - 1);
  }

  // A negative remainder: lower the root by one, and add twice the new root plus one.
  method RepairRoot(tabs: array<Limb>, so: nat, taba: array<Limb>, ao: nat, n: nat, rh0: Limb, ghost s: int,
                    ghost d: int)
    returns (rh: Limb)
    requires tabs != taba && n >= 1 && so + n <= tabs.Length && ao + n <= taba.Length
    requires At(taba, ao, n) - Pow(n) == d && rh0 == B - 1
    requires At(tabs, so, n) == s || At(tabs, so, n) == s - Pow(n)
    requires 0 <= s - 1 < Pow(n) && 0 <= d + 2 * (s - 1) + 1 < 2 * Pow(n)
    modifies tabs, taba
    ensures Outside(old(tabs[..]), tabs[..], so, n) && Outside(old(taba[..]), taba[..], ao, n) && rh <= 1
    ensures At(tabs, so, n) == s - 1 && At(taba, ao, n) + rh * Pow(n) == d + 2 * (s - 1) + 1
  {
    hide Val;
    hide Pow;
    ghost var rem := At(taba, ao, n);
    LowerRoot(tabs, so, n, s);
    var hi := MpAddMul1(taba, ao, tabs, so, n, 2);
    ghost var rem1 := At(taba, ao, n);
    var c := MpAddUi(taba, ao, 1, n);
    AtBound(taba, ao, n);
    HighLimb(rem, s - 1, rem1, hi, At(taba, ao, n), c, Pow(n), d);
    rh := Wrap(rh0 + hi);
    rh := Wrap(rh + c);
  }

  lemma HighLimb(rem: int, root: int, rem1: int, hi: int, rem2: int, c: int, p: int, d: int)
    requires rem - p == d && rem1 + hi * p == rem + root * 2 && rem2 + c * p == rem1 + 1
    requires 0 <= rem2 < p && 0 <= d + 2 * root + 1 < 2 * p
    ensures 0 <= hi + c - 1 <= 1 && rem2 + (hi + c - 1) * p == d + 2 * root + 1
  {
    var x := hi + c - 1;
    assert x * p == hi * p + c * p - p;
    assert (x + 1) * p == x * p + p;
    MulCancelLess(0, x + 1, p);
    MulCancelLess(x, 2, p);
  }

  // ----- The recursion -----

  // s and d are the root and remainder of a, or one step beyond.
  ghost predicate Estimate(a: int, s: int, d: int) {
    && (d >= 0 ==> Root(a, s, d))
    && (d < 0 ==> Root(a, s - 1, d + 2 * (s - 1) + 1))
  }

  lemma EstimateRange(a: int, s: int, d: int, p: int)
    requires Estimate(a, s, d) && a < p * p && 0 <= p
    ensures d >= 0 ==> 0 <= s < p
    ensures d < 0 ==> 0 <= s - 1 < p && 0 <= d + 2 * (s - 1) + 1 < 2 * p
  {
    if d >= 0 {
      RootBelow(a, s, d, p);
    } else {
      RootBelow(a, s - 1, d + 2 * (s - 1) + 1, p);
    }
  }

  // The last part: the sign of the remainder decides whether to repair.
  method FinishRoot(tabs: array<Limb>, so: nat, taba: array<Limb>, ao: nat, n: nat, rh0: Limb, borrow: Limb,
                    ghost a: int, ghost s: int, ghost d: int, ghost k: int)
    returns (rh: Limb)
    requires tabs != taba && n >= 1 && so + n <= tabs.Length && ao + n <= taba.Length && rh0 <= 1 && borrow <= 1
    requires Estimate(a, s, d) && a < Pow(n) * Pow(n) && (k == 0 || k == 1)
    requires At(tabs, so, n) == s - k * Pow(n)
    requires At(taba, ao, n) + (rh0 as int - borrow) * Pow(n) == d
    modifies tabs, taba
    ensures Outside(old(tabs[..]), tabs[..], so, n) && Outside(old(taba[..]), taba[..], ao, n) && rh <= 1
    ensures Root(a, At(tabs, so, n), At(taba, ao, n) + rh * Pow(n))
  {
    hide Val;
    hide Pow;
    hide Root;
    ghost var p := Pow(n);
    EstimateRange(a, s, d, p);
    AtBound(taba, ao, n);
    AtBound(tabs, so, n);
    rh := Wrap(rh0 as int - borrow);
    if rh0 == 0 && borrow == 1 {
      assert (rh0 as int - borrow) * p == -p;
      rh := RepairRoot(tabs, so, taba, ao, n, rh, s, d);
    } else {
      MulPos(rh0 as int - borrow, p);
      WrapCongruent(At(tabs, so, n), -k, p, s);
    }
  }

  // The dividend in the digits of the step.
  lemma Digits(taba: array<Limb>, ao: nat, l: nat, h: nat)
    requires ao + 2 * (l + h) <= taba.Length
    ensures At(taba, ao, 2 * (l + h))
         == At(taba, ao + 2 * l, 2 * h) * (Pow(l) * Pow(l)) + At(taba, ao + l, l) * Pow(l) + At(taba, ao, l)
  {
    hide Val;
    hide Pow;
    AtConcat(taba, ao, l, l + 2 * h);
    AtConcat(taba, ao + l, l, 2 * h);
    Horner(At(taba, ao, l), At(taba, ao + l, l), At(taba, ao + 2 * l, 2 * h), Pow(l));
  }

  lemma Horner(c0: int, c1: int, a1: int, beta: int)
    ensures c0 + (c1 + a1 * beta) * beta == a1 * (beta * beta) + c1 * beta + c0
  {
  }

  // The top limb keeps the root normalized.
  lemma RootTopLimb(tabs: array<Limb>, so: nat, n: nat, a: int, top: Limb, r: int)
    requires n >= 1 && so + n <= tabs.Length && Root(a, At(tabs, so, n), r)
    requires top >= QUARTER && a >= top * Pow(2 * n - 1)
    ensures tabs[so + (n - 1)] >= HALF
  {
    hide Val;
    var p := Pow(n - 1);
    PowAdd(n - 1, n - 1);
    PowStep(2 * n - 2);
    hide Pow;
    hide Root;
    MulMono(QUARTER, top, Pow(2 * n - 1));
    assert (HALF * p) * (HALF * p) == (QUARTER * B) * (p * p);
    RootNormalized(a, At(tabs, so, n), r, HALF * p);
    TopHalf(tabs, so, n);
  }

  lemma TopPart(taba: array<Limb>, ao: nat, m: nat)
    requires m >= 1 && ao + m <= taba.Length
    ensures At(taba, ao, m) >= taba[ao + (m - 1)] * Pow(m - 1)
  {
    hide Val;
    hide Pow;
    AtSnoc(taba, ao, m - 1);
    AtBound(taba, ao, m - 1);
  }

  // (s, r) at (tabs, so) and (taba, ao) with high limb rh is the root of a, and is normalized.
  ghost predicate RootAt(a: int, tabs: array<Limb>, so: nat, taba: array<Limb>, ao: nat, n: nat, rh: int)
    requires n >= 1 && so + n <= tabs.Length && ao + n <= taba.Length
    reads tabs, taba
  {
    Root(a, At(tabs, so, n), At(taba, ao, n) + rh * Pow(n)) && tabs[so + (n - 1)] >= HALF
  }

  method RootOfTwo(tabs: array<Limb>, so: nat, taba: array<Limb>, ao: nat) returns (rh: Limb)
    requires tabs != taba && so + 1 <= tabs.Length && ao + 2 <= taba.Length && taba[ao + 1] >= QUARTER
    modifies tabs, taba
    ensures Outside(old(tabs[..]), tabs[..], so, 1) && Outside(old(taba[..]), taba[..], ao, 2) && rh <= 1
    ensures RootAt(old(At(taba, ao, 2)), tabs, so, taba, ao, 1, rh)
  {
    hide Val;
    hide Root;
    PowOne();
    hide Pow;
    ghost var a, top := At(taba, ao, 2), taba[ao + 1];
    AtSnoc(taba, ao, 1);
    TopPart(taba, ao, 2);
    assert taba[ao..ao + 1] == [taba[ao]];
    ValOne(taba[ao]);
    rh := MpSqrtrem2(tabs, so, taba, ao);
    assert taba[ao..ao + 1] == [taba[ao]] && tabs[so..so + 1] == [tabs[so]];
    ValOne(taba[ao]);
    ValOne(tabs[so]);
    RootTopLimb(tabs, so, 1, a, top, At(taba, ao, 1) + rh * Pow(1));
  }

  // What the recursive call leaves: everything the Karatsuba step needs.
  lemma StepEstimate(a1: int, s1: int, r1: int, beta: int, c1: int, c0: int, q: int, u: int)
    requires Root(a1, s1, r1) && 0 < beta <= 2 * s1 && 0 <= c1 < beta && 0 <= c0 < beta
    requires r1 * beta + c1 == q * (2 * s1) + u && 0 <= u < 2 * s1
    ensures 0 <= q <= beta
    ensures Estimate(a1 * (beta * beta) + c1 * beta + c0, s1 * beta + q, u * beta + c0 - q * q)
  {
    KaratsubaStep(a1, s1, r1, beta, c1, c0, q, u);
  }

  lemma BetaOnly(qh: int, low: int, beta: int)
    requires 0 <= qh * beta + low <= beta && qh == 1 && 0 <= low
    ensures low == 0
  {
  }

  lemma RemainderParts(c0: int, mid: int, rh: int, beta: int, p: int, pn: int, sq: int, borrow: int, rem: int)
    requires pn == p * beta && rem == (c0 + mid * beta) - sq + borrow * pn
    ensures rem + (rh - borrow) * pn == (mid + rh * p) * beta + c0 - sq
  {
    assert (rh - borrow) * pn == rh * pn - borrow * pn;
    assert (mid + rh * p) * beta == mid * beta + rh * (p * beta);
  }

  // Quotient and remainder of r1 * beta + c1 by twice the root s1 of the upper part.
  method StepQuotient(tabs: array<Limb>, so: nat, taba: array<Limb>, ao: nat, l: nat, h: nat, tmp: array<Limb>,
                      qh0: Limb)
    returns (qh: Limb, rh: Limb)
    requires tabs != taba && tmp != tabs && tmp != taba && 1 <= l <= h && qh0 <= 1
    requires so + l + h <= tabs.Length && ao + 2 * l + h <= taba.Length && l + 1 <= tmp.Length
    requires tabs[so + l + h - 1] >= HALF
    requires At(taba, ao + 2 * l, h) + qh0 * Pow(h) <= 2 * At(tabs, so + l, h)
    modifies tabs, taba, tmp
    ensures Outside(old(tabs[..]), tabs[..], so, l) && Outside(old(taba[..]), taba[..], ao + l, l + h)
    ensures qh <= 1 && rh <= 1
    ensures var s1, u := At(tabs, so + l, h), At(taba, ao + l, h) + rh * Pow(h);
      && s1 == old(At(tabs, so + l, h)) && 0 <= u < 2 * s1
      && (qh * Pow(l) + At(tabs, so, l)) * (2 * s1) + u
         == old((At(taba, ao + 2 * l, h) + qh0 * Pow(h)) * Pow(l) + At(taba, ao + l, l))
  {
    hide Val;
    hide Pow;
    ghost var x := (At(taba, ao + 2 * l, h) + qh0 * Pow(h)) * Pow(l) + At(taba, ao + l, l);
    ghost var s1s := tabs[so + l..so + l + h];
    qh := DivideByRoot(tabs, so + l, taba, ao + l, l, h, tmp, qh0);
    qh, rh := HalveQuotient(tabs, so, taba, ao + l, l, h, tmp, qh, x);
    assert tabs[so + l..so + l + h] == s1s;
    AtBound(taba, ao + l, h);
    MulPos(rh, Pow(h));
  }

  // From the root of the upper part to that of the whole.
  method RootStep(tabs: array<Limb>, so: nat, taba: array<Limb>, ao: nat, l: nat, h: nat, tmp: array<Limb>, qh0: Limb,
                  ghost a1: int, ghost c1: int, ghost c0: int)
    returns (rh: Limb)
    requires tabs != taba && tmp != tabs && tmp != taba && 1 <= l <= h <= l + 1
    requires so + l + h <= tabs.Length && ao + 2 * (l + h) <= taba.Length && l + 1 <= tmp.Length
    requires c1 == At(taba, ao + l, l) && c0 == At(taba, ao, l) && qh0 <= 1
    requires RootAt(a1, tabs, so + l, taba, ao + 2 * l, h, qh0)
    requires a1 * (Pow(l) * Pow(l)) + c1 * Pow(l) + c0 < Pow(l + h) * Pow(l + h)
    modifies tabs, taba, tmp
    ensures Outside(old(tabs[..]), tabs[..], so, l + h) && Outside(old(taba[..]), taba[..], ao, 2 * (l + h)) && rh <= 1
    ensures Root(a1 * (Pow(l) * Pow(l)) + c1 * Pow(l) + c0, At(tabs, so, l + h), At(taba, ao, l + h) + rh * Pow(l + h))
  {
    hide Val;
    hide Pow;
    hide Estimate;
    ghost var s1, r1, beta := At(tabs, so + l, h), At(taba, ao + 2 * l, h) + qh0 * Pow(h), Pow(l);
    RootFacts(a1, s1, r1);
    Normalized(tabs, so + l, h);
    PowMono(l, h);
    AtBound(taba, ao, l);
    AtBound(taba, ao + l, l);
    hide Root;
    ghost var lows := taba[ao..ao + l];
    var qh;
    qh, rh := StepQuotient(tabs, so, taba, ao, l, h, tmp, qh0);
    assert taba[ao..ao + l] == lows;
    ghost var mid := At(taba, ao + l, h);
    ghost var q, u := qh * beta + At(tabs, so, l), mid + rh * Pow(h);
    StepEstimate(a1, s1, r1, beta, c1, c0, q, u);
    rh := SquareAndFinish(tabs, so, taba, ao, l, h, qh, rh, a1 * (beta * beta) + c1 * beta + c0, s1, q, u, c0);
  }

  method SquareAndFinish(tabs: array<Limb>, so: nat, taba: array<Limb>, ao: nat, l: nat, h: nat, qh: Limb, rh0: Limb,
                         ghost a: int, ghost s1: int, ghost q: int, ghost u: int, ghost c0: int)
    returns (rh: Limb)
    requires tabs != taba && 1 <= l <= h <= l + 1 && qh <= 1 && rh0 <= 1
    requires so + l + h <= tabs.Length && ao + 2 * (l + h) <= taba.Length
    requires s1 == At(tabs, so + l, h) && q == qh * Pow(l) + At(tabs, so, l) && 0 <= q <= Pow(l)
    requires u == At(taba, ao + l, h) + rh0 * Pow(h) && c0 == At(taba, ao, l)
    requires Estimate(a, s1 * Pow(l) + q, u * Pow(l) + c0 - q * q) && a < Pow(l + h) * Pow(l + h)
    modifies tabs, taba
    ensures Outside(old(tabs[..]), tabs[..], so, l + h) && Outside(old(taba[..]), taba[..], ao, 2 * (l + h)) && rh <= 1
    ensures Root(a, At(tabs, so, l + h), At(taba, ao, l + h) + rh * Pow(l + h))
  {
    hide Val;
    hide Pow;
    hide Estimate;
    hide Root;
    var n := l + h;
    ghost var low, mid := At(tabs, so, l), At(taba, ao + l, h);
    AtBound(tabs, so, l);
    ghost var k := AddHigh(tabs, so, l, h, qh);
    if qh == 1 {
      BetaOnly(qh, low, Pow(l));
    }
    AtConcat(taba, ao, l, h);
    PowAdd(h, l);
    var borrow := SubtractSquare(taba, ao, tabs, so, l, n, qh);
    RemainderParts(c0, mid, rh0, Pow(l), Pow(h), Pow(n), q * q, borrow, At(taba, ao, n));
    rh := FinishRoot(tabs, so, taba, ao, n, rh0, borrow, a, s1 * Pow(l) + q, u * Pow(l) + c0 - q * q, k);
  }

  // The dividend in the digits of the step, its bound, and its top limb.
  ghost predicate Dividend(a: int, a1: int, c1: int, c0: int, l: nat, h: nat, top: int)
    requires l + h >= 1
  {
    && a == a1 * (Pow(l) * Pow(l)) + c1 * Pow(l) + c0
    && a < Pow(l + h) * Pow(l + h) && a >= top * Pow(2 * (l + h) - 1)
  }

  lemma SplitDividend(taba: array<Limb>, ao: nat, l: nat, h: nat)
    requires l + h >= 1 && ao + 2 * (l + h) <= taba.Length
    ensures Dividend(At(taba, ao, 2 * (l + h)), At(taba, ao + 2 * l, 2 * h), At(taba, ao + l, l), At(taba, ao, l), l, h,
                     taba[ao + (2 * (l + h) - 1)])
  {
    hide Val;
    hide Pow;
    Digits(taba, ao, l, h);
    TopPart(taba, ao, 2 * (l + h));
    AtBound(taba, ao, 2 * (l + h));
    PowAdd(l + h, l + h);
  }

  lemma RootComplete(a: int, a1: int, c1: int, c0: int, l: nat, h: nat, top: Limb,
                     tabs: array<Limb>, so: nat, taba: array<Limb>, ao: nat, rh: int)
    requires l + h >= 1 && so + l + h <= tabs.Length && ao + l + h <= taba.Length && top >= QUARTER
    requires Dividend(a, a1, c1, c0, l, h, top)
    requires Root(a1 * (Pow(l) * Pow(l)) + c1 * Pow(l) + c0, At(tabs, so, l + h), At(taba, ao, l + h) + rh * Pow(l + h))
    ensures RootAt(a, tabs, so, taba, ao, l + h, rh)
  {
    hide Val;
    hide Pow;
    hide Root;
    RootTopLimb(tabs, so, l + h, a, top, At(taba, ao, l + h) + rh * Pow(l + h));
  }

  lemma DividendBound(a: int, a1: int, c1: int, c0: int, l: nat, h: nat, top: int)
    requires l + h >= 1 && Dividend(a, a1, c1, c0, l, h, top)
    ensures a1 * (Pow(l) * Pow(l)) + c1 * Pow(l) + c0 < Pow(l + h) * Pow(l + h)
  {
  }

  // mp_sqrtrem_rec (and mp_sqrtrem): root and remainder of 2 * n limbs.
  method MpSqrtremRec(tabs: array<Limb>, so: nat, taba: array<Limb>, ao: nat, n: nat, tmp: array<Limb>)
    returns (rh: Limb)
    requires tabs != taba && tmp != tabs && tmp != taba && n >= 1
    requires so + n <= tabs.Length && ao + 2 * n <= taba.Length && n / 2 + 1 <= tmp.Length
    requires taba[ao + (2 * n - 1)] >= QUARTER
    modifies tabs, taba, tmp
    ensures Outside(old(tabs[..]), tabs[..], so, n) && Outside(old(taba[..]), taba[..], ao, 2 * n) && rh <= 1
    ensures RootAt(old(At(taba, ao, 2 * n)), tabs, so, taba, ao, n, rh)
    decreases n
  {
    hide Val;
    hide Pow;
    hide Root;
    hide RootAt;
    hide Dividend;
    if n == 1 {
      rh := RootOfTwo(tabs, so, taba, ao);
      return;
    }
    var l := n / 2;
    var h := n - l;
    ghost var a, top := At(taba, ao, 2 * n), taba[ao + (2 * n - 1)];
    ghost var a1, c1, c0 := At(taba, ao + 2 * l, 2 * h), At(taba, ao + l, l), At(taba, ao, l);
    ghost var low1, low0 := taba[ao + l..ao + l + l], taba[ao..ao + l];
    SplitDividend(taba, ao, l, h);
    DividendBound(a, a1, c1, c0, l, h, top);
    rh := MpSqrtremRec(tabs, so + l, taba, ao + 2 * l, h, tmp);
    assert taba[ao + l..ao + l + l] == low1 && taba[ao..ao + l] == low0;
    rh := RootStep(tabs, so, taba, ao, l, h, tmp, rh, a1, c1, c0);
    RootComplete(a, a1, c1, c0, l, h, top, tabs, so, taba, ao, rh);
  }
}
