// Division in quickjs/libbf.c: two limbs by one with a precomputed inverse, many limbs by one,
// and schoolbook division with a two-limb quotient guess.

module LimbDiv {
  import opened Limbs
  import opened LimbOps

  // ----- Two limbs by one normalized limb -----

  lemma InverseFits(d: Limb)
    requires d >= HALF
    ensures var x := (B - 1 - d) * B + (B - 1);
      x == B * B - 1 - d * B && 0 <= x / d < B && x / d == (B * B - 1) / d - B
  {
    var x := (B - 1 - d) * B + (B - 1);
    var q, r := x / d, x % d;
    assert x == q * d + r;
    assert (q + B) * d == q * d + B * d;
    assert B * B - 1 == (q + B) * d + r;
    MulMono(HALF, d, 2 * B);
    MulCancelLess(q, B, d);
    DivIs(B * B - 1, d, q + B, r);
  }

  lemma DivIs(a: int, d: int, q: int, r: int)
    requires d > 0 && a == q * d + r && 0 <= r < d
    ensures a / d == q && a % d == r
  {
    DivUnique(d, q, r, a / d, a % d);
  }

  // udiv1norm_init: floor((B^2 - 1) / d) - B
  function Udiv1normInit(d: Limb): (dInv: Limb)
    requires d >= HALF
    ensures dInv == (B * B - 1) / d - B
  {
    InverseFits(d);
    (Wrap(-(d as int) - 1) * B + (B - 1)) / d
  }

  // The exact error of the first quotient estimate, B times over: top bit of a0 clear.
  lemma EstimateErrorLow(a1: int, a0: int, d: int, v: int, e: int, q0: int, t0: int)
    requires (v + B) * d == B * B - 1 - e && q0 * B + t0 == v * a1 + a0
    ensures B * (a1 * B + a0 - (q0 + a1) * d) == a0 * (B - d) + a1 * (1 + e) + d * t0
  {
    assert v * d == B * B - 1 - e - B * d;
    assert (v * a1) * d == (v * d) * a1;
    assert (v * d) * a1 == B * B * a1 - a1 * (1 + e) - B * (d * a1);
    assert (q0 * B) * d == (v * a1) * d + a0 * d - t0 * d;
  }

  // The same with the top bit of a0 set.
  lemma EstimateErrorHigh(a1: int, a0: int, d: int, v: int, e: int, q0: int, t0: int)
    requires (v + B) * d == B * B - 1 - e && q0 * B + t0 == v * (a1 + 1) + a0 + d - B
    ensures B * (a1 * B + a0 - (q0 + a1) * d) == (B - d) * (a0 - (B - d)) + (a1 + 1) * (1 + e) + d * t0
  {
    var s := a1 + 1;
    EstimateErrorLow(s, a0 + d - B, d, v, e, q0, t0);
    assert (q0 + s) * d == (q0 + a1) * d + d;
    assert (a0 + d - B) * (B - d) == (B - d) * (a0 - (B - d));
  }

  lemma LowBounds(a1: int, a0: int, d: int, e: int, t0: int)
    requires HALF <= d < B && 0 <= a1 < d && 0 <= a0 < HALF && 0 <= e < d && 0 <= t0 < B
    ensures 0 <= a0 * (B - d) + a1 * (1 + e) + d * t0 < 2 * B * d
  {
    MulPos(a0, B - d);
    MulPos(a1, 1 + e);
    MulPos(d, t0);
    MulMono(a0, d, B - d);
    MulMono(a1, d - 1, 1 + e);
    MulMono(1 + e, d, d - 1);
    MulMono(t0, B - 1, d);
  }

  lemma HighBounds(a1: int, a0: int, d: int, e: int, t0: int)
    requires HALF <= d < B && 0 <= a1 < d && HALF <= a0 < B && 0 <= e < d && 0 <= t0 < B
    ensures 0 <= (B - d) * (a0 - (B - d)) + (a1 + 1) * (1 + e) + d * t0 < 2 * B * d
  {
    MulPos(B - d, a0 - (B - d));
    MulPos(a1 + 1, 1 + e);
    MulPos(d, t0);
    MulMono(a0 - (B - d), d - 1, B - d);
    MulMono(a1 + 1, d, 1 + e);
    MulMono(1 + e, d, d);
    MulMono(t0, B - 1, d);
  }

  // The first estimate is exact or one too small.
  lemma EstimateOk(a1: Limb, a0: Limb, d: Limb, v: int, h: int, q0: int, t0: int)
    requires d >= HALF && a1 < d && v == (B * B - 1) / d - B
    requires h == TopBit(a0) && 0 <= t0 < B
    requires q0 * B + t0 == v * (a1 + h) + a0 + h * (d - B)
    ensures 0 <= a1 * B + a0 - (q0 + a1) * d < 2 * d
  {
    var e := (B * B - 1) % d;
    assert (v + B) * d == B * B - 1 - e;
    if h == 0 {
      EstimateErrorLow(a1, a0, d, v, e, q0, t0);
      LowBounds(a1, a0, d, e, t0);
    } else {
      EstimateErrorHigh(a1, a0, d, v, e, q0, t0);
      HighBounds(a1, a0, d, e, t0);
    }
  }

  // ah & d for a mask that is all ones or all zeros.
  function Masked(mask: Limb, d: Limb): Limb
    requires mask == 0 || mask == B - 1
  {
    if mask == 0 then 0 else d
  }

  // No wrap-around in the estimate.
  lemma EstimateFits(a1: Limb, a0: Limb, d: Limb, v: Limb)
    requires d >= HALF && a1 < d && v == (B * B - 1) / d - B
    ensures var h := TopBit(a0);
      var nAdj := a0 + h * (d - B);
      && 0 <= nAdj < B && a1 + h < B
      && 0 <= v * (a1 + h) + nAdj < B * B
      && 0 <= (v * (a1 + h) + nAdj) / B + a1 < B
  {
    var h := TopBit(a0);
    var nAdj: int := a0 + h * (d - B);
    var t: int := v * (a1 + h) + nAdj;
    assert (v + B) * d == B * B - 1 - (B * B - 1) % d;
    MulPos(v, a1 + h);
    MulMono(a1 + h, d, v);
    assert (v + B) * d == v * d + B * d;
    EstimateOk(a1, a0, d, v, h, t / B, t % B);
    MulMono(a1 as int + 1, d, B);
    MulCancelLess(t / B + a1, B, d);
  }

  function TopBit(a0: Limb): int {
    if a0 >= HALF then 1 else 0
  }

  // a0 + (n1m & d), where n1m is the sign of a0.
  function Adjusted(a0: Limb, d: Limb): (n: Limb)
    requires d >= HALF
    ensures n == a0 + TopBit(a0) * (d - B)
  {
    var n1m: Limb := if a0 >= HALF then B - 1 else 0;
    Wrap(a0 as int + Masked(n1m, d))
  }

  // a1 - n1m
  function Raised(a1: Limb, a0: Limb): (s: Limb)
    requires a1 < B - 1
    ensures s == a1 + TopBit(a0)
  {
    var n1m: Limb := if a0 >= HALF then B - 1 else 0;
    Wrap(a1 as int - n1m)
  }

  // The first estimate of udiv1norm.
  function Estimate(a1: Limb, a0: Limb, d: Limb, dInv: Limb): (q: Limb)
    requires d >= HALF && a1 < d && dInv == (B * B - 1) / d - B
    ensures 0 <= a1 * B + a0 - q * d < 2 * d
  {
    var s: int, n: int := Raised(a1, a0), Adjusted(a0, d);
    EstimateFits(a1, a0, d, dInv);
    var t := dInv as int * s;
    var a := WrapTwice(t + n);
    EstimateParts(a1, a0, d, dInv, t, n, a);
    Wrap(a / B + a1)
  }

  lemma EstimateParts(a1: Limb, a0: Limb, d: Limb, v: Limb, t: int, n: int, a: int)
    requires d >= HALF && a1 < d && v == (B * B - 1) / d - B
    requires t == v * (a1 + TopBit(a0)) && n == a0 + TopBit(a0) * (d - B) && a == t + n
    ensures 0 <= a1 * B + a0 - (a / B + a1) * d < 2 * d
  {
    EstimateOk(a1, a0, d, v, TopBit(a0), a / B, a % B);
  }

  // dlimb_t arithmetic wraps.
  function WrapTwice(x: int): (r: int)
    ensures 0 <= x < B * B ==> r == x
    ensures 0 <= r < B * B
  {
    x % (B * B)
  }

  // The signed difference x in [-d, d), taken modulo B^2, decides the last quotient bit: ah is
  // its high limb.
  lemma LastBit(x: int, d: Limb)
    requires -(d as int) <= x < d
    ensures WrapTwice(x) / B == if x < 0 then B - 1 else 0
    ensures Wrap(WrapTwice(x) + (if x < 0 then d as int else 0)) == if x < 0 then x + d else x
  {
    var a := WrapTwice(x);
    if x < 0 {
      assert a == x + B * B;
      assert a == (B - 1) * B + (x + B);
      assert a + d == B * B + (x + d);
    }
  }

  // udiv1norm: quotient and remainder of a1 * B + a0 by d, for a1 < d.
  function Udiv1norm(a1: Limb, a0: Limb, d: Limb, dInv: Limb): (qr: (Limb, Limb))
    requires d >= HALF && a1 < d && dInv == (B * B - 1) / d - B
    ensures qr.0 * d + qr.1 == a1 * B + a0 && qr.1 < d
  {
    var q := Estimate(a1, a0, d, dInv);
    var x: int := a1 * B + a0 - q as int * d - d;
    LastBit(x, d);
    QuotientFits(a1, a0, d, q, x);
    var a := WrapTwice(x);
    var ah := a / B;
    (Bump(q, ah), Wrap(a + Masked(ah, d)))
  }

  // q + 1 + ah
  function Bump(q: Limb, ah: Limb): (r: Limb)
    requires ah == B - 1 || (ah == 0 && q < B - 1)
    ensures r == if ah == 0 then q + 1 else q
  {
    Wrap(q + 1 + ah)
  }

  lemma QuotientFits(a1: Limb, a0: Limb, d: Limb, q: Limb, x: int)
    requires a1 < d && x == a1 * B + a0 - q as int * d - d && -(d as int) <= x < d
    ensures x >= 0 ==> q + 1 < B && (q as int + 1) * d + x == a1 * B + a0
  {
    assert (q as int + 1) * d == q as int * d + d;
    MulMono(a1 as int + 1, d, B);
    if x >= 0 {
      MulCancelLess(q as int + 1, B, d);
    }
  }

  // ----- Many limbs by one -----

  const UDIV1NORM_THRESHOLD: int := 3

  lemma DivStepArith(q: int, rest: int, b: int, r: int, u: int, r0: int, v: int, h: int, p: int, q': int, v': int,
                     p': int)
    requires q * b + r0 == r * B + u && rest * b + r == v + h * p
    requires q' == q + rest * B && v' == u + v * B && p' == B * p
    ensures q' * b + r0 == v' + h * p'
  {
    assert (q + rest * B) * b == q * b + (rest * b) * B;
    assert (v + h * p) * B == v * B + h * (B * p);
  }

  // Quotient qs and remainder r of the number high * B^n + rest.
  ghost predicate Divided(qs: seq<Limb>, b: int, r: int, rest: seq<Limb>, high: int) {
    |qs| == |rest| && Val(qs) * b + r == Val(rest) + high * Pow(|rest|)
  }

  lemma Div1Start(b: int, high: int)
    ensures Divided([], b, high, [], high)
  {
  }

  lemma Div1Step(qs: seq<Limb>, q0: Limb, r: int, r0: int, u: Limb, rest: seq<Limb>, b: int, high: int)
    requires Divided(qs, b, r, rest, high) && q0 * b + r0 == r * B + u
    ensures Divided([q0] + qs, b, r0, [u] + rest, high)
  {
    hide Val;
    ValCons(q0, qs);
    ValCons(u, rest);
    PowStep(|rest|);
    hide Pow;
    DivStepArith(q0, Val(qs), b, r, u, r0, Val(rest), high, Pow(|rest|),
                 Val([q0] + qs), Val([u] + rest), Pow(|rest| + 1));
  }

  // The quotient of two limbs by a normalized limb, with or without a precomputed inverse.
  method Div2by1(a1: Limb, a0: Limb, b: Limb, bInv: Limb, useInverse: bool) returns (q: Limb, r: Limb)
    requires b >= HALF && a1 < b && (useInverse ==> bInv == (B * B - 1) / b - B)
    ensures q * b + r == a1 * B + a0 && r < b
  {
    if useInverse {
      var qr := Udiv1norm(a1, a0, b, bInv);
      return qr.0, qr.1;
    }
    var t: int := a1 * B + a0;
    DigitFits(t, a1, b);
    q, r := t / b, t % b;
  }

  lemma DigitFits(t: int, a1: Limb, b: Limb)
    requires a1 < b && a1 * B <= t < a1 * B + B
    ensures 0 <= t / b < B && 0 <= t % b < b && (t / b) * b + t % b == t
  {
    MulMono(a1 as int + 1, b, B);
    MulCancelLess(t / b, B, b);
  }

  // mp_div1norm: res := (r0 * B^n + tab) / b; returns the remainder.
  method MpDiv1norm(res: array<Limb>, ro: nat, tab: array<Limb>, o: nat, n: nat, b: Limb, r0: Limb) returns (r: Limb)
    requires ro + n <= res.Length && o + n <= tab.Length && b >= HALF && r0 < b
    requires res != tab || o <= ro || ro + n <= o
    modifies res
    ensures Outside(old(res[..]), res[..], ro, n) && r < b
    ensures At(res, ro, n) * b + r == old(At(tab, o, n)) + r0 * Pow(n)
    ensures n > 0 && r0 == 0 ==> res[ro + n - 1] <= 1
  {
    hide Val;
    hide Pow;
    hide Divided;
    ghost var a := tab[o..o + n];
    r := r0;
    var bInv, useInverse: bool := 0, n >= UDIV1NORM_THRESHOLD;
    if useInverse {
      bInv := Udiv1normInit(b);
    }
    var i := n;
    Div1Start(b, r0);
    assert res[ro + n..ro + n] == [] && a[n..] == [];
    while i > 0
      invariant 0 <= i <= n && r < b
      invariant forall j :: 0 <= j < res.Length && (j < ro + i || ro + n <= j) ==> res[j] == old(res[j])
      invariant forall j :: o <= j < o + i ==> tab[j] == old(tab[j])
      invariant Divided(res[ro + i..ro + n], b, r, a[i..], r0)
      invariant i < n && r0 == 0 ==> res[ro + n - 1] <= 1
      invariant i == n ==> r == r0
    {
      i := i - 1;
      ghost var qs, r1 := res[ro + (i + 1)..ro + n], r;
      var u, q := tab[o + i], 0;
      q, r := Div2by1(r, u, b, bInv, useInverse);
      if i == n - 1 && r0 == 0 {
        TopDigit(q, b, r, u);
      }
      Div1Step(qs, q, r1, r, u, a[i + 1..], b, r0);
      res[ro + i] := q;
      assert res[ro + i..ro + n] == [q] + qs && a[i..] == [u] + a[i + 1..];
    }
    assert a[0..] == a;
    Div1Done(res[ro..ro + n], b, r, a, r0);
  }

  lemma Div1Done(qs: seq<Limb>, b: int, r: int, rest: seq<Limb>, high: int)
    requires Divided(qs, b, r, rest, high)
    ensures Val(qs) * b + r == Val(rest) + high * Pow(|rest|)
  {
  }

  lemma TopDigit(q: Limb, b: Limb, r: Limb, u: Limb)
    requires q * b + r == u && b >= HALF
    ensures q <= 1
  {
    MulCancelLess(q, 2, b);
  }

  // ----- Schoolbook division -----

  lemma Product(t: int, b1: int, p: int)
    ensures (t * b1) * p == t * (b1 * p)
  {
  }

  // The largest digit is no larger than the quotient of the leading limbs...
  lemma GuessNotBelow(w: int, b: int, u: int, b1: int, p: int, wl: int, bl: int)
    requires b == b1 * p + bl && 0 <= bl < p && w == u * p + wl && 0 <= wl < p
    requires 0 < b1 && 0 <= w < B * b
    ensures 0 <= w / b <= u / b1 && w / b < B
  {
    MulPos(b1, p);
    var t := w / b;
    assert w == t * b + w % b;
    MulCancelLess(t, B, b);
    Product(t, b1, p);
    assert t * b == t * (b1 * p) + t * bl;
    MulPos(t, bl);
    assert (u + 1) * p == u * p + p;
    MulCancelLess(t * b1, u + 1, p);
    assert u == (u / b1) * b1 + u % b1;
    assert (u / b1 + 1) * b1 == (u / b1) * b1 + b1;
    MulCancelLess(t, u / b1 + 1, b1);
  }

  // ... and a guess based on it is at most 2 too large.
  lemma GuessNotFarAbove(w: int, b: int, u: int, b1: int, p: int, wl: int, bl: int, q: int)
    requires b == b1 * p + bl && 0 <= bl < p && w == u * p + wl && 0 <= wl < p
    requires HALF <= b1 && 0 <= w < B * b && 0 <= w / b < B && q * b1 <= u
    ensures q <= w / b + 2
  {
    MulPos(b1, p);
    var t := w / b;
    assert w == t * b + w % b && (t + 1) * b == t * b + b;
    assert (b1 + 1) * p == b1 * p + p;
    MulMono(b, (b1 + 1) * p, t + 1);
    Product(t + 1, b1 + 1, p);
    MulCancelLess(u, (t + 1) * (b1 + 1), p);
    assert (t + 1) * (b1 + 1) == (t + 1) * b1 + t + 1;
    assert (t + 3) * b1 == (t + 1) * b1 + 2 * b1;
    MulCancelLess(q, t + 3, b1);
  }

  // q is the true digit or up to 2 above it.
  ghost predicate GoodGuess(w: int, b: int, q: int) {
    b > 0 && 0 <= w < B * b && w / b <= q <= w / b + 2
  }

  // Quotient digit guessed from the two leading limbs of the window and the leading limb of b.
  method GuessDigit(taba: array<Limb>, o: nat, tabb: array<Limb>, bo: nat, nb: nat, b1Inv: Limb, useInverse: bool)
    returns (q: Limb)
    requires nb >= 2 && o + nb + 1 <= taba.Length && bo + nb <= tabb.Length
    requires tabb[bo + nb - 1] >= HALF && At(taba, o + 1, nb) < At(tabb, bo, nb)
    requires useInverse ==> b1Inv == (B * B - 1) / tabb[bo + nb - 1] - B
    ensures GoodGuess(At(taba, o, nb + 1), At(tabb, bo, nb), q)
  {
    hide Val;
    hide Pow;
    var b1 := tabb[bo + nb - 1];
    var u1, u0 := taba[o + nb], taba[o + (nb - 1)];
    ghost var w, b, p := At(taba, o, nb + 1), At(tabb, bo, nb), Pow(nb - 1);
    ghost var u: int := u1 * B + u0;
    AtCons(taba, o, nb);
    AtSnoc(taba, o, nb);
    AtSnoc(taba, o, nb - 1);
    AtSnoc(tabb, bo, nb - 1);
    AtBound(taba, o, nb - 1);
    AtBound(tabb, bo, nb - 1);
    AtBound(taba, o + 1, nb);
    PowStep(nb - 1);
    ghost var wl, bl := At(taba, o, nb - 1), At(tabb, bo, nb - 1);
    TwoTop(wl, u0, u1, p, Pow(nb), w);
    GuessNotBelow(w, b, u, b1, p, wl, bl);
    MulPos(b1, p);
    if u1 >= b1 {
      q := B - 1;
      MulMono(b1, u1, B);
      Spread(-(b1 as int), b1, B, 1);
      assert q * b1 <= u;
    } else {
      var r;
      q, r := Div2by1(u1, u0, b1, b1Inv, useInverse);
      DivIs(u, b1, q, r);
    }
    GuessNotFarAbove(w, b, u, b1, p, wl, bl, q);
  }

  lemma TwoTop(wl: int, u0: int, u1: int, p: int, p': int, w: int)
    requires w == (wl + u0 * p) + u1 * p' && p' == B * p
    ensures w == (u1 * B + u0) * p + wl
  {
    assert (u1 * B + u0) * p == u1 * (B * p) + u0 * p;
  }

  // Adding b to the low limbs of a window that stands for the negative number d.
  lemma AddBackArith(low: int, top: int, p: int, d: int, b: int, low': int, c: int, top': int)
    requires low + top * p == d + B * p && d < 0 && 0 <= top < B && 0 <= low' < p && 0 <= b
    requires low' + c * p == low + b && (c == 0 || c == 1) && top' == if c == 1 then (top + 1) % B else top
    ensures c == 1 && top' == 0 ==> low' + top' * p == d + b && 0 <= d + b
    ensures !(c == 1 && top' == 0) ==> low' + top' * p == d + b + B * p && d + b < 0
  {
    assert (top + 1) * p == top * p + p;
    if c == 1 && top' == 0 {
      assert top == B - 1;
    } else {
      MulMono(top' + 1, B, p);
      assert (top' + 1) * p == top' * p + p;
    }
  }

  method AddBackOnce(taba: array<Limb>, o: nat, tabb: array<Limb>, bo: nat, nb: nat, ghost d: int) returns (done: bool)
    requires taba != tabb && o + nb + 1 <= taba.Length && bo + nb <= tabb.Length
    requires At(taba, o, nb + 1) == d + Pow(nb + 1) && d < 0
    modifies taba
    ensures Outside(old(taba[..]), taba[..], o, nb + 1)
    ensures done ==> At(taba, o, nb + 1) == d + At(tabb, bo, nb) && 0 <= d + At(tabb, bo, nb)
    ensures !done ==> At(taba, o, nb + 1) == d + At(tabb, bo, nb) + Pow(nb + 1) && d + At(tabb, bo, nb) < 0
  {
    hide Val;
    AtSnoc(taba, o, nb);
    PowStep(nb);
    hide Pow;
    ghost var low, top, b := At(taba, o, nb), taba[o + nb], At(tabb, bo, nb);
    AtBound(tabb, bo, nb);
    var c := MpAdd(taba, o, taba, o, tabb, bo, nb, 0);
    assert taba[o + nb] == top;
    ghost var low' := At(taba, o, nb);
    AtBound(taba, o, nb);
    done := false;
    if c != 0 {
      ghost var s := taba[o..o + nb];
      taba[o + nb] := Wrap(taba[o + nb] as int + 1);
      assert taba[o..o + nb] == s;
      done := taba[o + nb] == 0;
    }
    AtSnoc(taba, o, nb);
    AddBackArith(low, top, Pow(nb), d, b, low', c, taba[o + nb]);
  }

  // The window stands for w - q * b, which is negative but not below -2 * b.
  ghost predicate Negative(w: int, q: int, b: int, d: int, tries: int) {
    0 <= w && b > 0 && d == w - q * b && d < 0 && d >= (tries - 2) * b
  }

  lemma AddBackStep(w: int, q: int, b: int, d: int, tries: int)
    requires Negative(w, q, b, d, tries) && 0 <= tries
    ensures q >= 1 && tries <= 1 && d + b == w - (q - 1) * b
    ensures d + b < 0 ==> Negative(w, q - 1, b, d + b, tries + 1)
  {
    MulCancelLess(0, q, b);
    MulCancelLess(tries - 2, 0, b);
    assert (q - 1) * b == q * b - b;
    assert (tries + 1 - 2) * b == (tries - 2) * b + b;
  }

  // The digit guess is too large: add b back until the window is no longer negative.
  method AddBack(taba: array<Limb>, o: nat, tabb: array<Limb>, bo: nat, nb: nat, q0: Limb, ghost w: int)
    returns (q: Limb, ghost tries: nat)
    requires taba != tabb && o + nb + 1 <= taba.Length && bo + nb <= tabb.Length
    requires Negative(w, q0, At(tabb, bo, nb), At(taba, o, nb + 1) - Pow(nb + 1), 0)
    modifies taba
    ensures Outside(old(taba[..]), taba[..], o, nb + 1)
    ensures q + tries == q0 && 1 <= tries <= 2
    ensures At(taba, o, nb + 1) == w - q * At(tabb, bo, nb) && 0 <= At(taba, o, nb + 1) < At(tabb, bo, nb)
  {
    hide Val;
    hide Pow;
    q, tries := q0, 0;
    ghost var b, d := At(tabb, bo, nb), At(taba, o, nb + 1) - Pow(nb + 1);
    while true
      invariant forall j :: 0 <= j < taba.Length && (j < o || o + nb + 1 <= j) ==> taba[j] == old(taba[j])
      invariant q + tries == q0 && At(taba, o, nb + 1) == d + Pow(nb + 1) && Negative(w, q, b, d, tries)
      decreases q
    {
      AddBackStep(w, q, b, d, tries);
      q := q - 1;
      var done := AddBackOnce(taba, o, tabb, bo, nb, d);
      tries := tries + 1;
      d := d + b;
      if done {
        break;
      }
    }
  }

  lemma GoodGuessBounds(w: int, b: int, q: int)
    requires GoodGuess(w, b, q)
    ensures -2 * b <= w - q * b < b
  {
    var t := w / b;
    assert w == t * b + w % b && (t + 2) * b == t * b + 2 * b;
    MulMono(q, t + 2, b);
    MulMono(t, q, b);
  }

  // The top limb after a borrow r, and the sign of what the window stands for.
  lemma Borrowed(low: int, p: int, u1: int, r: int, a: int, x: int)
    requires 0 <= low < p && 0 <= u1 < B && 0 <= r < B && a == (u1 - r) % B && x == low + (u1 - r) * p
    ensures a <= u1 ==> low + a * p == x && 0 <= x
    ensures a > u1 ==> low + a * p == x + B * p && x < 0
  {
    if r <= u1 {
      assert a == u1 - r;
      MulPos(a, p);
    } else {
      assert a == u1 - r + B;
      assert (u1 - r + B) * p == (u1 - r) * p + B * p;
      MulMono(u1 - r, -1, p);
    }
  }

  // Subtracting q * b from the window: either the exact remainder, or a negative number.
  lemma SubtractArith(low: int, u1: int, p: int, w: int, b: int, q: int, low': int, r: int, a: int)
    requires low + u1 * p == w && low' - r * p == low - b * q && 0 <= low' < p && GoodGuess(w, b, q)
    requires 0 <= u1 < B && 0 <= r < B && a == (u1 - r) % B
    ensures a <= u1 ==> low' + a * p == w - q * b && 0 <= w - q * b < b
    ensures a > u1 ==> Negative(w, q, b, low' + a * p - B * p, 0)
  {
    var x := low' + (u1 - r) * p;
    assert (u1 - r) * p == u1 * p - r * p;
    assert x == w - q * b;
    Borrowed(low', p, u1, r, a, x);
    GoodGuessBounds(w, b, q);
  }

  // One digit of the quotient. tries counts the corrections.
  method DivLimb(taba: array<Limb>, o: nat, tabb: array<Limb>, bo: nat, nb: nat, b1Inv: Limb, useInverse: bool)
    returns (q: Limb, ghost tries: nat)
    requires taba != tabb && nb >= 2 && o + nb + 1 <= taba.Length && bo + nb <= tabb.Length
    requires tabb[bo + nb - 1] >= HALF && At(taba, o + 1, nb) < At(tabb, bo, nb)
    requires useInverse ==> b1Inv == (B * B - 1) / tabb[bo + nb - 1] - B
    modifies taba
    ensures Outside(old(taba[..]), taba[..], o, nb + 1)
    ensures q * At(tabb, bo, nb) + At(taba, o, nb) == old(At(taba, o, nb + 1))
    ensures At(taba, o, nb) < At(tabb, bo, nb) && tries <= 2
  {
    hide Val;
    hide GoodGuess;
    hide Negative;
    PowStep(nb);
    hide Pow;
    q := GuessDigit(taba, o, tabb, bo, nb, b1Inv, useInverse);
    ghost var w, b, low := At(taba, o, nb + 1), At(tabb, bo, nb), At(taba, o, nb);
    AtSnoc(taba, o, nb);
    var u1 := taba[o + nb];
    var r := MpSubMul1(taba, o, tabb, bo, nb, q);
    assert taba[o + nb] == u1;
    AtBound(taba, o, nb);
    var v := taba[o + nb];
    var a := Wrap(v as int - r);
    SubtractArith(low, u1, Pow(nb), w, b, q, At(taba, o, nb), r, a);
    ghost var s := taba[o..o + nb];
    taba[o + nb] := a;
    assert taba[o..o + nb] == s;
    AtSnoc(taba, o, nb);
    tries := 0;
    if a > v {
      q, tries := AddBack(taba, o, tabb, bo, nb, q, w);
    }
    AtBound(tabb, bo, nb);
    TopZero(taba, o, nb, b);
  }

  // A remainder below b leaves nothing in the limb above it.
  lemma TopZero(taba: array<Limb>, o: nat, nb: nat, b: int)
    requires o + nb + 1 <= taba.Length && At(taba, o, nb + 1) < b <= Pow(nb)
    ensures At(taba, o, nb) == At(taba, o, nb + 1)
  {
    hide Val;
    hide Pow;
    AtSnoc(taba, o, nb);
    AtBound(taba, o, nb);
    MulCancelLess(taba[o + nb], 1, Pow(nb));
  }

  // taba[i..] >= tabb, deciding at the topmost difference.
  method TopCompare(taba: array<Limb>, o: nat, tabb: array<Limb>, bo: nat, nb: nat) returns (q: Limb)
    requires o + nb <= taba.Length && bo + nb <= tabb.Length
    ensures q == if At(taba, o, nb) >= At(tabb, bo, nb) then 1 else 0
  {
    hide Val;
    ghost var s, t := taba[o..o + nb], tabb[bo..bo + nb];
    q := 1;
    var j := nb;
    while j > 0
      invariant 0 <= j <= nb && s[j..] == t[j..] && q == 1
    {
      j := j - 1;
      if taba[o + j] != tabb[bo + j] {
        if taba[o + j] < tabb[bo + j] {
          TopDecides(s, t, j);
          q := 0;
        } else {
          TopDecides(t, s, j);
        }
        return;
      }
      assert s[j..] == [s[j]] + s[j + 1..] && t[j..] == [t[j]] + t[j + 1..];
    }
    assert s == s[0..] && t == t[0..];
  }

  // The first digit is only 0 or 1, because b is normalized.
  method FirstDigitOf(taba: array<Limb>, o: nat, tabb: array<Limb>, bo: nat, nb: nat) returns (q: Limb)
    requires taba != tabb && nb >= 1 && o + nb <= taba.Length && bo + nb <= tabb.Length && tabb[bo + nb - 1] >= HALF
    modifies taba
    ensures Outside(old(taba[..]), taba[..], o, nb)
    ensures q <= 1 && q * At(tabb, bo, nb) + At(taba, o, nb) == old(At(taba, o, nb))
    ensures At(taba, o, nb) < At(tabb, bo, nb)
  {
    hide Val;
    Normalized(tabb, bo, nb);
    hide Pow;
    AtBound(taba, o, nb);
    q := TopCompare(taba, o, tabb, bo, nb);
    if q != 0 {
      var borrow := MpSub(taba, o, taba, o, tabb, bo, nb, 0);
      AtBound(taba, o, nb);
      AtBound(tabb, bo, nb);
      NoBorrow(borrow, Pow(nb), At(taba, o, nb));
    }
  }

  lemma NoBorrow(k: Limb, p: int, x: int)
    requires k <= 1 && x < p && 0 <= x - k * p
    ensures k == 0
  {
  }

  // A number whose top bit is set is at least half of B^n.
  lemma Normalized(b: array<Limb>, bo: nat, nb: nat)
    requires nb >= 1 && bo + nb <= b.Length && b[bo + nb - 1] >= HALF
    ensures 2 * At(b, bo, nb) >= Pow(nb)
  {
    hide Val;
    PowStep(nb - 1);
    hide Pow;
    AtSnoc(b, bo, nb - 1);
    AtBound(b, bo, nb - 1);
    MulMono(HALF, b[bo + nb - 1], Pow(nb - 1));
  }

  // The digits from i up are final; what is left of the dividend is below b * B^i.
  ghost predicate DividedDown(tabq: array<Limb>, qo: nat, taba: array<Limb>, ao: nat, n: nat, nb: nat, i: nat, b: int,
                              a0: int)
    requires i <= n && qo + n + 1 <= tabq.Length && ao + n + nb <= taba.Length
    reads tabq, taba
  {
    && At(taba, ao + i, nb) < b
    && (At(tabq, qo + i, n + 1 - i) * b) * Pow(i) + At(taba, ao, i + nb) == a0
  }

  lemma DownArith(q: int, qs: int, b: int, p: int, p': int, low: int, win: int, win': int, a0: int, all: int,
                  all': int, qs': int)
    requires (qs * b) * p' + all == a0 && p' == B * p && all == low + win * p && all' == low + win' * p
    requires q * b + win' == win && qs' == q + qs * B
    ensures (qs' * b) * p + all' == a0
  {
    assert ((q + qs * B) * b) * p == (q * b) * p + (qs * b) * (B * p);
    assert (q * b + win') * p == (q * b) * p + win' * p;
  }

  // One turn of the main loop.
  method DownStep(tabq: array<Limb>, qo: nat, taba: array<Limb>, ao: nat, n: nat, tabb: array<Limb>, bo: nat, nb: nat,
                  i: nat, b1Inv: Limb, useInverse: bool, ghost a0: int)
    requires tabq != taba && tabq != tabb && taba != tabb && nb >= 2 && i < n
    requires qo + n + 1 <= tabq.Length && ao + n + nb <= taba.Length && bo + nb <= tabb.Length
    requires tabb[bo + nb - 1] >= HALF && (useInverse ==> b1Inv == (B * B - 1) / tabb[bo + nb - 1] - B)
    requires DividedDown(tabq, qo, taba, ao, n, nb, i + 1, At(tabb, bo, nb), a0)
    modifies tabq, taba
    ensures DividedDown(tabq, qo, taba, ao, n, nb, i, At(tabb, bo, nb), a0)
    ensures Outside(old(taba[..]), taba[..], ao, n + nb)
    ensures forall j :: 0 <= j < tabq.Length && j != qo + i ==> tabq[j] == old(tabq[j])
  {
    hide Val;
    PowStep(i);
    hide Pow;
    ghost var b, low, lows := At(tabb, bo, nb), At(taba, ao, i), taba[ao..ao + i];
    AtConcat(taba, ao, i, nb + 1);
    ghost var all, win, qs := At(taba, ao, i + 1 + nb), At(taba, ao + i, nb + 1), At(tabq, qo + (i + 1), n - i);
    ghost var qlimbs := tabq[qo + (i + 1)..qo + (i + 1) + (n - i)];
    var q;
    ghost var tries;
    q, tries := DivLimb(taba, ao + i, tabb, bo, nb, b1Inv, useInverse);
    assert taba[ao..ao + i] == lows;
    tabq[qo + i] := q;
    assert tabq[qo + (i + 1)..qo + (i + 1) + (n - i)] == qlimbs;
    AtCons(tabq, qo + i, n - i);
    AtConcat(taba, ao, i, nb);
    DownArith(q, qs, b, Pow(i), Pow(i + 1), low, win, At(taba, ao + i, nb), a0, all, At(taba, ao, i + nb),
              At(tabq, qo + i, n + 1 - i));
  }

  // mp_divnorm below the threshold of the subquadratic algorithm: tabq := taba / tabb, and the
  // remainder is left in the low nb limbs of taba.
  method MpDivnormBase(tabq: array<Limb>, qo: nat, taba: array<Limb>, ao: nat, na: nat, tabb: array<Limb>, bo: nat,
                       nb: nat)
    requires tabq != taba && tabq != tabb && taba != tabb && na >= nb >= 1
    requires qo + (na - nb) + 1 <= tabq.Length && ao + na <= taba.Length && bo + nb <= tabb.Length
    requires tabb[bo + nb - 1] >= HALF
    modifies tabq, taba
    ensures Outside(old(taba[..]), taba[..], ao, na) && Outside(old(tabq[..]), tabq[..], qo, na - nb + 1)
    ensures At(tabq, qo, na - nb + 1) * At(tabb, bo, nb) + At(taba, ao, nb) == old(At(taba, ao, na))
    ensures At(taba, ao, nb) < At(tabb, bo, nb) && tabq[qo + (na - nb)] <= 1
  {
    hide Val;
    hide Pow;
    hide DividedDown;
    var b1 := tabb[bo + nb - 1];
    if nb == 1 {
      DivideByOne(tabq, qo, taba, ao, na, tabb, bo);
      return;
    }
    var n := na - nb;
    var b1Inv, useInverse: bool := 0, n >= UDIV1NORM_THRESHOLD;
    if useInverse {
      b1Inv := Udiv1normInit(b1);
    }
    ghost var a0 := At(taba, ao, na);
    FirstStep(tabq, qo, taba, ao, n, tabb, bo, nb);
    ghost var top := tabq[qo + n];
    var i := n;
    while i > 0
      invariant 0 <= i <= n && tabq[qo + n] == top
      invariant forall j :: 0 <= j < taba.Length && (j < ao || ao + na <= j) ==> taba[j] == old(taba[j])
      invariant forall j :: 0 <= j < tabq.Length && (j < qo || qo + n + 1 <= j) ==> tabq[j] == old(tabq[j])
      invariant DividedDown(tabq, qo, taba, ao, n, nb, i, At(tabb, bo, nb), a0)
    {
      i := i - 1;
      DownStep(tabq, qo, taba, ao, n, tabb, bo, nb, i, b1Inv, useInverse, a0);
    }
    DownDone(tabq, qo, taba, ao, n, nb, At(tabb, bo, nb), a0);
  }

  lemma DownDone(tabq: array<Limb>, qo: nat, taba: array<Limb>, ao: nat, n: nat, nb: nat, b: int, a0: int)
    requires qo + n + 1 <= tabq.Length && ao + n + nb <= taba.Length
    requires DividedDown(tabq, qo, taba, ao, n, nb, 0, b, a0)
    ensures At(taba, ao, nb) < b && At(tabq, qo, n + 1) * b + At(taba, ao, nb) == a0
  {
    hide Val;
    PowOne();
  }

  method FirstStep(tabq: array<Limb>, qo: nat, taba: array<Limb>, ao: nat, n: nat, tabb: array<Limb>, bo: nat, nb: nat)
    requires tabq != taba && tabq != tabb && taba != tabb && nb >= 1
    requires qo + n + 1 <= tabq.Length && ao + n + nb <= taba.Length && bo + nb <= tabb.Length
    requires tabb[bo + nb - 1] >= HALF
    modifies tabq, taba
    ensures Outside(old(taba[..]), taba[..], ao, n + nb) && Outside(old(tabq[..]), tabq[..], qo, n + 1)
    ensures tabq[qo + n] <= 1
    ensures DividedDown(tabq, qo, taba, ao, n, nb, n, At(tabb, bo, nb), old(At(taba, ao, n + nb)))
  {
    hide Val;
    hide Pow;
    ghost var b, low, lows := At(tabb, bo, nb), At(taba, ao, n), taba[ao..ao + n];
    AtConcat(taba, ao, n, nb);
    ghost var win := At(taba, ao + n, nb);
    var q := FirstDigitOf(taba, ao + n, tabb, bo, nb);
    tabq[qo + n] := q;
    assert taba[ao..ao + n] == lows;
    AtConcat(taba, ao, n, nb);
    assert tabq[qo + n..qo + n + 1] == [q];
    ValOne(q);
    FirstArith(q, b, Pow(n), low, win, At(taba, ao + n, nb));
  }

  lemma FirstArith(q: int, b: int, p: int, low: int, win: int, win': int)
    requires q * b + win' == win
    ensures (q * b) * p + (low + win' * p) == low + win * p
  {
    assert (q * b + win') * p == (q * b) * p + win' * p;
  }

  method DivideByOne(tabq: array<Limb>, qo: nat, taba: array<Limb>, ao: nat, na: nat, tabb: array<Limb>, bo: nat)
    requires tabq != taba && tabq != tabb && taba != tabb && na >= 1
    requires qo + na <= tabq.Length && ao + na <= taba.Length && bo + 1 <= tabb.Length && tabb[bo] >= HALF
    modifies tabq, taba
    ensures Outside(old(taba[..]), taba[..], ao, na) && Outside(old(tabq[..]), tabq[..], qo, na)
    ensures At(tabq, qo, na) * At(tabb, bo, 1) + At(taba, ao, 1) == old(At(taba, ao, na))
    ensures At(taba, ao, 1) < At(tabb, bo, 1) && tabq[qo + (na - 1)] <= 1
  {
    hide Val;
    hide Pow;
    var r := MpDiv1norm(tabq, qo, taba, ao, na, tabb[bo], 0);
    taba[ao] := r;
    assert taba[ao..ao + 1] == [r] && tabb[bo..bo + 1] == [tabb[bo]];
    ValOne(r);
    ValOne(tabb[bo]);
  }
}
