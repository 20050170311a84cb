// The Newton reciprocal of quickjs/libbf.c and the subquadratic division built on it.

module LimbRecip {
  import opened Limbs
  import opened LimbOps
  import opened LimbDiv

  // x is the reciprocal of a: x * a is within 2 * a below B^2n.
  ghost predicate IsRecip(x: int, a: int, square: int) {
    x * a < square < (x + 2) * a
  }

  // ----- One or two limbs: direct division -----

  lemma DirectRecip(q: int, a: int, rem: int, bn: int)
    requires q * a + rem == bn * bn && 0 <= rem < a < bn <= 2 * a
    ensures var x := if rem == 0 then q - 1 else q; IsRecip(x, a, bn * bn) && bn <= x < 2 * bn
    ensures 0 < q < 2 * bn + 1
  {
    assert (q + 1) * a == q * a + a && (q + 2) * a == q * a + 2 * a && (q - 1) * a == q * a - a;
    MulStrict(a, bn, bn);
    MulMono(bn, 2 * a, bn);
    if rem == 0 {
      MulCancelLess(bn, q, a);
      MulCancelLess(q - 1, 2 * bn, a);
    } else {
      MulCancelLess(bn, q + 1, a);
      MulCancelLess(q, 2 * bn, a);
    }
  }

  // ----- The Newton step -----

  // The first h limbs of the reciprocal: t is what x * a misses of B^(n+h).
  lemma FirstMiss(x: int, ah: int, al: int, a: int, l: int, h2: int)
    requires a == ah * l + al && 0 <= al && l > 0 && 0 <= ah && x >= 0 && IsRecip(x, ah, h2)
    ensures h2 * l - x * a < 2 * a
  {
    MulStrict(h2, (x + 2) * ah, l);
    assert ((x + 2) * ah) * l == (x + 2) * (ah * l);
    MulMono(ah * l, a, x + 2);
    assert (x + 2) * a == x * a + 2 * a;
  }

  // The error of the refined reciprocal, k times over.
  lemma NewtonIdentity(a: int, xh: int, l: int, h2: int, k: int, t: int, tm: int, tl: int, q: int, ul: int)
    requires a * xh == h2 * l - t && t == tm * l + tl && tm * xh == q * k + ul && k * l == h2
    ensures k * ((h2 * l) * l - (xh * l + q) * a) == tl * h2 + tm * t + a * ul
  {
    assert k * ((h2 * l) * l) == (k * l) * (h2 * l);
    assert k * ((xh * l) * a) == (k * l) * (a * xh);
    assert k * (q * a) == a * (q * k);
    assert a * (tm * xh) == tm * (a * xh);
    assert tm * (h2 * l) == h2 * (tm * l);
    assert (xh * l + q) * a == (xh * l) * a + q * a;
    assert a * (q * k + ul) == a * (q * k) + a * ul;
    assert h2 * (h2 * l) - h2 * (h2 * l - t) == h2 * t;
    assert h2 * (tm * l + tl) == h2 * (tm * l) + h2 * tl;
    assert tm * (h2 * l - t) == tm * (h2 * l) - tm * t;
  }

  // The three parts of the error, each against a * k.
  lemma LowError(a: int, l: int, h: int, h2: int, k: int, tl: int)
    requires 0 <= tl < l && k * l == h2 && h * l <= 2 * a && h >= B * l && k > 0
    ensures 0 <= tl * h2 && B * (tl * h2) <= 2 * (a * k)
  {
    MulPos(k, l);
    MulPos(tl, h2);
    MulMono(tl, l, h2);
    MulMono(B * l, h, l);
    assert (B * l) * l == B * (l * l);
    MulMono(B * (l * l), 2 * a, k);
    assert (B * (l * l)) * k == B * (l * (k * l));
    assert (2 * a) * k == 2 * (a * k);
  }

  lemma MidError(a: int, l: int, h: int, k: int, t: int, tm: int)
    requires tm * l <= t && 0 < t < 2 * a && 0 <= tm && a < h * l && k >= B * h && 0 < h && 0 < l
    ensures 0 <= tm * t && B * (tm * t) <= 4 * (a * k)
  {
    MulPos(tm, t);
    MulMono(tm * l, t, t);
    assert (tm * l) * t == (tm * t) * l;
    MulStrict(t, 2 * a, t);
    MulStrict(t, 2 * a, 2 * a);
    MulStrict(a, h * l, 4 * a);
    assert (2 * a) * (2 * a) == a * (4 * a);
    assert (h * l) * (4 * a) == (4 * (a * h)) * l;
    MulCancelLess(tm * t, 4 * (a * h), l);
    MulMono(B * h, k, a);
    assert (B * h) * a == B * (a * h);
    assert k * a == a * k;
  }

  lemma NewtonBound(a: int, l: int, h: int, h2: int, k: int, t: int, tm: int, tl: int, ul: int)
    requires t == tm * l + tl && 0 <= tl < l && 0 < t < 2 * a && 0 <= tm && 0 <= ul < k && k * l == h2
    requires a < h * l <= 2 * a && h >= B * l && k >= B * h && 0 < h
    ensures 0 < tl * h2 + tm * t + a * ul < 2 * (a * k)
  {
    LowError(a, l, h, h2, k, tl);
    MidError(a, l, h, k, t, tm);
    MulStrict(ul, k, a);
    MulPos(a, ul);
    MulStrict(0, k, a);
    MulStrict(0, k, l);
    if tm > 0 {
      MulStrict(0, tm, t);
    } else {
      MulStrict(0, tl, h2);
    }
  }

  lemma NewtonStep(a: int, xh: int, l: int, h: int, h2: int, k: int, t: int, tm: int, tl: int, q: int, ul: int)
    requires a * xh == h2 * l - t && t == tm * l + tl && tm * xh == q * k + ul && k * l == h2
    requires 0 <= tl < l && 0 < t < 2 * a && 0 <= tm && 0 <= ul < k
    requires a < h * l <= 2 * a && h >= B * l && k >= B * h && 0 < h
    ensures IsRecip(xh * l + q, a, (h2 * l) * l)
  {
    NewtonIdentity(a, xh, l, h2, k, t, tm, tl, q, ul);
    NewtonBound(a, l, h, h2, k, t, tm, tl, ul);
    RecipFromError((h2 * l) * l, xh * l + q, a, k, tl * h2 + tm * t + a * ul);
  }

  lemma RecipFromError(square: int, x: int, a: int, k: int, err: int)
    requires k * (square - x * a) == err && 0 < err < 2 * (a * k) && k > 0
    ensures IsRecip(x, a, square)
  {
    MulCancelLess(0, square - x * a, k);
    assert k * (2 * a) == 2 * (a * k);
    MulCancelLess(square - x * a, 2 * a, k);
    assert (x + 2) * a == x * a + 2 * a;
  }

  // The refined reciprocal keeps its top limb.
  lemma RecipRange(x: int, a: int, bn: int)
    requires IsRecip(x, a, bn * bn) && 0 < bn <= 2 * a
    ensures x < 2 * bn
  {
    MulMono(bn, 2 * a, bn);
    MulCancelLess(x, 2 * bn, a);
  }

  // ----- Pieces of mp_recip -----

  // A number of n + 1 limbs between B^n and 2 * B^n starts with the limb 1.
  lemma TopIsOne(a: array<Limb>, o: nat, n: nat)
    requires o + n + 1 <= a.Length
    ensures a[o + n] == 1 <==> Pow(n) <= At(a, o, n + 1) < 2 * Pow(n)
  {
    hide Val;
    hide Pow;
    AtSnoc(a, o, n);
    AtBound(a, o, n);
    var top, p := a[o + n], Pow(n);
    if At(a, o, n + 1) < 2 * p {
      MulCancelLess(top, 2, p);
    }
    if p <= At(a, o, n + 1) {
      assert (top as int + 1) * p == top * p + p;
      MulCancelLess(1, top as int + 1, p);
    }
  }

  lemma SubLongArith(lo: int, hi: int, p: int, a: int, lo': int, hi': int, c: int, k: int, q: int)
    requires lo' - c * p == lo - a && hi' - k * q == hi - c && (k == 0 || k == 1)
    requires 0 <= (lo + hi * p) - a && 0 <= lo' < p && 0 <= hi' < q
    ensures lo' + hi' * p == (lo + hi * p) - a
  {
    assert (hi' - k * q) * p == hi' * p - k * (q * p);
    assert (hi - c) * p == hi * p - c * p;
    assert (hi' + 1) * p == hi' * p + p;
    MulMono(hi' + 1, q, p);
  }

  // Subtract n limbs from n + m limbs.
  method SubLong(t: array<Limb>, to: nat, n: nat, m: nat, a: array<Limb>, ao: nat)
    requires t != a && to + n + m <= t.Length && ao + n <= a.Length && m >= 1
    requires At(a, ao, n) <= At(t, to, n + m)
    modifies t
    ensures Outside(old(t[..]), t[..], to, n + m)
    ensures At(t, to, n + m) == old(At(t, to, n + m)) - At(a, ao, n)
  {
    hide Val;
    hide Pow;
    ghost var lo, hi, x, his := At(t, to, n), At(t, to + n, m), At(a, ao, n), t[to + n..to + n + m];
    AtConcat(t, to, n, m);
    var c := MpSub(t, to, t, to, a, ao, n, 0);
    assert t[to + n..to + n + m] == his;
    ghost var los := t[to..to + n];
    var k := MpSubUi(t, to + n, c, m);
    assert t[to..to + n] == los;
    AtConcat(t, to, n, m);
    AtBound(t, to, n);
    AtBound(t, to + n, m);
    SubLongArith(lo, hi, Pow(n), x, At(t, to, n), At(t, to + n, m), c, k, Pow(m));
  }

  lemma GuessShrinks(x: int, a: int, bn: int, h: int, square: int)
    requires x * a >= square && square == bn * h && 0 < a < bn && h > 0
    ensures x - 1 >= h && (x - 1) * a == x * a - a && square - (x - 1) * a <= a
  {
    MulStrict(a, bn, h);
    MulCancelLess(h, x, a);
  }

  lemma NoBorrowUi(x: int, k: Limb, p: int, was: int)
    requires x - k * p == was - 1 && 1 <= was && 0 <= x < p && k <= 1
    ensures k == 0
  {
  }

  // The first loop of the Newton step: lower x until t = x * a is below B^(n+h).
  method LowerGuess(tabr: array<Limb>, xo: nat, h: nat, tabt: array<Limb>, taba: array<Limb>, ao: nat, n: nat)
    requires tabr != tabt && tabt != taba && tabr != taba && h >= 1 && n >= 1
    requires xo + h + 1 <= tabr.Length && n + h + 1 <= tabt.Length && ao + n <= taba.Length
    requires tabr[xo + h] == 1 && At(taba, ao, n) > 0
    requires At(tabt, 0, n + h + 1) == At(tabr, xo, h + 1) * At(taba, ao, n)
    requires Pow(n + h) - At(tabt, 0, n + h + 1) < 2 * At(taba, ao, n)
    modifies tabr, tabt
    ensures Outside(old(tabr[..]), tabr[..], xo, h + 1) && tabr[xo + h] == 1
    ensures At(tabt, 0, n + h + 1) == At(tabr, xo, h + 1) * At(taba, ao, n)
    ensures 0 < Pow(n + h) - At(tabt, 0, n + h + 1) < 2 * At(taba, ao, n)
  {
    hide Val;
    hide Pow;
    ghost var a := At(taba, ao, n);
    AtBound(taba, ao, n);
    while tabt[n + h] != 0
      invariant forall j :: 0 <= j < tabr.Length && (j < xo || xo + h + 1 <= j) ==> tabr[j] == old(tabr[j])
      invariant tabr[xo + h] == 1
      invariant At(tabt, 0, n + h + 1) == At(tabr, xo, h + 1) * a
      invariant Pow(n + h) - At(tabt, 0, n + h + 1) < 2 * a
      decreases At(tabt, 0, n + h + 1)
    {
      AtSnoc(tabt, 0, n + h);
      AtBound(tabt, 0, n + h);
      MulMono(1, tabt[n + h], Pow(n + h));
      ghost var x := At(tabr, xo, h + 1);
      PowAdd(n, h);
      GuessShrinks(x, a, Pow(n), Pow(h), Pow(n + h));
      TopIsOne(tabr, xo, h);
      var k := MpSubUi(tabr, xo, 1, h + 1);
      AtBound(tabr, xo, h + 1);
      NoBorrowUi(At(tabr, xo, h + 1), k, Pow(h + 1), x);
      TopIsOne(tabr, xo, h);
      MulMono(1, x, a);
      SubLong(tabt, 0, n, h + 1, taba, ao);
    }
    AtSnoc(tabt, 0, n + h);
    AtBound(tabt, 0, n + h);
  }

  lemma ComplementArith(t: int, p: int, q: int, neg: int, k: int, top: int, low: int)
    requires 0 < t < p && q == B * p && neg - k * q == -t && (k == 0 || k == 1) && 0 <= neg < q
    requires neg == low + top * p && 0 <= low < p && 0 <= top < B
    ensures top == B - 1 && low == p - t
  {
    assert k == 1;
    assert (B - 2) * p == B * p - 2 * p;
    MulCancelLess(B - 2, top, p);
  }

  // t := B^m - t, by negation and a carry into the top limb.
  method Complement(tabt: array<Limb>, m: nat)
    requires m + 1 <= tabt.Length && 0 < At(tabt, 0, m + 1) < Pow(m)
    modifies tabt
    ensures Outside(old(tabt[..]), tabt[..], 0, m + 1)
    ensures At(tabt, 0, m + 1) == Pow(m) - old(At(tabt, 0, m + 1))
  {
    hide Val;
    PowStep(m);
    hide Pow;
    ghost var t := At(tabt, 0, m + 1);
    var k := MpNeg(tabt, 0, tabt, 0, m + 1, 0);
    AtSnoc(tabt, 0, m);
    AtBound(tabt, 0, m);
    AtBound(tabt, 0, m + 1);
    ComplementArith(t, Pow(m), Pow(m + 1), At(tabt, 0, m + 1), k, tabt[m], At(tabt, 0, m));
    ghost var low := tabt[0..m];
    tabt[m] := Wrap(tabt[m] as int + 1);
    assert tabt[0..m] == low;
    AtSnoc(tabt, 0, m);
  }

  // mp_mul. (Above FFT_MUL_THRESHOLD the source uses the transform of NttMul.dfy.)
  method MpMul(res: array<Limb>, ro: nat, op1: array<Limb>, o1: nat, n1: nat, op2: array<Limb>, o2: nat, n2: nat)
    requires n2 >= 1 && ro + n1 + n2 <= res.Length && o1 + n1 <= op1.Length && o2 + n2 <= op2.Length
    requires res != op1 && res != op2
    modifies res
    ensures Outside(old(res[..]), res[..], ro, n1 + n2)
    ensures At(res, ro, n1 + n2) == old(At(op1, o1, n1)) * old(At(op2, o2, n2))
  {
    MpMulBasecase(res, ro, op1, o1, n1, op2, o2, n2);
  }

  // The high limbs of a small number are zero.
  lemma FitsLow(a: array<Limb>, o: nat, m: nat, r: nat)
    requires o + m + r <= a.Length && At(a, o, m + r) < Pow(m)
    ensures At(a, o, m) == At(a, o, m + r)
  {
    hide Val;
    hide Pow;
    AtConcat(a, o, m, r);
    AtBound(a, o, m);
    AtBound(a, o + m, r);
    MulCancelLess(At(a, o + m, r), 1, Pow(m));
  }

  // Is the value at (tabr, ro) a reciprocal with top limb 1?
  ghost predicate RecipAt(tabr: array<Limb>, ro: nat, taba: array<Limb>, ao: nat, n: nat)
    requires ro + n + 1 <= tabr.Length && ao + n <= taba.Length
    reads tabr, taba
  {
    tabr[ro + n] == 1 && IsRecip(At(tabr, ro, n + 1), At(taba, ao, n), Pow(n) * Pow(n))
  }

  method CopyLimbs(res: array<Limb>, ro: nat, a: array<Limb>, ao: nat, n: nat)
    requires res != a && ro + n <= res.Length && ao + n <= a.Length
    modifies res
    ensures Outside(old(res[..]), res[..], ro, n) && At(res, ro, n) == At(a, ao, n)
  {
    hide Val;
    var i := 0;
    while i < n
      invariant 0 <= i <= n && res[ro..ro + i] == a[ao..ao + i]
      invariant forall j :: 0 <= j < res.Length && (j < ro || ro + i <= j) ==> res[j] == old(res[j])
    {
      res[ro + i] := a[ao + i];
      i := i + 1;
    }
  }

  // Quotient and remainder of B^2n.
  ghost predicate SquareDivided(q: int, rem: int, a: int, bn: int) {
    q * a + rem == bn * bn && 0 <= rem < a && a < bn <= 2 * a
  }

  method DivideSquare(tabt: array<Limb>, tabu: array<Limb>, taba: array<Limb>, ao: nat, n: nat)
    requires tabt != taba && tabu != taba && tabt != tabu && n >= 1 && ao + n <= taba.Length && taba[ao + n - 1] >= HALF
    requires tabu.Length == 2 * n + 1 && tabt.Length == n + 2
    modifies tabt, tabu
    ensures SquareDivided(At(tabt, 0, n + 1), At(tabu, 0, n), At(taba, ao, n), Pow(n))
  {
    hide Val;
    hide Pow;
    OneAndZeros(tabu, 2 * n);
    PowAdd(n, n);
    Normalized(taba, ao, n);
    AtBound(taba, ao, n);
    MpDivnormBase(tabt, 0, tabu, 0, 2 * n + 1, taba, ao, n);
    AtBound(tabu, 0, n);
    AtBound(tabt, 0, n + 2);
    DirectRecip(At(tabt, 0, n + 2), At(taba, ao, n), At(tabu, 0, n), Pow(n));
    PowStep(n);
    FitsLow(tabt, 0, n + 1, 1);
  }

  lemma SquareRecip(q: int, rem: int, a: int, bn: int)
    requires SquareDivided(q, rem, a, bn)
    ensures var x := if rem == 0 then q - 1 else q; IsRecip(x, a, bn * bn) && bn <= x < 2 * bn
    ensures q > 0
  {
    hide IsRecip;
    DirectRecip(q, a, rem, bn);
  }

  method RecipDirect(tabr: array<Limb>, ro: nat, taba: array<Limb>, ao: nat, n: nat)
    requires tabr != taba && n >= 1 && ro + n + 1 <= tabr.Length && ao + n <= taba.Length && taba[ao + n - 1] >= HALF
    modifies tabr
    ensures Outside(old(tabr[..]), tabr[..], ro, n + 1) && RecipAt(tabr, ro, taba, ao, n)
  {
    hide Val;
    hide Pow;
    hide IsRecip;
    hide SquareDivided;
    var tabu, tabt := new Limb[2 * n + 1], new Limb[n + 2];
    DivideSquare(tabt, tabu, taba, ao, n);
    ghost var q := At(tabt, 0, n + 1);
    SquareRecip(q, At(tabu, 0, n), At(taba, ao, n), Pow(n));
    CopyLimbs(tabr, ro, tabt, 0, n + 1);
    var nz := MpScanNz(tabu, 0, n);
    if !nz {
      var k := MpSubUi(tabr, ro, 1, n + 1);
      AtBound(tabr, ro, n + 1);
      NoBorrowUi(At(tabr, ro, n + 1), k, Pow(n + 1), q);
    }
    TopIsOne(tabr, ro, n);
  }

  // B^m: m zero limbs and a one.
  method OneAndZeros(tab: array<Limb>, m: nat)
    requires m + 1 <= tab.Length
    modifies tab
    ensures At(tab, 0, m + 1) == Pow(m)
  {
    hide Val;
    hide Pow;
    var i := 0;
    while i < m
      invariant 0 <= i <= m && forall j :: 0 <= j < i ==> tab[j] == 0
    {
      tab[i] := 0;
      i := i + 1;
    }
    tab[m] := 1;
    ValZeros(tab[0..m]);
    AtSnoc(tab, 0, m);
  }

  // Powers of B in the Newton step.
  lemma StepPowers(l: nat, h: nat)
    requires 1 <= l < h
    ensures var n, k := l + h, 2 * h - l;
      && Pow(n) == Pow(l) * Pow(h) && Pow(n + h) == (Pow(h) * Pow(h)) * Pow(l)
      && Pow(n) * Pow(n) == ((Pow(h) * Pow(h)) * Pow(l)) * Pow(l)
      && Pow(k) * Pow(l) == Pow(h) * Pow(h) && Pow(h) >= B * Pow(l) && Pow(k) >= B * Pow(h)
  {
    var n, k := l + h, 2 * h - l;
    PowAdd(l, h);
    PowAdd(n, h);
    PowAdd(h, h);
    PowAdd(k, l);
    PowStep(l);
    PowMono(l + 1, h);
    PowStep(h);
    PowMono(h + 1, k);
    hide Pow;
    FourFactors(Pow(l), Pow(h));
  }

  lemma FourFactors(l: int, h: int)
    ensures (l * h) * (l * h) == ((h * h) * l) * l && (l * h) * h == (h * h) * l
  {
  }

  // The limbs of tabu from 2 * h - l up, added to the old reciprocal, make the new one.
  lemma RefineValue(tabt: array<Limb>, tabu: array<Limb>, l: nat, h: nat, a: int, xh: int, t: int)
    requires 1 <= l < h && tabt.Length == l + 2 * h + 1 && tabu.Length == 3 * h + 2
    requires t == At(tabt, 0, l + 2 * h + 1) && xh * a == Pow(l + 2 * h) - t && 0 < t < 2 * a
    requires At(tabu, 0, 3 * h + 2) == At(tabt, l, 2 * h + 1) * xh
    requires a < Pow(l + h) <= 2 * a && xh >= Pow(h)
    ensures var q := At(tabu, 2 * h - l, l) + At(tabu, 2 * h, h) * Pow(l);
      && IsRecip(xh * Pow(l) + q, a, Pow(l + h) * Pow(l + h))
      && xh * Pow(l) + q < 2 * Pow(l + h)
  {
    hide Val;
    StepPowers(l, h);
    hide Pow;
    var k := 2 * h - l;
    AtConcat(tabt, 0, l, 2 * h + 1);
    AtBound(tabt, 0, l);
    AtBound(tabt, l, 2 * h + 1);
    AtConcat(tabu, 0, k, 3 * h + 2 - k);
    AtBound(tabu, 0, k);
    AtBound(tabu, k, 3 * h + 2 - k);
    var tm, tl, q, ul := At(tabt, l, 2 * h + 1), At(tabt, 0, l), At(tabu, k, 3 * h + 2 - k), At(tabu, 0, k);
    assert a * xh == xh * a && Pow(h) * Pow(l) == Pow(l) * Pow(h);
    NewtonStep(a, xh, Pow(l), Pow(h), Pow(h) * Pow(h), Pow(k), t, tm, tl, q, ul);
    RecipRange(xh * Pow(l) + q, a, Pow(l + h));
    MulMono(Pow(h), xh, Pow(l));
    FitsLow(tabu, k, l + h, 2);
    AtConcat(tabu, k, l, h);
  }

  lemma AddCorrectionArith(xh: int, x0: int, h: int, l: int, ql: int, qh: int, sum: int, c: int, top: int)
    requires xh == x0 + h && sum + c * h == x0 + qh && xh * l + (ql + qh * l) < 2 * (l * h) && 0 < l && 0 <= ql
    requires 0 <= c <= 1 && 0 <= sum && 0 < h
    ensures c == 0 && ql + (sum + h) * l == xh * l + (ql + qh * l)
  {
    assert xh * l + qh * l == (x0 + qh) * l + h * l;
    assert (x0 + qh) * l == (sum + c * h) * l;
    MulCancelLess(x0 + qh, h, l);
    assert (sum + h) * l == sum * l + h * l;
  }

  // The last two steps of mp_recip: copy l limbs, add h.
  method AddCorrection(tabr: array<Limb>, ro: nat, tabu: array<Limb>, l: nat, h: nat, ghost xh: int)
    requires tabr != tabu && 1 <= l < h && ro + l + h + 1 <= tabr.Length && tabu.Length == 3 * h + 2
    requires xh == At(tabr, ro + l, h + 1) && tabr[ro + l + h] == 1
    requires xh * Pow(l) + (At(tabu, 2 * h - l, l) + At(tabu, 2 * h, h) * Pow(l)) < 2 * Pow(l + h)
    modifies tabr
    ensures Outside(old(tabr[..]), tabr[..], ro, l + h + 1) && tabr[ro + l + h] == 1
    ensures At(tabr, ro, l + h + 1) == xh * Pow(l) + (At(tabu, 2 * h - l, l) + At(tabu, 2 * h, h) * Pow(l))
  {
    hide Val;
    hide Pow;
    var k := 2 * h - l;
    ghost var up := tabr[ro + l..ro + l + h];
    AtSnoc(tabr, ro + l, h);
    ghost var x0 := At(tabr, ro + l, h);
    CopyLimbs(tabr, ro, tabu, k, l);
    assert tabr[ro + l..ro + l + h] == up;
    ghost var low := tabr[ro..ro + l];
    var c := MpAdd(tabr, ro + l, tabr, ro + l, tabu, 2 * h, h, 0);
    assert tabr[ro..ro + l] == low;
    AtBound(tabr, ro + l, h);
    AtBound(tabu, k, l);
    PowAdd(l, h);
    AddCorrectionArith(xh, x0, Pow(h), Pow(l), At(tabu, k, l), At(tabu, 2 * h, h), At(tabr, ro + l, h), c, 1);
    AtConcat(tabr, ro, l, h + 1);
    AtSnoc(tabr, ro + l, h);
  }

  // The reciprocal h limbs of which are at (tabr, ro + l) gains l more.
  method RecipRefine(tabr: array<Limb>, ro: nat, taba: array<Limb>, ao: nat, l: nat, h: nat)
    requires tabr != taba && 1 <= l < h && ro + l + h + 1 <= tabr.Length && ao + l + h <= taba.Length
    requires taba[ao + l + h - 1] >= HALF && RecipAt(tabr, ro + l, taba, ao + l, h)
    modifies tabr
    ensures Outside(old(tabr[..]), tabr[..], ro, l + h + 1) && RecipAt(tabr, ro, taba, ao, l + h)
  {
    hide Val;
    hide Pow;
    hide IsRecip;
    var n := l + h;
    var tabt, tabu := new Limb[n + h + 1], new Limb[n + 2 * h - l + 2];
    ghost var a, ah, al := At(taba, ao, n), At(taba, ao + l, h), At(taba, ao, l);
    AtConcat(taba, ao, l, h);
    AtBound(taba, ao, l);
    AtBound(taba, ao + l, h);
    AtBound(taba, ao, n);
    Normalized(taba, ao, n);
    MpMul(tabt, 0, taba, ao, n, tabr, ro + l, h + 1);
    PowAdd(h, h);
    PowAdd(h, n);
    PowAdd(l, h);
    AtBound(tabr, ro + l, h + 1);
    ghost var x0 := At(tabr, ro + l, h + 1);
    Miss(x0, ah, al, a, Pow(l), Pow(h), Pow(n + h));
    LowerGuess(tabr, ro + l, h, tabt, taba, ao, n);
    ghost var xh := At(tabr, ro + l, h + 1);
    TopIsOne(tabr, ro + l, h);
    MulStrict(0, xh, a);
    Complement(tabt, n + h);
    ghost var t := At(tabt, 0, n + h + 1);
    MpMul(tabu, 0, tabt, l, n + h + 1 - l, tabr, ro + l, h + 1);
    RefineValue(tabt, tabu, l, h, a, xh, t);
    AddCorrection(tabr, ro, tabu, l, h, xh);
    TopIsOne(tabr, ro, n);
  }

  lemma Miss(x: int, ah: int, al: int, a: int, l: int, h: int, p: int)
    requires a == al + ah * l && 0 <= al && 0 < l && 0 <= ah && 0 <= x && IsRecip(x, ah, h * h) && p == (h * h) * l
    ensures p - x * a < 2 * a
  {
    FirstMiss(x, ah, al, a, l, h * h);
  }

  // mp_recip: x * a < B^2n < (x + 2) * a, x having the top limb 1.
  method MpRecip(tabr: array<Limb>, ro: nat, taba: array<Limb>, ao: nat, n: nat)
    requires tabr != taba && n >= 1 && ro + n + 1 <= tabr.Length && ao + n <= taba.Length && taba[ao + n - 1] >= HALF
    modifies tabr
    ensures Outside(old(tabr[..]), tabr[..], ro, n + 1) && RecipAt(tabr, ro, taba, ao, n)
    decreases n
  {
    hide Val;
    hide RecipAt;
    if n <= 2 {
      RecipDirect(tabr, ro, taba, ao, n);
    } else {
      var l := (n - 1) / 2;
      var h := n - l;
      MpRecip(tabr, ro + l, taba, ao + l, h);
      RecipRefine(tabr, ro, taba, ao, l, h);
    }
  }
}
