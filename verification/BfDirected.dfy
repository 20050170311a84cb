// What a rounded number of quickjs/libbf.c is among the numbers there are: never on the wrong side of
// the exact value, with nothing representable in between, infinities included, and with the status
// that says so. All limits are given by their values.

module BfDirected {
  import opened Limbs
  import opened Bits
  import opened Rounding
  import opened BfRound
  import opened BfExact

  // ----- Order -----

  // a * 2^p <= b * 2^q
  ghost predicate LessEq(a: int, p: int, b: int, q: int) {
    if p >= q then a * Pow2(p - q) <= b else a <= b * Pow2(q - p)
  }

  // m * 2^q is at most the exact value, or at least.
  ghost predicate AtMost(m: int, q: int, x: Exact) {
    LessEq(m * x.den, q, x.num, x.e)
  }

  ghost predicate AtLeast(m: int, q: int, x: Exact) {
    LessEq(x.num, x.e, m * x.den, q)
  }

  ghost predicate IsZero(r: Num) {
    r.tab == [] && r.expn == BF_EXP_ZERO
  }

  ghost function Scale(r: Num): int {
    r.expn - LIMB_BITS * |r.tab|
  }

  // The magnitude of r is at most the one of x, or at least. Infinity is above everything.
  ghost predicate NotAbove(r: Num, x: Exact) {
    IsZero(r) || (r.tab != [] && AtMost(Val(r.tab), Scale(r), x))
  }

  ghost predicate NotBelow(r: Num, x: Exact) {
    IsInfinite(r) || (r.tab != [] && AtLeast(Val(r.tab), Scale(r), x))
  }

  // ----- The numbers there are -----

  // m * 2^q has at most prec bits and lies between the limits of the exponent: below 2^emax, and not
  // below 2^(emin - 1) unless subnormal numbers are allowed, which are the multiples of 2^(emin - prec).
  ghost predicate Fits(m: int, q: int, prec: nat, flags: Flags)
    requires flags.expBits >= 1
  {
    var range := Pow2(flags.expBits - 1);
    && 1 <= m < Pow2(prec) && !LessEq(1, range, m, q)
    && if flags.subnormal then q >= 3 - range - prec else LessEq(1, 2 - range, m, q)
  }

  // The precision is a number of bits of the mantissa, in the range the library asks for.
  predicate Standard(prec: nat, flags: Flags) {
    2 <= prec < 0x3fff_ffff_ffff_ffff && !flags.radpntPrec && flags.expBits >= 3
  }

  // The modes that never go away from zero, and those that never go toward it, for the sign.
  predicate Toward(sign: bool, mode: RndMode) {
    mode == RNDZ || (mode == RNDU && sign) || (mode == RNDD && !sign)
  }

  predicate Away(sign: bool, mode: RndMode) {
    mode == RNDA || (mode == RNDU && !sign) || (mode == RNDD && sign)
  }

  // Without subnormal numbers, what is below 2^(emin - 1) even after rounding away from zero is
  // replaced by zero in every mode. Multiples of 2^-prec are rounded to that unit instead.
  ghost predicate Tiny(x: Exact, prec: nat, flags: Flags)
    requires flags.expBits >= 1
  {
    var low := 2 - Pow2(flags.expBits - 1);
    var fixed := flags.radpntPrec && prec != 0x3fff_ffff_ffff_ffff;
    var unit := if fixed then -(prec as int) else low - prec;
    && !flags.subnormal && (fixed ==> AtMost(1, unit, x)) && unit <= low
    && AtLeast(Pow2(low - unit) - 1, unit, x)
  }

  // With infinite precision every overflow gives infinity.
  ghost predicate Unbounded(x: Exact, prec: nat, flags: Flags)
    requires flags.expBits >= 1
  {
    prec == 0x3fff_ffff_ffff_ffff && AtMost(1, Pow2(flags.expBits - 1), x)
  }

  // No number lies between the exact value and r.
  ghost predicate NextBelow(r: Num, x: Exact, prec: nat, flags: Flags)
    requires flags.expBits >= 1
  {
    forall m, q :: Fits(m, q, prec, flags) && AtMost(m, q, x) ==> r.tab != [] && LessEq(m, q, Val(r.tab), Scale(r))
  }

  ghost predicate NextAbove(r: Num, x: Exact, prec: nat, flags: Flags)
    requires flags.expBits >= 1
  {
    forall m, q :: Fits(m, q, prec, flags) && AtLeast(m, q, x) ==> r.tab != [] && LessEq(Val(r.tab), Scale(r), m, q)
  }

  ghost predicate TowardLaw(x: Exact, r: Num, prec: nat, flags: Flags)
    requires flags.expBits >= 1
  {
    (NotAbove(r, x) <==> !Unbounded(x, prec, flags)) && (Standard(prec, flags) ==> NextBelow(r, x, prec, flags))
  }

  ghost predicate AwayLaw(x: Exact, r: Num, prec: nat, flags: Flags)
    requires flags.expBits >= 1
  {
    && (NotBelow(r, x) <==> !Tiny(x, prec, flags))
    && (Standard(prec, flags) && !Tiny(x, prec, flags) ==> NextAbove(r, x, prec, flags))
  }

  // a * 2^p + b * 2^q, as a multiple of two to the smaller exponent.
  ghost function AddScaled(a: int, p: int, b: int, q: int): int {
    if p >= q then a * Pow2(p - q) + b else a + b * Pow2(q - p)
  }

  // x is on r's side of the middle between r and any other number; zero counts as a number.
  ghost predicate NearestTo(r: Num, x: Exact, prec: nat, flags: Flags)
    requires flags.expBits >= 1
  {
    forall m, q :: Fits(m, q, prec, flags) ==> Nearer(Val(r.tab), Scale(r), m, q, x)
  }

  ghost predicate Nearer(v: int, s: int, m: int, q: int, x: Exact) {
    var middle, e := AddScaled(v, s, m, q), (if s <= q then s else q) - 1;
    && (!LessEq(m, q, v, s) ==> AtLeast(middle, e, x))
    && (!LessEq(v, s, m, q) ==> AtMost(middle, e, x))
  }

  // Rounding to nearest gives infinity from half a unit below 2^emax on.
  ghost predicate NearestLaw(x: Exact, r: Num, prec: nat, flags: Flags)
    requires flags.expBits >= 1
  {
    Standard(prec, flags) ==>
      && (IsInfinite(r) <==> AtMost(Pow2(prec + 1) - 1, Pow2(flags.expBits - 1) - prec - 1, x))
      && (!IsInfinite(r) && (flags.subnormal || r.tab != []) ==> NearestTo(r, x, prec, flags))
  }

  // r is one of the numbers there are.
  ghost predicate IsOne(r: Num, prec: nat, flags: Flags)
    requires flags.expBits >= 1
  {
    IsZero(r) || IsInfinite(r) || exists m, q :: r.tab != [] && SameFit(r, m, q, prec, flags)
  }

  ghost predicate SameFit(r: Num, m: int, q: int, prec: nat, flags: Flags)
    requires flags.expBits >= 1
  {
    Fits(m, q, prec, flags) && SameValue(Val(r.tab), Scale(r), m, q)
  }

  // What r is to x in each mode.
  ghost predicate SideLaw(x: Exact, r: Num, prec: nat, flags: Flags)
    requires flags.expBits >= 1
  {
    && r.sign == x.sign && (Standard(prec, flags) ==> IsOne(r, prec, flags))
    && (Toward(x.sign, flags.mode) ==> TowardLaw(x, r, prec, flags))
    && (Away(x.sign, flags.mode) ==> AwayLaw(x, r, prec, flags))
    && (flags.mode == RNDN || flags.mode == RNDNA ==> NearestLaw(x, r, prec, flags))
  }

  // ----- The status -----

  ghost predicate HoldsExactly(r: Num, x: Exact) {
    r.tab != [] && AtMost(Val(r.tab), Scale(r), x) && AtLeast(Val(r.tab), Scale(r), x)
  }

  // r is below 2^(emin - 1).
  ghost predicate Small(r: Num, flags: Flags)
    requires flags.expBits >= 1
  {
    IsZero(r) || (r.tab != [] && !LessEq(1, 2 - Pow2(flags.expBits - 1), Val(r.tab), Scale(r)))
  }

  // INEXACT: the result is not the exact value, or it was known not to be. OVERFLOW: the exact value
  // is 2^emax or more, or the result is infinite. UNDERFLOW: the result is inexact and small.
  ghost predicate StatusLaw(x: Exact, r: Num, ret0: set<Status>, ret: set<Status>, prec: nat, flags: Flags)
    requires flags.expBits >= 1
  {
    flags.mode != RNDF && ret0 <= {INEXACT} && Standard(prec, flags) ==>
      && ret <= {INEXACT, OVERFLOW, UNDERFLOW}
      && (INEXACT in ret <==> INEXACT in ret0 || !HoldsExactly(r, x))
      && (OVERFLOW in ret <==> IsInfinite(r) || AtMost(1, Pow2(flags.expBits - 1), x))
      && (UNDERFLOW in ret <==> INEXACT in ret && Small(r, flags))
  }

  // ----- Scaling -----

  lemma LessEqAt(a: int, p: int, b: int, q: int, k: int)
    requires k <= p && k <= q
    ensures LessEq(a, p, b, q) <==> a * Pow2(p - k) <= b * Pow2(q - k)
  {
    hide Pow2;
    if p >= q {
      Pow2Add(p - q, q - k);
      Shrink(a, Pow2(p - q), b, Pow2(q - k));
    } else {
      Pow2Add(q - p, p - k);
      Shrink(b, Pow2(q - p), a, Pow2(p - k));
    }
  }

  lemma Shrink(a: int, p: int, b: int, s: int)
    requires s > 0
    ensures a * p <= b <==> a * (p * s) <= b * s
    ensures b <= a * p <==> b * s <= a * (p * s)
  {
    assert a * (p * s) == (a * p) * s;
    if a * p < b {
      MulStrict(a * p, b, s);
    } else if b < a * p {
      MulStrict(b, a * p, s);
    }
  }

  lemma LessTrans(a: int, p: int, b: int, q: int, c: int, r: int)
    requires LessEq(a, p, b, q) && LessEq(b, q, c, r)
    ensures LessEq(a, p, c, r)
  {
    hide Pow2;
    hide LessEq;
    var k := if p <= q && p <= r then p else if q <= r then q else r;
    LessEqAt(a, p, b, q, k);
    LessEqAt(b, q, c, r, k);
    LessEqAt(a, p, c, r, k);
  }

  // One of two values is at most the other.
  lemma LessTotal(a: int, p: int, b: int, q: int)
    ensures LessEq(a, p, b, q) || LessEq(b, q, a, p)
  {
    hide Pow2;
    hide LessEq;
    var k := if p <= q then p else q;
    LessEqAt(a, p, b, q, k);
    LessEqAt(b, q, a, p, k);
  }

  lemma SameLess(a: int, p: int, b: int, q: int)
    ensures SameValue(a, p, b, q) <==> LessEq(a, p, b, q) && LessEq(b, q, a, p)
  {
    hide Pow2;
    hide LessEq;
    hide SameValue;
    var k := if p <= q then p else q;
    LessEqAt(a, p, b, q, k);
    LessEqAt(b, q, a, p, k);
    SameAt(a, p, b, q, k);
  }

  lemma LessTimes(a: int, p: int, b: int, q: int, d: int)
    requires d > 0
    ensures LessEq(a, p, b, q) <==> LessEq(a * d, p, b * d, q)
  {
    hide Pow2;
    hide LessEq;
    var k := if p <= q then p else q;
    var s, t := Pow2(p - k), Pow2(q - k);
    LessEqAt(a, p, b, q, k);
    LessEqAt(a * d, p, b * d, q, k);
    assert (a * d) * s == (a * s) * d && (b * d) * t == (b * t) * d;
    if a * s <= b * t {
      MulMono(a * s, b * t, d);
    } else {
      MulStrict(b * t, a * s, d);
    }
  }

  // Values between m * 2^q and x.
  lemma AtMostTrans(a: int, p: int, m: int, q: int, x: Exact)
    requires x.den > 0 && LessEq(a, p, m, q) && AtMost(m, q, x)
    ensures AtMost(a, p, x)
  {
    hide LessEq;
    LessTimes(a, p, m, q, x.den);
    LessTrans(a * x.den, p, m * x.den, q, x.num, x.e);
  }

  lemma AtLeastTrans(a: int, p: int, m: int, q: int, x: Exact)
    requires x.den > 0 && LessEq(m, q, a, p) && AtLeast(m, q, x)
    ensures AtLeast(a, p, x)
  {
    hide LessEq;
    LessTimes(m, q, a, p, x.den);
    LessTrans(x.num, x.e, m * x.den, q, a * x.den, p);
  }

  lemma Across(a: int, p: int, m: int, q: int, x: Exact)
    requires x.den > 0 && AtMost(a, p, x) && AtLeast(m, q, x)
    ensures LessEq(a, p, m, q)
  {
    hide LessEq;
    LessTrans(a * x.den, p, x.num, x.e, m * x.den, q);
    LessTimes(a, p, m, q, x.den);
  }

  lemma AtTotal(m: int, q: int, x: Exact)
    ensures AtMost(m, q, x) || AtLeast(m, q, x)
  {
    hide LessEq;
    LessTotal(m * x.den, q, x.num, x.e);
  }

  lemma SameSides(a: int, p: int, m: int, q: int, x: Exact)
    requires x.den > 0 && SameValue(a, p, m, q)
    ensures AtMost(a, p, x) <==> AtMost(m, q, x)
    ensures AtLeast(a, p, x) <==> AtLeast(m, q, x)
  {
    hide LessEq;
    hide SameValue;
    SameLess(a, p, m, q);
    if AtMost(a, p, x) {
      AtMostTrans(m, q, a, p, x);
    }
    if AtMost(m, q, x) {
      AtMostTrans(a, p, m, q, x);
    }
    if AtLeast(a, p, x) {
      AtLeastTrans(m, q, a, p, x);
    }
    if AtLeast(m, q, x) {
      AtLeastTrans(a, p, m, q, x);
    }
  }

  // ----- The exact value in units of the last place -----

  lemma InUnits(x: Exact, prec: int, m: int)
    requires Valid(x)
    ensures AtMost(m, Expn(x) - prec, x) <==> m * Bottom(x, prec) <= Top(x, prec)
    ensures AtLeast(m, Expn(x) - prec, x) <==> Top(x, prec) <= m * Bottom(x, prec)
  {
    var w := Width(x);
    hide Width;
    assert Pow2(0) == 1;
    assert m * (x.den * Pow2(Max0(w - prec))) == (m * x.den) * Pow2(Max0(w - prec));
  }

  lemma PowerAt(x: Exact, k: nat)
    ensures AtMost(1, x.e + k, x) <==> Pow2(k) * x.den <= x.num
  {
    hide Pow2;
    assert 1 * x.den == x.den;
    assert x.den * Pow2(k) == Pow2(k) * x.den;
  }

  // 2^(Expn - 1) <= x < 2^Expn
  lemma ExpnIs(x: Exact)
    requires Valid(x)
    ensures AtMost(1, Expn(x) - 1, x) && !AtMost(1, Expn(x), x)
  {
    WidthBounds(x);
    PowerAt(x, Width(x) - 1);
    PowerAt(x, Width(x));
    hide Pow2;
    hide Width;
    hide AtMost;
  }

  lemma PowerOrder(p: int, q: int)
    ensures LessEq(1, p, 1, q) <==> p <= q
  {
    assert Pow2(0) == 1;
    if p > q {
      Pow2Less(p - q);
    }
  }

  lemma Pow2Less(k: nat)
    requires k > 0
    ensures Pow2(k) >= 2
  {
  }

  // x lies below 2^p exactly from its exponent on.
  lemma BelowPower(x: Exact, p: int)
    requires Valid(x)
    ensures AtMost(1, p, x) <==> p < Expn(x)
  {
    ExpnIs(x);
    hide LessEq;
    hide Expn;
    if p < Expn(x) {
      PowerOrder(p, Expn(x) - 1);
      AtMostTrans(1, p, 1, Expn(x) - 1, x);
    } else if AtMost(1, p, x) {
      PowerOrder(Expn(x), p);
      AtMostTrans(1, Expn(x), 1, p, x);
    }
  }

  // The units, rounded toward zero or away from it.
  lemma UnitsToward(x: Exact, prec: int, mode: RndMode, k: int)
    requires Valid(x) && Toward(x.sign, mode)
    ensures AtMost(k, Expn(x) - prec, x) <==> k <= Ulps(x, prec, mode)
  {
    InUnits(x, prec, k);
    FloorIs(k, Top(x, prec), Bottom(x, prec));
  }

  lemma UnitsAway(x: Exact, prec: int, mode: RndMode, k: int)
    requires Valid(x) && Away(x.sign, mode)
    ensures AtLeast(k, Expn(x) - prec, x) <==> Ulps(x, prec, mode) <= k
  {
    InUnits(x, prec, k);
    CeilIs(k, Top(x, prec), Bottom(x, prec));
  }

  // A multiple of 2^g.
  lemma OnGrid(m: int, q: int, g: int) returns (k: int)
    requires q >= g
    ensures SameValue(k, g, m, q) && LessEq(m, q, k, g) && LessEq(k, g, m, q)
  {
    k := m * Pow2(q - g);
    SameLess(k, g, m, q);
    hide LessEq;
    hide Pow2;
  }

  lemma Integers(a: int, b: int, g: int)
    ensures LessEq(a, g, b, g) <==> a <= b
  {
    assert Pow2(0) == 1;
  }

  // With fewer than prec bits from 2^q on, a number stays below 2^(prec + q).
  lemma ShortBelow(m: int, q: int, prec: nat, p: int)
    requires m < Pow2(prec) && prec + q <= p
    ensures LessEq(m, q, 1, p) && !LessEq(1, p, m, q)
  {
    assert Pow2(0) == 1;
    Pow2Mono(prec, p - q);
    hide Pow2;
  }

  lemma PowerSame(k: nat, g: int)
    ensures SameValue(Pow2(k), g, 1, g + k)
  {
  }

  // The effective precision, in the range of normal numbers and below it.
  lemma StandardPrec(expn: int, prec: nat, flags: Flags)
    requires Standard(prec, flags)
    ensures EMax(flags) == Pow2(flags.expBits - 1) && EMin(flags) == 3 - Pow2(flags.expBits - 1)
    ensures EMin(flags) < 0 < EMax(flags)
    ensures var p := EffectivePrec(expn, prec, flags);
      p == if expn < EMin(flags) && flags.subnormal then prec - (EMin(flags) - expn) else prec
  {
    Pow2Mono(2, flags.expBits - 1);
    assert Pow2(2) == 4;
  }

  // ----- Toward zero -----

  // A number that fits and is at most x is at most x in units of the last place, rounded down.
  lemma GridToward(x: Exact, prec: nat, flags: Flags, m: int, q: int)
    requires Valid(x) && Standard(prec, flags) && Toward(x.sign, flags.mode) && Fits(m, q, prec, flags)
    requires AtMost(m, q, x)
    ensures var p := EffectivePrec(Expn(x), prec, flags);
      p > 0 ==> LessEq(m, q, Ulps(x, p, flags.mode), Expn(x) - p)
  {
    StandardPrec(Expn(x), prec, flags);
    var p := EffectivePrec(Expn(x), prec, flags);
    var g, u := Expn(x) - p, Ulps(x, p, flags.mode);
    ExpnIs(x);
    hide LessEq;
    hide Pow2;
    hide Ulps;
    hide Expn;
    hide SameValue;
    if p > 0 {
      if q >= g {
        var k := OnGrid(m, q, g);
        SameSides(k, g, m, q, x);
        UnitsToward(x, p, flags.mode, k);
        Integers(k, u, g);
        LessTrans(m, q, k, g, u, g);
      } else {
        ShortBelow(m, q, prec, Expn(x) - 1);
        PowerSame(p - 1, g);
        SameSides(Pow2(p - 1), g, 1, Expn(x) - 1, x);
        SameLess(Pow2(p - 1), g, 1, Expn(x) - 1);
        UnitsToward(x, p, flags.mode, Pow2(p - 1));
        Integers(Pow2(p - 1), u, g);
        LessTrans(1, Expn(x) - 1, Pow2(p - 1), g, u, g);
        LessTrans(m, q, 1, Expn(x) - 1, u, g);
      }
    }
  }

  // Below the smallest number there is none.
  lemma NoneSmaller(x: Exact, prec: nat, flags: Flags, m: int, q: int)
    requires Valid(x) && Standard(prec, flags) && Fits(m, q, prec, flags) && AtMost(m, q, x)
    ensures EffectivePrec(Expn(x), prec, flags) > 0 && (Expn(x) >= EMin(flags) || flags.subnormal)
  {
    StandardPrec(Expn(x), prec, flags);
    var low := if flags.subnormal then EMin(flags) - prec else EMin(flags) - 1;
    assert LessEq(1, low, m, q) by {
      if flags.subnormal {
        PowerOrder(low, q);
        assert Pow2(0) == 1;
        assert LessEq(1, q, m, q);
        hide LessEq;
        LessTrans(1, low, 1, q, m, q);
      }
    }
    hide LessEq;
    AtMostTrans(1, low, m, q, x);
    BelowPower(x, low);
  }

  // Below 2^emax nothing with prec bits is above the largest number.
  lemma BelowTop(m: int, q: int, prec: nat, emax: int)
    requires 1 <= m < Pow2(prec) && !LessEq(1, emax, m, q)
    ensures LessEq(m, q, Pow2(prec) - 1, emax - prec)
  {
    var g := emax - prec;
    if q >= g {
      var k := OnGrid(m, q, g);
      PowerSame(prec, g);
      SameLess(Pow2(prec), g, 1, emax);
      Integers(k, Pow2(prec) - 1, g);
      Integers(Pow2(prec), k, g);
      hide LessEq;
      hide Pow2;
      if k >= Pow2(prec) {
        LessTrans(1, emax, Pow2(prec), g, k, g);
        LessTrans(1, emax, k, g, m, q);
      }
      LessTrans(m, q, k, g, Pow2(prec) - 1, g);
    } else {
      PowerOrder(q, g);
      Integers(m, Pow2(prec) - 1, q);
      hide Pow2;
      var c := Pow2(prec) - 1;
      LessTimes(1, q, 1, g, c);
      hide LessEq;
      LessTrans(m, q, c, q, c, g);
    }
  }

  // What the largest number is.
  lemma LargestIs(r: Num, prec: nat, emax: int)
    requires IsLargest(r, prec, emax) && prec >= 1
    ensures r.tab != [] && SameValue(Val(r.tab), Scale(r), Pow2(prec) - 1, emax - prec)
    ensures LessEq(Val(r.tab), Scale(r), 1, emax)
  {
    hide Val;
    hide Pow;
    hide Pow2;
    var l := |r.tab|;
    var low: nat := LIMB_BITS * l - prec;
    PowPow2(l);
    LargestUnits(Val(r.tab), prec, low, emax);
  }

  lemma LargestUnits(v: int, prec: nat, low: nat, emax: int)
    requires v + Pow2(low) == Pow2(prec + low)
    ensures SameValue(v, emax - (prec + low), Pow2(prec) - 1, emax - prec)
    ensures LessEq(v, emax - (prec + low), 1, emax)
  {
    Pow2Add(prec, low);
    assert Pow2(0) == 1;
    hide Pow2;
    assert (Pow2(prec) - 1) * Pow2(low) == Pow2(prec) * Pow2(low) - Pow2(low);
  }

  // ----- The cases of rounding -----

  // The exponent range is left below, where there are no subnormal numbers, or above.
  ghost predicate Flushes(x: Exact, prec: nat, flags: Flags)
    requires flags.expBits >= 1 && Valid(x)
  {
    EffectivePrec(Expn(x), prec, flags) > 0 && !flags.subnormal && RoundedExpn(x, prec, flags) < EMin(flags)
  }

  ghost predicate Overflows(x: Exact, prec: nat, flags: Flags)
    requires flags.expBits >= 1 && Valid(x)
  {
    && EffectivePrec(Expn(x), prec, flags) > 0 && RoundedExpn(x, prec, flags) > EMax(flags)
    && (flags.subnormal || RoundedExpn(x, prec, flags) >= EMin(flags))
  }

  // r is a number of units, or nothing.
  ghost predicate UnitsOrZero(r: Num, u: int, g: int) {
    if u == 0 then IsZero(r) else r.tab != [] && SameValue(Val(r.tab), Scale(r), u, g)
  }

  lemma RoundingCases(x: Exact, r: Num, ret0: set<Status>, ret: set<Status>, prec: nat, flags: Flags)
    requires flags.expBits >= 1 && Valid(x) && RoundsTo(x, r, ret0, ret, prec, flags) && HasRoom(x, prec, flags)
    ensures r.sign == x.sign
    ensures Flushes(x, prec, flags) ==> IsZero(r)
    ensures Overflows(x, prec, flags) ==>
              if OverflowsToInfinity(x.sign, prec, flags.mode) then IsInfinite(r)
              else prec >= 1 && IsLargest(r, prec, EMax(flags))
    ensures !Flushes(x, prec, flags) && !Overflows(x, prec, flags) ==>
              var p := EffectivePrec(Expn(x), prec, flags);
              UnitsOrZero(r, Ulps(x, p, flags.mode), Expn(x) - p)
  {
    hide Val;
    hide Pow2;
    hide Ulps;
    hide Inexact;
    hide SameValue;
    hide IsLargest;
    hide OverflowsToInfinity;
    hide EMin;
    hide EMax;
    hide EffectivePrec;
    hide Expn;
    var p := EffectivePrec(Expn(x), prec, flags);
    var u := Ulps(x, p, flags.mode);
    if p > 0 && u == 0 {
      SomeUnits(x, p, flags.mode);
    }
    if IsUnits(r, u, Expn(x) - p) {
      UnitsNotZero(r, u, Expn(x) - p);
    }
  }

  // With a bit to keep there are units.
  lemma SomeUnits(x: Exact, prec: int, mode: RndMode)
    requires Valid(x) && prec > 0
    ensures Ulps(x, prec, mode) >= 1
  {
    ExpnIs(x);
    PowerSame(prec - 1, Expn(x) - prec);
    SameSides(Pow2(prec - 1), Expn(x) - prec, 1, Expn(x) - 1, x);
    InUnits(x, prec, Pow2(prec - 1));
    FloorIs(Pow2(prec - 1), Top(x, prec), Bottom(x, prec));
    PowAbove(prec - 1);
  }

  lemma PowAbove(k: nat)
    ensures Pow2(k) >= 1
  {
  }

  lemma UnitsNotZero(r: Num, u: int, g: int)
    requires IsUnits(r, u, g)
    ensures u != 0
  {
    hide Val;
    NormalRange(r.tab);
    PowAbove(LIMB_BITS * |r.tab| - 1);
  }

  // ----- Modes that never go away from zero -----

  lemma TowardNotAbove(x: Exact, r: Num, ret0: set<Status>, ret: set<Status>, prec: nat, flags: Flags)
    requires flags.expBits >= 1 && Valid(x) && RoundsTo(x, r, ret0, ret, prec, flags) && HasRoom(x, prec, flags)
    requires flags.subnormal && !flags.radpntPrec ==> prec != BF_PREC_INF
    requires Toward(x.sign, flags.mode)
    ensures NotAbove(r, x) <==> !Unbounded(x, prec, flags)
  {
    RoundingCases(x, r, ret0, ret, prec, flags);
    hide RoundsTo;
    hide HasRoom;
    var p := EffectivePrec(Expn(x), prec, flags);
    var u, g := Ulps(x, p, flags.mode), Expn(x) - p;
    BelowPower(x, EMax(flags));
    TowardExpn(x, prec, flags);
    UnitsToward(x, p, flags.mode, u);
    hide AtMost;
    hide Ulps;
    hide Expn;
    hide Val;
    PowAbove(flags.expBits - 1);
    if Overflows(x, prec, flags) {
      if !OverflowsToInfinity(x.sign, prec, flags.mode) {
        LargestIs(r, prec, EMax(flags));
        AtMostTrans(Val(r.tab), Scale(r), 1, EMax(flags), x);
      }
    } else if r.tab != [] {
      SameSides(Val(r.tab), Scale(r), u, g, x);
    }
  }

  // Rounding toward zero does not carry.
  lemma TowardExpn(x: Exact, prec: nat, flags: Flags)
    requires flags.expBits >= 1 && Valid(x) && Toward(x.sign, flags.mode)
    ensures RoundedExpn(x, prec, flags) == Expn(x)
  {
    var p := EffectivePrec(Expn(x), prec, flags);
    if p > 0 {
      UnitsToward(x, p, flags.mode, Pow2(p));
      PowerSame(p, Expn(x) - p);
      SameSides(Pow2(p), Expn(x) - p, 1, Expn(x), x);
      ExpnIs(x);
      hide AtMost;
      hide AtLeast;
      hide Ulps;
      hide Expn;
    }
  }

  lemma TowardNext(x: Exact, r: Num, ret0: set<Status>, ret: set<Status>, prec: nat, flags: Flags, m: int, q: int)
    requires flags.expBits >= 1 && Valid(x) && RoundsTo(x, r, ret0, ret, prec, flags) && HasRoom(x, prec, flags)
    requires Toward(x.sign, flags.mode) && Standard(prec, flags) && Fits(m, q, prec, flags) && AtMost(m, q, x)
    ensures r.tab != [] && LessEq(m, q, Val(r.tab), Scale(r))
  {
    RoundingCases(x, r, ret0, ret, prec, flags);
    hide RoundsTo;
    hide HasRoom;
    var p := EffectivePrec(Expn(x), prec, flags);
    var u, g := Ulps(x, p, flags.mode), Expn(x) - p;
    NoneSmaller(x, prec, flags, m, q);
    GridToward(x, prec, flags, m, q);
    TowardExpn(x, prec, flags);
    SomeUnits(x, p, flags.mode);
    hide AtMost;
    hide Ulps;
    hide Expn;
    hide Val;
    hide EffectivePrec;
    if Overflows(x, prec, flags) {
      LargestIs(r, prec, EMax(flags));
      BelowTop(m, q, prec, EMax(flags));
      SameLess(Val(r.tab), Scale(r), Pow2(prec) - 1, EMax(flags) - prec);
      hide LessEq;
      LessTrans(m, q, Pow2(prec) - 1, EMax(flags) - prec, Val(r.tab), Scale(r));
    } else {
      SameLess(Val(r.tab), Scale(r), u, g);
      hide LessEq;
      LessTrans(m, q, u, g, Val(r.tab), Scale(r));
    }
  }

  lemma TowardIs(x: Exact, r: Num, ret0: set<Status>, ret: set<Status>, prec: nat, flags: Flags)
    requires flags.expBits >= 1 && Valid(x) && RoundsTo(x, r, ret0, ret, prec, flags) && HasRoom(x, prec, flags)
    requires flags.subnormal && !flags.radpntPrec ==> prec != BF_PREC_INF
    requires Toward(x.sign, flags.mode)
    ensures TowardLaw(x, r, prec, flags)
  {
    TowardNotAbove(x, r, ret0, ret, prec, flags);
    hide RoundsTo;
    hide HasRoom;
    hide AtMost;
    hide LessEq;
    hide Val;
    hide NotAbove;
    hide Unbounded;
    if Standard(prec, flags) {
      forall m, q | Fits(m, q, prec, flags) && AtMost(m, q, x)
        ensures r.tab != [] && LessEq(m, q, Val(r.tab), Scale(r))
      {
        TowardNext(x, r, ret0, ret, prec, flags, m, q);
      }
    }
  }

  // ----- Modes that never go toward zero -----

  // Tiny is what is flushed.
  lemma TinyIs(x: Exact, prec: nat, flags: Flags)
    requires flags.expBits >= 1 && Valid(x) && Away(x.sign, flags.mode)
    ensures Tiny(x, prec, flags) <==> Flushes(x, prec, flags)
  {
    if !flags.subnormal {
      if flags.radpntPrec && prec != BF_PREC_INF {
        TinyFixed(x, prec, flags);
      } else {
        TinyFloat(x, prec, flags);
      }
    }
  }

  lemma TinyFloat(x: Exact, prec: nat, flags: Flags)
    requires flags.expBits >= 1 && Valid(x) && Away(x.sign, flags.mode) && !flags.subnormal
    requires !flags.radpntPrec || prec == BF_PREC_INF
    ensures Tiny(x, prec, flags) <==> Flushes(x, prec, flags)
  {
    var low := 2 - Pow2(flags.expBits - 1);
    assert EffectivePrec(Expn(x), prec, flags) == prec && EMin(flags) == low + 1;
    if prec > 0 {
      BelowUnits(x, low, low - prec, flags.mode);
      AwayCarry(x, prec, flags.mode);
    } else {
      NothingBelow(x, low);
    }
    hide AtMost;
    hide AtLeast;
    hide Ulps;
    hide Expn;
    hide Pow2;
    hide EMin;
    hide EffectivePrec;
  }

  lemma TinyFixed(x: Exact, prec: nat, flags: Flags)
    requires flags.expBits >= 1 && Valid(x) && Away(x.sign, flags.mode) && !flags.subnormal
    requires flags.radpntPrec && prec != BF_PREC_INF
    ensures Tiny(x, prec, flags) <==> Flushes(x, prec, flags)
  {
    var low := 2 - Pow2(flags.expBits - 1);
    var unit := -(prec as int);
    assert EffectivePrec(Expn(x), prec, flags) == Expn(x) + prec && EMin(flags) == low + 1;
    BelowPower(x, unit);
    AwayCarry(x, Expn(x) + prec, flags.mode);
    if unit < low {
      BelowUnits(x, low, unit, flags.mode);
    } else if unit == low {
      NothingBelow(x, unit);
    }
    hide AtMost;
    hide AtLeast;
    hide Ulps;
    hide Expn;
    hide Pow2;
    hide EMin;
    hide EffectivePrec;
  }

  lemma NothingBelow(x: Exact, unit: int)
    requires Valid(x)
    ensures !AtLeast(Pow2(0) - 1, unit, x)
  {
    assert Pow2(0) == 1;
    PowAbove(if unit >= x.e then unit - x.e else x.e - unit);
    assert 0 * x.den == 0;
  }

  // x is at most 2^low less a unit exactly if it is below 2^(low - 1), or rounds to fewer units.
  lemma BelowUnits(x: Exact, low: int, unit: int, mode: RndMode)
    requires Valid(x) && Away(x.sign, mode) && unit < low
    ensures AtLeast(Pow2(low - unit) - 1, unit, x) <==>
            Expn(x) < low || (Expn(x) == low && Ulps(x, low - unit, mode) < Pow2(low - unit))
  {
    var n, c := low - unit, Pow2(low - unit) - 1;
    if Expn(x) == low {
      UnitsAway(x, n, mode, c);
    } else if Expn(x) < low {
      BelowPower(x, low - 1);
      AtTotal(1, low - 1, x);
      PowerSame(n - 1, unit);
      SameLess(Pow2(n - 1), unit, 1, low - 1);
      assert Pow2(n) == 2 * Pow2(n - 1);
      PowAbove(n - 1);
      hide Pow2;
      Integers(Pow2(n - 1), c, unit);
      hide LessEq;
      LessTrans(1, low - 1, Pow2(n - 1), unit, c, unit);
      AtLeastTrans(c, unit, 1, low - 1, x);
    } else {
      BelowPower(x, low);
      PowerSame(n, unit);
      SameLess(Pow2(n), unit, 1, low);
      Integers(Pow2(n), c, unit);
      hide LessEq;
      if AtLeast(c, unit, x) {
        Across(1, low, c, unit, x);
        LessTrans(Pow2(n), unit, 1, low, c, unit);
      }
    }
  }

  // Rounding away from zero gives at most one unit more than fits.
  lemma AwayCarry(x: Exact, p: int, mode: RndMode)
    requires Valid(x) && Away(x.sign, mode)
    ensures p > 0 ==> Ulps(x, p, mode) <= Pow2(p)
  {
    if p > 0 {
      UnitsAway(x, p, mode, Pow2(p));
      PowerSame(p, Expn(x) - p);
      SameSides(Pow2(p), Expn(x) - p, 1, Expn(x), x);
      ExpnIs(x);
      AtTotal(1, Expn(x), x);
      hide AtMost;
      hide AtLeast;
      hide Ulps;
    }
  }

  lemma AwayNotBelow(x: Exact, r: Num, ret0: set<Status>, ret: set<Status>, prec: nat, flags: Flags)
    requires flags.expBits >= 1 && Valid(x) && RoundsTo(x, r, ret0, ret, prec, flags) && HasRoom(x, prec, flags)
    requires Away(x.sign, flags.mode)
    ensures NotBelow(r, x) <==> !Tiny(x, prec, flags)
  {
    RoundingCases(x, r, ret0, ret, prec, flags);
    hide RoundsTo;
    hide HasRoom;
    TinyIs(x, prec, flags);
    hide Tiny;
    var p := EffectivePrec(Expn(x), prec, flags);
    var u, g := Ulps(x, p, flags.mode), Expn(x) - p;
    UnitsAway(x, p, flags.mode, u);
    UnitsAway(x, p, flags.mode, 0);
    NotBelowZero(x, g);
    hide AtLeast;
    hide Ulps;
    hide Expn;
    hide Val;
    hide EffectivePrec;
    hide EMin;
    hide EMax;
    hide RoundedExpn;
    if r.tab != [] && !Flushes(x, prec, flags) && !Overflows(x, prec, flags) {
      SameSides(Val(r.tab), Scale(r), u, g, x);
    }
  }

  lemma NotBelowZero(x: Exact, g: int)
    requires Valid(x)
    ensures !AtLeast(0, g, x)
  {
    assert Pow2(0) == 1;
    NothingBelow(x, g);
  }

  // A number that fits and is at least x is at least x in units of the last place, rounded up.
  lemma GridAway(x: Exact, prec: nat, flags: Flags, m: int, q: int)
    requires Valid(x) && Standard(prec, flags) && Away(x.sign, flags.mode) && Fits(m, q, prec, flags)
    requires AtLeast(m, q, x)
    ensures var p := EffectivePrec(Expn(x), prec, flags);
      LessEq(Ulps(x, p, flags.mode), Expn(x) - p, m, q)
  {
    StandardPrec(Expn(x), prec, flags);
    var p := EffectivePrec(Expn(x), prec, flags);
    var g, u := Expn(x) - p, Ulps(x, p, flags.mode);
    ExpnIs(x);
    hide LessEq;
    hide Pow2;
    hide Ulps;
    hide Expn;
    hide SameValue;
    if q >= g {
      var k := OnGrid(m, q, g);
      SameSides(k, g, m, q, x);
      UnitsAway(x, p, flags.mode, k);
      Integers(u, k, g);
      LessTrans(u, g, k, g, m, q);
    } else {
      Across(1, Expn(x) - 1, m, q, x);
      ShortBelow(m, q, prec, Expn(x) - 1);
    }
  }

  // After an overflow nothing that fits is large enough.
  lemma NoneLarger(x: Exact, prec: nat, flags: Flags, m: int, q: int)
    requires Valid(x) && Standard(prec, flags) && Away(x.sign, flags.mode) && Fits(m, q, prec, flags)
    requires AtLeast(m, q, x)
    ensures !Overflows(x, prec, flags)
  {
    var p := EffectivePrec(Expn(x), prec, flags);
    var u, g := Ulps(x, p, flags.mode), Expn(x) - p;
    var emax := EMax(flags);
    GridAway(x, prec, flags, m, q);
    BelowPower(x, emax);
    if Overflows(x, prec, flags) {
      if Expn(x) > emax {
        hide LessEq;
        Across(1, emax, m, q, x);
      } else {
        assert Expn(x) == emax && u == Pow2(p);
        PowerSame(p, g);
        SameLess(u, g, 1, emax);
        hide LessEq;
        LessTrans(1, emax, u, g, m, q);
      }
    }
  }

  lemma AwayNext(x: Exact, r: Num, ret0: set<Status>, ret: set<Status>, prec: nat, flags: Flags, m: int, q: int)
    requires flags.expBits >= 1 && Valid(x) && RoundsTo(x, r, ret0, ret, prec, flags) && HasRoom(x, prec, flags)
    requires Away(x.sign, flags.mode) && Standard(prec, flags) && !Tiny(x, prec, flags)
    requires Fits(m, q, prec, flags) && AtLeast(m, q, x)
    ensures r.tab != [] && LessEq(Val(r.tab), Scale(r), m, q)
  {
    RoundingCases(x, r, ret0, ret, prec, flags);
    hide RoundsTo;
    hide HasRoom;
    TinyIs(x, prec, flags);
    hide Tiny;
    var p := EffectivePrec(Expn(x), prec, flags);
    var u, g := Ulps(x, p, flags.mode), Expn(x) - p;
    GridAway(x, prec, flags, m, q);
    NoneLarger(x, prec, flags, m, q);
    UnitsAway(x, p, flags.mode, 0);
    NotBelowZero(x, g);
    hide AtLeast;
    hide Ulps;
    hide Expn;
    hide Val;
    hide EffectivePrec;
    hide EMin;
    hide EMax;
    hide RoundedExpn;
    hide Fits;
    SameLess(Val(r.tab), Scale(r), u, g);
    hide LessEq;
    LessTrans(Val(r.tab), Scale(r), u, g, m, q);
  }

  lemma AwayIs(x: Exact, r: Num, ret0: set<Status>, ret: set<Status>, prec: nat, flags: Flags)
    requires flags.expBits >= 1 && Valid(x) && RoundsTo(x, r, ret0, ret, prec, flags) && HasRoom(x, prec, flags)
    requires Away(x.sign, flags.mode)
    ensures AwayLaw(x, r, prec, flags)
  {
    AwayNotBelow(x, r, ret0, ret, prec, flags);
    hide RoundsTo;
    hide HasRoom;
    hide AtLeast;
    hide LessEq;
    hide Val;
    hide NotBelow;
    hide Tiny;
    if Standard(prec, flags) && !Tiny(x, prec, flags) {
      forall m, q | Fits(m, q, prec, flags) && AtLeast(m, q, x)
        ensures r.tab != [] && LessEq(Val(r.tab), Scale(r), m, q)
      {
        AwayNext(x, r, ret0, ret, prec, flags, m, q);
      }
    }
  }

  // ----- Rounding to nearest -----

  // An even number of units is reached from half a unit below on.
  lemma UnitsNearest(x: Exact, prec: int, mode: RndMode, k: int)
    requires Valid(x) && (mode == RNDN || mode == RNDNA) && k % 2 == 0
    ensures AtMost(2 * k - 1, Expn(x) - prec - 1, x) <==> k <= Ulps(x, prec, mode)
  {
    InUnits(x, prec + 1, 2 * k - 1);
    HalfUnits(x, prec, 2 * k - 1);
    NearestUp(Top(x, prec), Bottom(x, prec), k, x.sign, mode);
  }

  lemma HalfUnits(x: Exact, prec: int, n: int)
    requires Valid(x)
    ensures n * Bottom(x, prec + 1) <= Top(x, prec + 1) <==> n * Bottom(x, prec) <= 2 * Top(x, prec)
    ensures Top(x, prec + 1) <= n * Bottom(x, prec + 1) <==> 2 * Top(x, prec) <= n * Bottom(x, prec)
  {
    HalvedUnit(x, prec);
    var b, c := Bottom(x, prec), Bottom(x, prec + 1);
    hide Bottom;
    hide Top;
    if b == 2 * c {
      assert n * (2 * c) == 2 * (n * c);
    }
  }

  lemma HalvedUnit(x: Exact, prec: int)
    requires Valid(x)
    ensures || (Bottom(x, prec) == 2 * Bottom(x, prec + 1) && Top(x, prec) == Top(x, prec + 1))
            || (Bottom(x, prec) == Bottom(x, prec + 1) && Top(x, prec + 1) == 2 * Top(x, prec))
  {
    var w := Width(x);
    hide Width;
    if prec < w {
      Doubled(x.den, w - prec - 1);
    } else {
      Doubled(x.num, prec - w);
    }
    hide Pow2;
  }

  lemma Doubled(a: int, k: nat)
    ensures a * Pow2(k + 1) == 2 * (a * Pow2(k))
  {
    var p := Pow2(k);
    assert Pow2(k + 1) == 2 * p;
    hide Pow2;
    assert a * (2 * p) == 2 * (a * p);
  }

  lemma NearestUp(num: int, den: int, k: int, neg: bool, mode: RndMode)
    requires den > 0 && (mode == RNDN || mode == RNDNA) && k % 2 == 0
    ensures (2 * k - 1) * den <= 2 * num <==> k <= RoundQ(num, den, neg, mode)
  {
    var q, rem := num / den, num % den;
    assert num == q * den + rem;
    assert (2 * k - 1) * den == 2 * (k * den) - den;
    if k <= q {
      MulMono(k, q, den);
    } else if k == q + 1 {
      assert k * den == q * den + den;
    } else {
      MulMono(q + 2, k, den);
      assert (q + 2) * den == q * den + 2 * den;
    }
  }

  lemma NearestIsInfinite(x: Exact, r: Num, ret0: set<Status>, ret: set<Status>, prec: nat, flags: Flags)
    requires flags.expBits >= 1 && Valid(x) && RoundsTo(x, r, ret0, ret, prec, flags) && HasRoom(x, prec, flags)
    requires (flags.mode == RNDN || flags.mode == RNDNA) && Standard(prec, flags)
    ensures IsInfinite(r) <==> AtMost(Pow2(prec + 1) - 1, Pow2(flags.expBits - 1) - prec - 1, x)
    ensures IsInfinite(r) <==> Overflows(x, prec, flags)
    ensures Flushes(x, prec, flags) ==> !flags.subnormal && r.tab == []
  {
    RoundingCases(x, r, ret0, ret, prec, flags);
    hide RoundsTo;
    hide HasRoom;
    StandardPrec(Expn(x), prec, flags);
    var emax, p := EMax(flags), EffectivePrec(Expn(x), prec, flags);
    NearestTop(x, prec, emax, flags.mode);
    NearestMost(x, p, flags.mode);
    hide AtMost;
    hide Ulps;
    hide Expn;
    hide Val;
    hide EffectivePrec;
    hide EMin;
    hide EMax;
    hide Pow2;
  }

  // x is within half a unit of what it is rounded to.
  lemma HalfAway(x: Exact, prec: int, mode: RndMode)
    requires Valid(x) && (mode == RNDN || mode == RNDNA)
    ensures AtMost(2 * Ulps(x, prec, mode) - 1, Expn(x) - prec - 1, x)
    ensures AtLeast(2 * Ulps(x, prec, mode) + 1, Expn(x) - prec - 1, x)
  {
    var u := Ulps(x, prec, mode);
    InUnits(x, prec + 1, 2 * u - 1);
    InUnits(x, prec + 1, 2 * u + 1);
    HalfUnits(x, prec, 2 * u - 1);
    HalfUnits(x, prec, 2 * u + 1);
    HalfArith(Top(x, prec), Bottom(x, prec), u, x.sign, mode);
    hide Bottom;
    hide Top;
    hide AtMost;
    hide AtLeast;
  }

  lemma HalfArith(num: int, den: int, u: int, neg: bool, mode: RndMode)
    requires den > 0 && (mode == RNDN || mode == RNDNA) && u == RoundQ(num, den, neg, mode)
    ensures (2 * u - 1) * den <= 2 * num <= (2 * u + 1) * den
  {
    var q, rem := num / den, num % den;
    assert num == q * den + rem;
    assert (2 * q - 1) * den == 2 * (q * den) - den && (2 * q + 1) * den == 2 * (q * den) + den;
    assert (2 * q + 3) * den == 2 * (q * den) + 3 * den;
  }

  // Sums keep order.
  lemma SumOrder(v: int, s: int, m: int, q: int, a: int, b: int, g: int)
    ensures var e := if s <= q then s else q;
      && (LessEq(v, s, a, g) && LessEq(m, q, b, g) ==> LessEq(AddScaled(v, s, m, q), e - 1, a + b, g - 1))
      && (LessEq(a, g, v, s) && LessEq(b, g, m, q) ==> LessEq(a + b, g - 1, AddScaled(v, s, m, q), e - 1))
  {
    var e := if s <= q then s else q;
    var k := if e <= g then e else g;
    SumScaled(v, s, m, q, k);
    hide AddScaled;
    var sum := AddScaled(v, s, m, q);
    LessEqAt(v, s, a, g, k);
    LessEqAt(m, q, b, g, k);
    LessEqAt(a, g, v, s, k);
    LessEqAt(b, g, m, q, k);
    LessEqAt(sum, e - 1, a + b, g - 1, k - 1);
    LessEqAt(a + b, g - 1, sum, e - 1, k - 1);
    assert e - 1 - (k - 1) == e - k && g - 1 - (k - 1) == g - k;
    hide LessEq;
    hide Pow2;
    assert (a + b) * Pow2(g - k) == a * Pow2(g - k) + b * Pow2(g - k);
  }

  lemma SumScaled(v: int, s: int, m: int, q: int, k: int)
    requires k <= s && k <= q
    ensures AddScaled(v, s, m, q) * Pow2((if s <= q then s else q) - k) == v * Pow2(s - k) + m * Pow2(q - k)
  {
    hide Pow2;
    Pow2Small();
    if s >= q {
      Pow2Add(s - q, q - k);
      Distribute(v, Pow2(s - q), m, Pow2(q - k));
    } else {
      Pow2Add(q - s, s - k);
      Distribute(m, Pow2(q - s), v, Pow2(s - k));
    }
  }

  lemma Distribute(a: int, p: int, b: int, c: int)
    ensures (a * p + b) * c == a * (p * c) + b * c
  {
    assert (a * p + b) * c == (a * p) * c + b * c;
  }

  lemma HalfDown(m: int, q: int, x: Exact)
    ensures AtMost(2 * m, q - 1, x) <==> AtMost(m, q, x)
  {
    hide Pow2;
    hide LessEq;
    var k := if q - 1 <= x.e then q - 1 else x.e;
    LessEqAt((2 * m) * x.den, q - 1, x.num, x.e, k);
    assert (2 * m) * x.den == 2 * (m * x.den);
    if q <= x.e {
      LessEqAt(m * x.den, q, x.num, x.e, q - 1);
      assert Pow2(1) == 2 && Pow2(0) == 1 by {
        Pow2Small();
      }
    } else {
      LessEqAt(m * x.den, q, x.num, x.e, x.e);
      Doubled(m * x.den, q - x.e - 1);
      assert (2 * (m * x.den)) * Pow2(q - 1 - x.e) == 2 * ((m * x.den) * Pow2(q - 1 - x.e));
    }
  }

  // No number that fits lies between x and the units, or as near on the other side.
  lemma GridNearest(x: Exact, prec: nat, flags: Flags, m: int, q: int, v: int, s: int)
    requires Valid(x) && Standard(prec, flags) && (flags.mode == RNDN || flags.mode == RNDNA)
    requires Fits(m, q, prec, flags)
    requires var p := EffectivePrec(Expn(x), prec, flags); SameValue(v, s, Ulps(x, p, flags.mode), Expn(x) - p)
    ensures Nearer(v, s, m, q, x)
  {
    StandardPrec(Expn(x), prec, flags);
    var p := EffectivePrec(Expn(x), prec, flags);
    var g, u := Expn(x) - p, Ulps(x, p, flags.mode);
    SameLess(v, s, u, g);
    if q >= g {
      NearestOnGrid(x, p, flags.mode, m, q, v, s);
    } else {
      assert p == prec;
      ShortBelow(m, q, prec, Expn(x) - 1);
      NearestShort(x, prec, flags.mode, m, q, v, s);
    }
  }

  lemma NearestOnGrid(x: Exact, p: int, mode: RndMode, m: int, q: int, v: int, s: int)
    requires Valid(x) && (mode == RNDN || mode == RNDNA) && q >= Expn(x) - p
    requires var u, g := Ulps(x, p, mode), Expn(x) - p; LessEq(v, s, u, g) && LessEq(u, g, v, s)
    ensures Nearer(v, s, m, q, x)
  {
    var u, g := Ulps(x, p, mode), Expn(x) - p;
    var k := OnGrid(m, q, g);
    HalfAway(x, p, mode);
    hide Ulps;
    hide Expn;
    hide Pow2;
    var e := if s <= q then s else q;
    SumOrder(v, s, m, q, u, k, g);
    hide AddScaled;
    Integers(k, u, g);
    Integers(u, k, g);
    Integers(u + k, 2 * u - 1, g - 1);
    Integers(2 * u + 1, u + k, g - 1);
    hide LessEq;
    if !LessEq(m, q, v, s) {
      if k <= u {
        LessTrans(m, q, k, g, u, g);
        LessTrans(m, q, u, g, v, s);
      }
      LessTrans(2 * u + 1, g - 1, u + k, g - 1, AddScaled(v, s, m, q), e - 1);
      AtLeastTrans(AddScaled(v, s, m, q), e - 1, 2 * u + 1, g - 1, x);
    }
    if !LessEq(v, s, m, q) {
      if u <= k {
        LessTrans(v, s, u, g, k, g);
        LessTrans(v, s, k, g, m, q);
      }
      LessTrans(AddScaled(v, s, m, q), e - 1, u + k, g - 1, 2 * u - 1, g - 1);
      AtMostTrans(AddScaled(v, s, m, q), e - 1, 2 * u - 1, g - 1, x);
    }
  }

  lemma NearestShort(x: Exact, p: nat, mode: RndMode, m: int, q: int, v: int, s: int)
    requires Valid(x) && (mode == RNDN || mode == RNDNA) && p > 0 && LessEq(m, q, 1, Expn(x) - 1)
    requires var u, g := Ulps(x, p, mode), Expn(x) - p; LessEq(v, s, u, g) && LessEq(u, g, v, s)
    ensures Nearer(v, s, m, q, x)
  {
    var u, g, h := Ulps(x, p, mode), Expn(x) - p, Pow2(p - 1);
    HalfAway(x, p, mode);
    ExpnIs(x);
    PowerSame(p - 1, g);
    SameLess(h, g, 1, Expn(x) - 1);
    SameSides(h, g, 1, Expn(x) - 1, x);
    InUnits(x, p, h);
    FloorIs(h, Top(x, p), Bottom(x, p));
    assert h <= u;
    hide Top;
    hide Bottom;
    hide Ulps;
    hide Expn;
    hide Pow2;
    Integers(h, u, g);
    HalfDown(h, g, x);
    var e := if s <= q then s else q;
    SumOrder(v, s, m, q, u, h, g);
    hide AddScaled;
    Integers(u + h, 2 * u - 1, g - 1);
    hide LessEq;
    LessTrans(m, q, 1, Expn(x) - 1, h, g);
    LessTrans(h, g, u, g, v, s);
    LessTrans(m, q, h, g, v, s);
    if u == h {
      AtMostTrans(AddScaled(v, s, m, q), e - 1, 2 * h, g - 1, x);
    } else {
      LessTrans(AddScaled(v, s, m, q), e - 1, u + h, g - 1, 2 * u - 1, g - 1);
      AtMostTrans(AddScaled(v, s, m, q), e - 1, 2 * u - 1, g - 1, x);
    }
  }

  lemma NearestIs(x: Exact, r: Num, ret0: set<Status>, ret: set<Status>, prec: nat, flags: Flags)
    requires flags.expBits >= 1 && Valid(x) && RoundsTo(x, r, ret0, ret, prec, flags) && HasRoom(x, prec, flags)
    requires flags.mode == RNDN || flags.mode == RNDNA
    ensures NearestLaw(x, r, prec, flags)
  {
    if Standard(prec, flags) {
      NearestIsInfinite(x, r, ret0, ret, prec, flags);
      RoundingCases(x, r, ret0, ret, prec, flags);
      var p := EffectivePrec(Expn(x), prec, flags);
      if r.tab == [] {
        ZeroSame(Scale(r), Expn(x) - p);
      }
      hide RoundsTo;
      hide HasRoom;
      hide AtMost;
      hide SameValue;
      hide Ulps;
      hide Flushes;
      hide Overflows;
      hide Nearer;
      hide Expn;
      if !IsInfinite(r) && (flags.subnormal || r.tab != []) {
        forall m, q | Fits(m, q, prec, flags) ensures Nearer(Val(r.tab), Scale(r), m, q, x) {
          GridNearest(x, prec, flags, m, q, Val(r.tab), Scale(r));
        }
      }
    }
  }

  lemma ZeroSame(s: int, g: int)
    ensures SameValue(0, s, 0, g)
  {
  }

  lemma NearestMost(x: Exact, p: int, mode: RndMode)
    requires Valid(x) && (mode == RNDN || mode == RNDNA)
    ensures p > 0 ==> Ulps(x, p, mode) <= Pow2(p)
  {
    if p > 0 {
      InUnits(x, p, Pow2(p));
      PowerSame(p, Expn(x) - p);
      SameSides(Pow2(p), Expn(x) - p, 1, Expn(x), x);
      ExpnIs(x);
      FloorIs(Pow2(p), Top(x, p), Bottom(x, p));
    }
  }

  // Half a unit below 2^emax.
  lemma NearestTop(x: Exact, prec: nat, emax: int, mode: RndMode)
    requires Valid(x) && (mode == RNDN || mode == RNDNA) && prec >= 1
    ensures AtMost(Pow2(prec + 1) - 1, emax - prec - 1, x) <==>
            Expn(x) > emax || (Expn(x) == emax && Ulps(x, prec, mode) >= Pow2(prec))
  {
    var c, g := Pow2(prec + 1) - 1, emax - prec - 1;
    assert Pow2(prec + 1) == 2 * Pow2(prec) && Pow2(prec) == 2 * Pow2(prec - 1);
    if Expn(x) == emax {
      UnitsNearest(x, prec, mode, Pow2(prec));
    } else if Expn(x) > emax {
      BelowPower(x, emax);
      PowerSame(prec + 1, g);
      SameLess(Pow2(prec + 1), g, 1, emax);
      Integers(c, Pow2(prec + 1), g);
      hide LessEq;
      LessTrans(c, g, Pow2(prec + 1), g, 1, emax);
      AtMostTrans(c, g, 1, emax, x);
    } else {
      BelowPower(x, emax - 1);
      PowerSame(prec, g);
      SameLess(Pow2(prec), g, 1, emax - 1);
      PowAbove(prec);
      Integers(Pow2(prec), c, g);
      hide LessEq;
      if AtMost(c, g, x) {
        LessTrans(1, emax - 1, Pow2(prec), g, c, g);
        AtMostTrans(1, emax - 1, c, g, x);
      }
    }
  }

  // ----- What is delivered is a number, and the status -----

  lemma UnitsRange(x: Exact, p: int, mode: RndMode)
    requires Valid(x)
    ensures if p > 0 then Pow2(p - 1) <= Ulps(x, p, mode) <= Pow2(p) else 0 <= Ulps(x, p, mode) <= 1
  {
    var g := Expn(x) - p;
    var t, b := Top(x, p), Bottom(x, p);
    if p > 0 {
      ExpnIs(x);
      InUnits(x, p, Pow2(p));
      InUnits(x, p, Pow2(p - 1));
      PowerSame(p, g);
      PowerSame(p - 1, g);
      SameSides(Pow2(p), g, 1, Expn(x), x);
      SameSides(Pow2(p - 1), g, 1, Expn(x) - 1, x);
      FloorIs(Pow2(p), t, b);
      FloorIs(Pow2(p - 1), t, b);
    } else {
      BelowPower(x, g);
      InUnits(x, p, 1);
      InUnits(x, p, 0);
      FloorIs(1, t, b);
      FloorIs(0, t, b);
      NotBelowZero(x, g);
      AtTotal(0, g, x);
    }
    hide AtMost;
    hide Top;
    hide Bottom;
    hide Pow2;
    hide Expn;
  }

  // Units that make up less than 2^e and not less than 2^(e - 1).
  lemma UnitsBetween(x: Exact, p: int, mode: RndMode, v: int, s: int)
    requires Valid(x) && p > 0 && SameValue(v, s, Ulps(x, p, mode), Expn(x) - p)
    ensures var e := Expn(x) + if Ulps(x, p, mode) == Pow2(p) then 1 else 0;
      LessEq(1, e - 1, v, s) && !LessEq(1, e, v, s)
  {
    hide LessEq;
    hide SameValue;
    hide Ulps;
    hide Expn;
    hide Pow2;
    UnitsRange(x, p, mode);
    BetweenPowersOf(Ulps(x, p, mode), Expn(x) - p, p, v, s);
  }

  lemma BetweenPowersOf(u: int, g: int, p: nat, v: int, s: int)
    requires p > 0 && Pow2(p - 1) <= u <= Pow2(p) && SameValue(v, s, u, g)
    ensures var e := g + p + if u == Pow2(p) then 1 else 0;
      LessEq(1, e - 1, v, s) && !LessEq(1, e, v, s)
  {
    hide LessEq;
    hide SameValue;
    if u == Pow2(p) {
      PowAbove(p);
      assert Pow2(p + 1) == 2 * Pow2(p);
      GridBetween(u, g, p, v, s);
    } else {
      GridBetween(u, g, p - 1, v, s);
    }
  }

  lemma GridBetween(u: int, g: int, k: nat, v: int, s: int)
    requires Pow2(k) <= u < Pow2(k + 1) && SameValue(v, s, u, g)
    ensures LessEq(1, g + k, v, s) && !LessEq(1, g + k + 1, v, s)
  {
    SameLess(v, s, u, g);
    PowerSame(k, g);
    PowerSame(k + 1, g);
    SameLess(Pow2(k), g, 1, g + k);
    SameLess(Pow2(k + 1), g, 1, g + k + 1);
    Integers(Pow2(k), u, g);
    Integers(Pow2(k + 1), u, g);
    hide LessEq;
    hide Pow2;
    LessTrans(1, g + k, Pow2(k), g, u, g);
    LessTrans(1, g + k, u, g, v, s);
    if LessEq(1, g + k + 1, v, s) {
      LessTrans(1, g + k + 1, v, s, u, g);
      LessTrans(Pow2(k + 1), g, 1, g + k + 1, u, g);
    }
  }

  // Between 2^(e - 1) and 2^e the powers at most a value are those below e.
  lemma PowerIff(e: int, v: int, s: int, k: int)
    requires LessEq(1, e - 1, v, s) && !LessEq(1, e, v, s)
    ensures LessEq(1, k, v, s) <==> k < e
  {
    PowerOrder(k, e - 1);
    PowerOrder(e, k);
    hide LessEq;
    if k < e {
      LessTrans(1, k, 1, e - 1, v, s);
    } else if LessEq(1, k, v, s) {
      LessTrans(1, e, 1, k, v, s);
    }
  }

  // All units, or half of them twice as large.
  lemma CarryFits(u: int, g: int, p: int, prec: nat) returns (m: int, q: int)
    requires p <= prec && u >= 1 && if p > 0 then u <= Pow2(p) else u == 1
    requires prec >= 2
    ensures 1 <= m < Pow2(prec) && SameValue(u, g, m, q) && q >= g && (p <= 0 ==> m == 1 && q == g)
  {
    Pow2Mono(1, prec);
    assert Pow2(1) == 2 && Pow2(0) == 1;
    if p > 0 {
      Pow2Mono(p, prec);
      assert Pow2(p) == 2 * Pow2(p - 1);
      PowAbove(p - 1);
    }
    m, q := if p > 0 && u == Pow2(p) then Pow2(p - 1) else u, if p > 0 && u == Pow2(p) then g + 1 else g;
  }

  lemma FitsUnits(x: Exact, r: Num, prec: nat, flags: Flags)
    requires Valid(x) && Standard(prec, flags) && !Flushes(x, prec, flags) && !Overflows(x, prec, flags) && r.tab != []
    requires var p := EffectivePrec(Expn(x), prec, flags);
      SameValue(Val(r.tab), Scale(r), Ulps(x, p, flags.mode), Expn(x) - p) && Ulps(x, p, flags.mode) > 0
    ensures IsOne(r, prec, flags)
  {
    StandardPrec(Expn(x), prec, flags);
    var p := EffectivePrec(Expn(x), prec, flags);
    var u, g, v, s := Ulps(x, p, flags.mode), Expn(x) - p, Val(r.tab), Scale(r);
    UnitsRange(x, p, flags.mode);
    var m, q := CarryFits(u, g, p, prec);
    SameTrans(v, s, u, g, m, q);
    SameLess(v, s, m, q);
    if p > 0 {
      var e := RoundedExpn(x, prec, flags);
      UnitsBetween(x, p, flags.mode, v, s);
      PowerIff(e, v, s, EMax(flags));
      PowerIff(e, v, s, EMin(flags) - 1);
    } else {
      PowerOrder(EMax(flags), g);
    }
    hide Val;
    hide Ulps;
    hide Expn;
    hide SameValue;
    hide LessEq;
    hide Pow2;
    if p > 0 && LessEq(1, EMax(flags), m, q) {
      LessTrans(1, EMax(flags), m, q, v, s);
    }
    if p > 0 && !flags.subnormal {
      LessTrans(1, EMin(flags) - 1, v, s, m, q);
    }
    assert SameFit(r, m, q, prec, flags);
  }

  lemma FitsLargest(r: Num, prec: nat, flags: Flags)
    requires Standard(prec, flags) && IsLargest(r, prec, EMax(flags))
    ensures IsOne(r, prec, flags) && LessEq(1, EMax(flags) - 1, Val(r.tab), Scale(r))
    ensures r.tab != [] && !LessEq(1, EMax(flags), Val(r.tab), Scale(r))
  {
    StandardPrec(0, prec, flags);
    var emax, m, q := EMax(flags), Pow2(prec) - 1, EMax(flags) - prec;
    LargestIs(r, prec, emax);
    SameLess(Val(r.tab), Scale(r), m, q);
    PowerSame(prec, q);
    PowerSame(prec - 1, q);
    SameLess(Pow2(prec), q, 1, emax);
    SameLess(Pow2(prec - 1), q, 1, emax - 1);
    assert Pow2(prec) == 2 * Pow2(prec - 1);
    Pow2Mono(1, prec);
    assert Pow2(1) == 2;
    Integers(Pow2(prec - 1), m, q);
    Integers(Pow2(prec), m, q);
    hide Val;
    hide LessEq;
    hide SameValue;
    hide Pow2;
    LessTrans(1, emax - 1, Pow2(prec - 1), q, m, q);
    LessTrans(1, emax - 1, m, q, Val(r.tab), Scale(r));
    if LessEq(1, emax, Val(r.tab), Scale(r)) {
      LessTrans(1, emax, Val(r.tab), Scale(r), m, q);
    }
    if LessEq(1, emax, m, q) {
      LessTrans(Pow2(prec), q, 1, emax, m, q);
    }
    PowerOrder(EMin(flags) - 1, emax - 1);
    LessTrans(1, EMin(flags) - 1, 1, emax - 1, m, q);
    assert SameFit(r, m, q, prec, flags);
  }

  lemma OneIs(x: Exact, r: Num, ret0: set<Status>, ret: set<Status>, prec: nat, flags: Flags)
    requires flags.expBits >= 1 && Valid(x) && RoundsTo(x, r, ret0, ret, prec, flags) && HasRoom(x, prec, flags)
    requires Standard(prec, flags)
    ensures IsOne(r, prec, flags)
  {
    RoundingCases(x, r, ret0, ret, prec, flags);
    hide RoundsTo;
    hide HasRoom;
    var p := EffectivePrec(Expn(x), prec, flags);
    UnitsRange(x, p, flags.mode);
    PowAbove(if p > 0 then p - 1 else 0);
    hide Ulps;
    hide Expn;
    hide SameFit;
    if Overflows(x, prec, flags) {
      if !OverflowsToInfinity(x.sign, prec, flags.mode) {
        FitsLargest(r, prec, flags);
      }
    } else if r.tab != [] {
      FitsUnits(x, r, prec, flags);
    }
  }

  // The units are exact when nothing is cut.
  lemma UnitsExact(x: Exact, p: int, mode: RndMode, v: int, s: int)
    requires Valid(x) && mode != RNDF && SameValue(v, s, Ulps(x, p, mode), Expn(x) - p)
    ensures AtMost(v, s, x) && AtLeast(v, s, x) <==> !Inexact(x, p)
  {
    var u, t, b := Ulps(x, p, mode), Top(x, p), Bottom(x, p);
    SameSides(v, s, u, Expn(x) - p, x);
    InUnits(x, p, u);
    hide Top;
    hide Bottom;
    hide AtMost;
    hide AtLeast;
    ExactUnits(t, b, u, x.sign, mode);
  }

  lemma ExactUnits(t: int, b: int, u: int, neg: bool, mode: RndMode)
    requires b > 0 && mode != RNDF && u == RoundQ(t, b, neg, mode)
    ensures u * b == t <==> t % b == 0
  {
    var q, rem := t / b, t % b;
    assert t == q * b + rem;
    assert (q + 1) * b == q * b + b;
  }

  // The status of the cases.
  lemma StatusCases(x: Exact, r: Num, ret0: set<Status>, ret: set<Status>, prec: nat, flags: Flags)
    requires flags.expBits >= 1 && Valid(x) && RoundsTo(x, r, ret0, ret, prec, flags) && flags.mode != RNDF
    ensures var p := EffectivePrec(Expn(x), prec, flags);
      && (p <= 0 || Flushes(x, prec, flags) ==> ret == ret0 + {UNDERFLOW, INEXACT})
      && (Overflows(x, prec, flags) ==> ret == {OVERFLOW, INEXACT})
      && (p > 0 && !Flushes(x, prec, flags) && !Overflows(x, prec, flags) ==>
            && (INEXACT in ret <==> INEXACT in ret0 || Inexact(x, p))
            && (UNDERFLOW in ret <==> UNDERFLOW in ret0 ||
                                      (INEXACT in ret && RoundedExpn(x, prec, flags) < EMin(flags)))
            && ret <= ret0 + {INEXACT, UNDERFLOW})
  {
    hide Val;
    hide Pow2;
    hide Ulps;
    hide Inexact;
    hide SameValue;
    hide IsLargest;
    hide IsInfinite;
    hide IsUnits;
    hide OverflowsToInfinity;
    hide EMin;
    hide EMax;
    hide EffectivePrec;
    hide Expn;
  }

  // With no bit to keep, units are never exact, and they are small.
  lemma NoBitsSmall(x: Exact, r: Num, prec: nat, flags: Flags)
    requires Valid(x) && Standard(prec, flags) && EffectivePrec(Expn(x), prec, flags) <= 0
    requires var p := EffectivePrec(Expn(x), prec, flags); UnitsOrZero(r, Ulps(x, p, flags.mode), Expn(x) - p)
    ensures !HoldsExactly(r, x) && Small(r, flags) && !IsInfinite(r) && !AtMost(1, EMax(flags), x)
  {
    StandardPrec(Expn(x), prec, flags);
    var p := EffectivePrec(Expn(x), prec, flags);
    var u, g := Ulps(x, p, flags.mode), Expn(x) - p;
    UnitsRange(x, p, flags.mode);
    BelowPower(x, EMax(flags));
    BelowPower(x, g);
    hide AtMost;
    hide Ulps;
    hide Expn;
    hide Val;
    if r.tab != [] {
      SameSides(Val(r.tab), Scale(r), 1, g, x);
      SameLess(Val(r.tab), Scale(r), 1, g);
      PowerOrder(EMin(flags) - 1, g);
      hide LessEq;
      if LessEq(1, EMin(flags) - 1, Val(r.tab), Scale(r)) {
        LessTrans(1, EMin(flags) - 1, Val(r.tab), Scale(r), 1, g);
      }
    }
  }

  lemma OverflowStatus(x: Exact, r: Num, ret0: set<Status>, ret: set<Status>, prec: nat, flags: Flags)
    requires flags.expBits >= 1 && Valid(x) && RoundsTo(x, r, ret0, ret, prec, flags) && HasRoom(x, prec, flags)
    requires Standard(prec, flags) && flags.mode != RNDF && Overflows(x, prec, flags)
    ensures !HoldsExactly(r, x) && !Small(r, flags) && (IsInfinite(r) || AtMost(1, EMax(flags), x))
  {
    RoundingCases(x, r, ret0, ret, prec, flags);
    hide RoundsTo;
    hide HasRoom;
    StandardPrec(Expn(x), prec, flags);
    if !OverflowsToInfinity(x.sign, prec, flags.mode) {
      TowardExpn(x, prec, flags);
      FitsLargest(r, prec, flags);
      BelowPower(x, EMax(flags));
      PowerOrder(EMin(flags) - 1, EMax(flags) - 1);
      hide LessEq;
      hide Val;
      hide Expn;
      LessTrans(1, EMin(flags) - 1, 1, EMax(flags) - 1, Val(r.tab), Scale(r));
      if AtLeast(Val(r.tab), Scale(r), x) {
        Across(1, EMax(flags), Val(r.tab), Scale(r), x);
      }
    }
  }

  lemma UsualStatus(x: Exact, r: Num, prec: nat, flags: Flags)
    requires Valid(x) && Standard(prec, flags) && flags.mode != RNDF
    requires var p := EffectivePrec(Expn(x), prec, flags);
      p > 0 && UnitsOrZero(r, Ulps(x, p, flags.mode), Expn(x) - p)
    requires !Flushes(x, prec, flags) && !Overflows(x, prec, flags)
    ensures HoldsExactly(r, x) <==> !Inexact(x, EffectivePrec(Expn(x), prec, flags))
    ensures Small(r, flags) <==> RoundedExpn(x, prec, flags) < EMin(flags)
    ensures !IsInfinite(r) && !AtMost(1, EMax(flags), x)
  {
    StandardPrec(Expn(x), prec, flags);
    var p := EffectivePrec(Expn(x), prec, flags);
    SomeUnits(x, p, flags.mode);
    UnitsExact(x, p, flags.mode, Val(r.tab), Scale(r));
    UnitsBetween(x, p, flags.mode, Val(r.tab), Scale(r));
    PowerIff(RoundedExpn(x, prec, flags), Val(r.tab), Scale(r), EMin(flags) - 1);
    BelowPower(x, EMax(flags));
    hide AtMost;
    hide AtLeast;
    hide Inexact;
    hide LessEq;
    hide Ulps;
    hide Expn;
    hide Val;
    hide EffectivePrec;
    hide EMin;
    hide EMax;
    hide SameValue;
  }

  lemma FlushStatus(x: Exact, r: Num, prec: nat, flags: Flags)
    requires Valid(x) && Standard(prec, flags) && Flushes(x, prec, flags) && IsZero(r)
    ensures !HoldsExactly(r, x) && Small(r, flags) && !IsInfinite(r) && !AtMost(1, EMax(flags), x)
  {
    StandardPrec(Expn(x), prec, flags);
    BelowPower(x, EMax(flags));
  }

  // Every status obeys the law.
  lemma StatusIs(x: Exact, r: Num, ret0: set<Status>, ret: set<Status>, prec: nat, flags: Flags)
    requires flags.expBits >= 1 && Valid(x) && RoundsTo(x, r, ret0, ret, prec, flags) && HasRoom(x, prec, flags)
    ensures StatusLaw(x, r, ret0, ret, prec, flags)
  {
    if flags.mode != RNDF && ret0 <= {INEXACT} && Standard(prec, flags) {
      RoundingCases(x, r, ret0, ret, prec, flags);
      StatusCases(x, r, ret0, ret, prec, flags);
      if Overflows(x, prec, flags) {
        OverflowStatus(x, r, ret0, ret, prec, flags);
      } else if Flushes(x, prec, flags) {
        FlushStatus(x, r, prec, flags);
      } else if EffectivePrec(Expn(x), prec, flags) <= 0 {
        NoBitsSmall(x, r, prec, flags);
      } else {
        UsualStatus(x, r, prec, flags);
      }
      hide RoundsTo;
      hide HasRoom;
      hide AtMost;
      hide HoldsExactly;
      hide Small;
      hide IsInfinite;
      hide Inexact;
      hide Expn;
      hide EffectivePrec;
      hide RoundedExpn;
      hide UnitsOrZero;
      hide IsLargest;
      hide EMin;
    }
  }

  // Every result of rounding obeys the laws of its mode.
  lemma SideIs(x: Exact, r: Num, ret0: set<Status>, ret: set<Status>, prec: nat, flags: Flags)
    requires flags.expBits >= 1 && Valid(x) && RoundsTo(x, r, ret0, ret, prec, flags) && HasRoom(x, prec, flags)
    requires flags.subnormal && !flags.radpntPrec ==> prec != BF_PREC_INF
    ensures SideLaw(x, r, prec, flags)
  {
    RoundingCases(x, r, ret0, ret, prec, flags);
    hide TowardLaw;
    hide AwayLaw;
    hide NearestLaw;
    hide IsOne;
    if Standard(prec, flags) {
      OneIs(x, r, ret0, ret, prec, flags);
    }
    if Toward(x.sign, flags.mode) {
      TowardIs(x, r, ret0, ret, prec, flags);
    } else if Away(x.sign, flags.mode) {
      AwayIs(x, r, ret0, ret, prec, flags);
    } else if flags.mode != RNDF {
      NearestIs(x, r, ret0, ret, prec, flags);
    }
    hide RoundsTo;
    hide HasRoom;
  }

  // Both laws.
  ghost predicate Laws(x: Exact, r: Num, ret0: set<Status>, ret: set<Status>, prec: nat, flags: Flags)
    requires flags.expBits >= 1
  {
    SideLaw(x, r, prec, flags) && StatusLaw(x, r, ret0, ret, prec, flags)
  }

  lemma LawsHold(x: Exact, r: Num, ret0: set<Status>, ret: set<Status>, prec: nat, flags: Flags)
    requires flags.expBits >= 1 && Valid(x) && RoundsTo(x, r, ret0, ret, prec, flags) && HasRoom(x, prec, flags)
    requires flags.subnormal && !flags.radpntPrec ==> prec != BF_PREC_INF
    ensures Laws(x, r, ret0, ret, prec, flags)
  {
    hide RoundsTo;
    hide HasRoom;
    hide SideLaw;
    hide StatusLaw;
    SideIs(x, r, ret0, ret, prec, flags);
    StatusIs(x, r, ret0, ret, prec, flags);
  }
}
