// What it means for a result of quickjs/libbf.c to be an exact value, correctly rounded: the value is
// a quotient times a power of two, and the number of units in the last place is the one section 4.3
// of IEEE 754-2008 selects.

module BfExact {
  import opened Limbs
  import opened Bits
  import opened Rounding
  import opened BfRound

  // num / den * 2^e, at least 2^e
  datatype Exact = Exact(sign: bool, num: int, den: int, e: int)

  predicate Valid(x: Exact) {
    x.den > 0 && x.num >= x.den
  }

  // The value is below 2^Width * 2^e and at least half of that.
  ghost function Width(x: Exact): nat
    requires Valid(x)
  {
    AtLeastOne(x.num, x.den);
    BitLen(x.num / x.den)
  }

  lemma AtLeastOne(num: int, den: int)
    requires den > 0 && num >= den
    ensures num / den >= 1
  {
    MulCancelLess(0, num / den + 1, den);
    assert (num / den + 1) * den == (num / den) * den + den;
    MulCancelLess(1, num / den + 1, den);
  }

  ghost function Expn(x: Exact): int
    requires Valid(x)
  {
    x.e + Width(x)
  }

  function Max0(n: int): nat {
    if n > 0 then n else 0
  }

  // The value over one unit in the last place, 2^(Expn - prec), as a quotient.
  ghost function Top(x: Exact, prec: int): int
    requires Valid(x)
  {
    x.num * Pow2(Max0(prec - Width(x)))
  }

  ghost function Bottom(x: Exact, prec: int): (d: int)
    requires Valid(x)
    ensures d > 0
  {
    MulStrict(0, x.den, Pow2(Max0(Width(x) - prec)));
    x.den * Pow2(Max0(Width(x) - prec))
  }

  // The units in the last place x rounds to.
  ghost function Ulps(x: Exact, prec: int, mode: RndMode): int
    requires Valid(x)
  {
    RoundQ(Top(x, prec), Bottom(x, prec), x.sign, mode)
  }

  ghost predicate Inexact(x: Exact, prec: int)
    requires Valid(x)
  {
    Top(x, prec) % Bottom(x, prec) != 0
  }

  // r and the status ret are x rounded: u units of 2^(Expn - prec), with zero, the smallest or the
  // largest number and infinity where the exponent range ends.
  ghost predicate RoundsTo(x: Exact, r: Num, ret0: set<Status>, ret: set<Status>, prec1: nat, flags: Flags)
    requires flags.expBits >= 1 && Valid(x)
  {
    var prec := EffectivePrec(Expn(x), prec1, flags);
    RoundsToUnits(x.sign, Expn(x), prec, Ulps(x, prec, flags.mode), flags.mode == RNDF || Inexact(x, prec),
                  r, ret0, ret, prec1, flags)
  }

  ghost predicate RoundsToUnits(sign: bool, expn: int, prec: int, u: int, inexact: bool, r: Num, ret0: set<Status>,
                                ret: set<Status>, prec1: nat, flags: Flags)
    requires flags.expBits >= 1
  {
    var e := expn + if prec > 0 && u == Pow2(prec) then 1 else 0;
    var ret1 := ret0 + if inexact then {INEXACT} else {};
    && r.sign == sign
    && if prec <= 0 then
         && ret == ret0 + {UNDERFLOW, INEXACT}
         && (if u == 0 then r.tab == [] && r.expn == BF_EXP_ZERO else IsUnits(r, u, expn - prec))
       else if e < EMin(flags) && !flags.subnormal then
         ret == ret1 + {UNDERFLOW, INEXACT} && r.tab == [] && r.expn == BF_EXP_ZERO
       else if e > EMax(flags) then
         && ret == {OVERFLOW, INEXACT}
         && if OverflowsToInfinity(sign, prec1, flags.mode) then IsInfinite(r) else IsLargest(r, prec1, EMax(flags))
       else
         && ret == ret1 + (if e < EMin(flags) && INEXACT in ret1 then {UNDERFLOW} else {})
         && r.expn == e && IsUnits(r, u, expn - prec)
  }

  // The exponent after rounding: one more when the units carry out.
  ghost function RoundedExpn(x: Exact, prec1: nat, flags: Flags): int
    requires flags.expBits >= 1 && Valid(x)
  {
    var prec := EffectivePrec(Expn(x), prec1, flags);
    Expn(x) + if prec > 0 && Ulps(x, prec, flags.mode) == Pow2(prec) then 1 else 0
  }

  // An overflow to the largest finite number needs a mantissa to store it in, which a precision of
  // zero does not provide.
  ghost predicate HasRoom(x: Exact, prec1: nat, flags: Flags)
    requires flags.expBits >= 1
  {
    Valid(x) ==>
      prec1 >= 1 || EffectivePrec(Expn(x), prec1, flags) <= 0 || RoundedExpn(x, prec1, flags) <= EMax(flags)
      || OverflowsToInfinity(x.sign, prec1, flags.mode)
  }

  // Rounding 16 toward zero, to no bit after the radix point, where exponents end at 4: the largest
  // number would have to be stored in no limbs.
  lemma NoRoom()
    ensures !HasRoom(Exact(false, 1, 1, 4), 0, Flags(RNDZ, false, true, 3)) && (0 + LIMB_BITS - 1) / LIMB_BITS == 0
  {
    var x := Exact(false, 1, 1, 4);
    assert BitLen(1) == 1 && Width(x) == 1;
    assert Pow2(2) == 4;
    hide Ulps;
  }

  // r is u * 2^e, with the top bit set and no trailing zero limb.
  ghost predicate IsUnits(r: Num, u: int, e: int) {
    Normal(r.tab) && r.tab[0] != 0 && SameValue(Val(r.tab), r.expn - LIMB_BITS * |r.tab|, u, e)
  }

  // The units are those the standard defines.
  lemma UlpsAreStandard(x: Exact, prec: int, mode: RndMode)
    requires Valid(x) && mode != RNDF
    ensures CorrectlyRounded(Ulps(x, prec, mode), Top(x, prec), Bottom(x, prec), x.sign, mode)
  {
    RoundQIs(Ulps(x, prec, mode), Top(x, prec), Bottom(x, prec), x.sign, mode);
  }

  // ----- Scaling -----

  lemma BitLenIs(v: nat, k: nat)
    requires k > 0 && Pow2(k - 1) <= v < Pow2(k)
    ensures BitLen(v) == k
  {
    assert Pow2(0) == 1;
    hide Pow2;
    var b := BitLen(v);
    PowerLess(k - 1, b);
    PowerLess(b - 1, k);
  }

  // m1 * 2^e1 == m2 * 2^e2, at any exponent below both.
  lemma SameAt(m1: int, e1: int, m2: int, e2: int, k: int)
    requires k <= e1 && k <= e2
    ensures SameValue(m1, e1, m2, e2) <==> m1 * Pow2(e1 - k) == m2 * Pow2(e2 - k)
  {
    hide Pow2;
    if e1 >= e2 {
      Pow2Add(e1 - e2, e2 - k);
      Cancel(m1, Pow2(e1 - e2), m2, Pow2(e2 - k));
    } else {
      Pow2Add(e2 - e1, e1 - k);
      Cancel(m2, Pow2(e2 - e1), m1, Pow2(e1 - k));
    }
  }

  lemma Cancel(a: int, p: int, b: int, q: int)
    requires q > 0
    ensures a * p == b <==> a * (p * q) == b * q
  {
    assert a * (p * q) == (a * p) * q;
    if a * p < b {
      MulStrict(a * p, b, q);
    } else if b < a * p {
      MulStrict(b, a * p, q);
    }
  }

  lemma SameTrans(m1: int, e1: int, m2: int, e2: int, m3: int, e3: int)
    requires SameValue(m1, e1, m2, e2) && SameValue(m2, e2, m3, e3)
    ensures SameValue(m1, e1, m3, e3)
  {
    hide SameValue;
    hide Pow2;
    var k := if e1 <= e2 && e1 <= e3 then e1 else if e2 <= e3 then e2 else e3;
    SameAt(m1, e1, m2, e2, k);
    SameAt(m2, e2, m3, e3, k);
    SameAt(m1, e1, m3, e3, k);
  }

  // ----- Rounding a mantissa in place is rounding its value -----

  // The exact value of a finite number.
  ghost function ExactOf(a: Num): Exact {
    Exact(a.sign, Val(a.tab), 1, a.expn - LIMB_BITS * |a.tab|)
  }

  lemma ExactNormal(a: Num)
    requires Normal(a.tab)
    ensures Valid(ExactOf(a)) && Width(ExactOf(a)) == LIMB_BITS * |a.tab| && Expn(ExactOf(a)) == a.expn
  {
    hide Val;
    NormalRange(a.tab);
    var l := |a.tab|;
    PowPow2(l);
    assert Pow2(LIMB_BITS * l) == 2 * Pow2(LIMB_BITS * l - 1);
    hide Pow2;
    BitLenIs(Val(a.tab), LIMB_BITS * l);
    DivIs(Val(a.tab), 1, Val(a.tab), 0);
  }

  // Units of the last place and units of the last bit.
  lemma UnitsIs(a: Num, prec: int, mode: RndMode)
    requires Normal(a.tab)
    ensures var x, l, m := ExactOf(a), |a.tab|, RoundedMantissa(a, prec, mode);
      && Valid(x) && (Inexact(x, prec) <==> m != Val(a.tab))
      && SameValue(m, a.expn - LIMB_BITS * l, Ulps(x, prec, mode), a.expn - prec)
      && (prec > 0 ==> (m == Pow(l) <==> Ulps(x, prec, mode) == Pow2(prec)))
      && (prec <= LIMB_BITS * l ==> m == Ulps(x, prec, mode) * Unit(l, prec) &&
                                    Unit(l, prec) == Pow2(LIMB_BITS * l - prec))
  {
    ExactNormal(a);
    NormalRange(a.tab);
    var l, v := |a.tab|, Val(a.tab);
    hide Val;
    hide BitLen;
    PowPow2(l);
    assert Pow2(0) == 1;
    if prec <= LIMB_BITS * l {
      var u := Unit(l, prec);
      UnitIs(l, prec);
      if prec > 0 {
        Pow2Add(prec, LIMB_BITS * l - prec);
      }
      hide Pow2;
      var q := RoundQ(v, u, a.sign, mode);
      assert Top(ExactOf(a), prec) == v && Bottom(ExactOf(a), prec) == u;
      MantissaIs(a, prec, mode, RoundsUp(v % u, u, (v / u) % 2 == 1, a.sign, mode));
      if prec > 0 {
        CancelUnit(q, Pow2(prec), u);
      }
    } else {
      hide Pow2;
      var k := prec - LIMB_BITS * l;
      NothingToAdd(a.tab, prec, a.sign, mode);
      RoundExact(v, 1, v, a.sign, mode);
      RoundExactUnits(v, Pow2(k), a.sign, mode);
      Pow2Add(LIMB_BITS * l, k);
      MulStrict(v, Pow(l), Pow2(k));
    }
  }

  lemma RoundExactUnits(v: int, p: int, sign: bool, mode: RndMode)
    ensures RoundQ(v * p, 1, sign, mode) == v * p && (v * p) % 1 == 0
  {
    RoundExact(v * p, 1, v * p, sign, mode);
  }

  lemma CancelUnit(q: int, p: int, u: int)
    requires u > 0
    ensures q * u == p * u <==> q == p
  {
    if q < p {
      MulStrict(q, p, u);
    } else if p < q {
      MulStrict(p, q, u);
    }
  }

  lemma ResultIsRounded(a: Num, r: Num, ret0: set<Status>, ret: set<Status>, prec1: nat, flags: Flags)
    requires flags.expBits >= 1 && Normal(a.tab) && RoundResult(a, r, ret0, ret, prec1, flags)
    ensures Valid(ExactOf(a)) && RoundsTo(ExactOf(a), r, ret0, ret, prec1, flags)
  {
    hide Val;
    hide Pow;
    hide Pow2;
    hide RoundedMantissa;
    hide SameValue;
    hide Ulps;
    hide Inexact;
    hide Unit;
    hide IsLargest;
    hide IsInfinite;
    hide OverflowsToInfinity;
    hide EMin;
    hide EMax;
    hide EffectivePrec;
    ExactNormal(a);
    hide Width;
    hide Valid;
    var prec := EffectivePrec(a.expn, prec1, flags);
    UnitsIs(a, prec, flags.mode);
    var m, u := RoundedMantissa(a, prec, flags.mode), Ulps(ExactOf(a), prec, flags.mode);
    var e := a.expn - LIMB_BITS * |a.tab|;
    UnitPositive(|a.tab|, prec);
    ZeroUnits(m, u, Unit(|a.tab|, prec));
    if r.tab != [] && SameValue(Val(r.tab), r.expn - LIMB_BITS * |r.tab|, m, e) {
      SameTrans(Val(r.tab), r.expn - LIMB_BITS * |r.tab|, m, e, u, a.expn - prec);
    }
    if r.tab == [HALF] {
      ValOne(HALF);
    }
  }

  lemma ZeroUnits(m: int, u: int, unit: int)
    requires unit > 0
    ensures m == u * unit ==> (m == 0 <==> u == 0)
  {
    if u > 0 {
      MulMono(1, u, unit);
    } else if u < 0 {
      MulMono(u, -1, unit);
    }
  }

  // ----- Rounding depends on the value only -----

  lemma WidthBounds(x: Exact)
    requires Valid(x)
    ensures Width(x) >= 1 && Pow2(Width(x) - 1) * x.den <= x.num < Pow2(Width(x)) * x.den
  {
    AtLeastOne(x.num, x.den);
    assert Pow2(0) == 1;
    var w := Width(x);
    hide Pow2;
    BetweenPowers(x.num, x.den, Pow2(w - 1), Pow2(w));
  }

  lemma BetweenPowers(num: int, den: int, lo: int, hi: int)
    requires den > 0 && lo <= num / den < hi
    ensures lo * den <= num < hi * den
  {
    var q := num / den;
    assert num == q * den + num % den;
    MulMono(lo, q, den);
    MulMono(q + 1, hi, den);
    assert (q + 1) * den == q * den + den;
  }

  lemma WidthIs(x: Exact, w: nat)
    requires Valid(x) && w >= 1 && Pow2(w - 1) * x.den <= x.num < Pow2(w) * x.den
    ensures Width(x) == w
  {
    hide Pow2;
    AtLeastOne(x.num, x.den);
    var q := x.num / x.den;
    assert x.num == q * x.den + x.num % x.den;
    assert (q + 1) * x.den == q * x.den + x.den;
    MulCancelLess(q, Pow2(w), x.den);
    MulCancelLess(Pow2(w - 1), q + 1, x.den);
    BitLenIs(q, w);
  }

  ghost predicate EqualValue(x: Exact, y: Exact) {
    SameValue(x.num * y.den, x.e, y.num * x.den, y.e)
  }

  // Cross-multiplied inequalities survive multiplying through by d * p and cancelling.
  lemma CrossBelow(a: int, b: int, c: int, d: int, p: int, u: int, up: int)
    requires b > 0 && d > 0 && p > 0 && (a * d) * p == c * b && up == u * p
    ensures u * b <= a ==> up * d <= c
    ensures a < u * b ==> c < up * d
  {
    var k := d * p;
    MulPos(d, p);
    MulStrict(0, d, p);
    assert (a * d) * p == a * k;
    assert (u * b) * k == (up * d) * b by {
      assert (u * b) * (d * p) == ((u * p) * d) * b;
    }
    if u * b <= a {
      MulMono(u * b, a, k);
      MulCancelLess(up * d, c + 1, b);
    } else {
      MulStrict(a, u * b, k);
      MulCancelLess(c, up * d, b);
    }
  }

  lemma EqualWidth(x: Exact, y: Exact)
    requires Valid(x) && Valid(y) && EqualValue(x, y) && x.e >= y.e
    ensures Width(y) == Width(x) + (x.e - y.e) && Expn(x) == Expn(y)
  {
    var w, s := Width(x), x.e - y.e;
    WidthBounds(x);
    Pow2Add(w - 1, s);
    Pow2Add(w, s);
    hide Pow2;
    CrossBelow(x.num, x.den, y.num, y.den, Pow2(s), Pow2(w - 1), Pow2(w - 1 + s));
    CrossBelow(x.num, x.den, y.num, y.den, Pow2(s), Pow2(w), Pow2(w + s));
    WidthIs(y, w + s);
  }

  // Equal quotients round alike.
  lemma RoundRatio(a: int, b: int, c: int, d: int, neg: bool, mode: RndMode)
    requires b > 0 && d > 0 && a * d == c * b
    ensures RoundQ(a, b, neg, mode) == RoundQ(c, d, neg, mode) && (a % b != 0 <==> c % d != 0)
  {
    RoundScale(a, b, d, neg, mode);
    RoundScale(c, d, b, neg, mode);
    assert b * d == d * b;
    var x, y := a % b, c % d;
    assert x * d == y * b;
    if x > 0 {
      MulStrict(0, x, d);
    }
    if y > 0 {
      MulStrict(0, y, b);
    }
  }

  lemma CrossUnits(a: int, b: int, c: int, d: int, p: int, t: int, u: int, t': int, u': int)
    requires (a * d) * p == c * b && p * (t' * u) == t * u'
    ensures ((a * t) * (d * u')) * p == ((c * t') * (b * u)) * p
  {
    var z := a * d;
    assert (a * t) * (d * u') == z * (t * u');
    assert (c * t') * (b * u) == (c * b) * (t' * u);
    assert (z * (t * u')) * p == (z * p) * (t * u');
    assert ((z * p) * (t' * u)) * p == (z * p) * (p * (t' * u));
  }

  lemma CancelFactor(a: int, b: int, p: int)
    requires p > 0 && a * p == b * p
    ensures a == b
  {
    if a < b {
      MulStrict(a, b, p);
    } else if b < a {
      MulStrict(b, a, p);
    }
  }

  lemma EqualUnits(x: Exact, y: Exact, prec: int, mode: RndMode)
    requires Valid(x) && Valid(y) && EqualValue(x, y) && x.e >= y.e && x.sign == y.sign
    ensures Ulps(x, prec, mode) == Ulps(y, prec, mode) && (Inexact(x, prec) <==> Inexact(y, prec))
  {
    EqualWidth(x, y);
    var w, s := Width(x), x.e - y.e;
    hide Width;
    var t, u, t', u' := Max0(prec - w), Max0(w - prec), Max0(prec - w - s), Max0(w + s - prec);
    assert s + t' + u == t + u';
    Pow2Add(t', u);
    Pow2Add(s, t' + u);
    Pow2Add(t, u');
    hide Pow2;
    CrossUnits(x.num, x.den, y.num, y.den, Pow2(s), Pow2(t), Pow2(u), Pow2(t'), Pow2(u'));
    CancelFactor(Top(x, prec) * Bottom(y, prec), Top(y, prec) * Bottom(x, prec), Pow2(s));
    RoundRatio(Top(x, prec), Bottom(x, prec), Top(y, prec), Bottom(y, prec), x.sign, mode);
  }

  lemma EqualSym(x: Exact, y: Exact)
    requires EqualValue(x, y)
    ensures EqualValue(y, x)
  {
  }

  // However a value is written, it rounds to the same number.
  lemma EqualRounds(x: Exact, y: Exact, r: Num, ret0: set<Status>, ret: set<Status>, prec1: nat, flags: Flags)
    requires flags.expBits >= 1 && Valid(x) && Valid(y) && x.sign == y.sign && EqualValue(x, y)
    requires RoundsTo(x, r, ret0, ret, prec1, flags)
    ensures RoundsTo(y, r, ret0, ret, prec1, flags)
  {
    if x.e < y.e {
      EqualSym(x, y);
    }
    var a, b := if x.e >= y.e then x else y, if x.e >= y.e then y else x;
    EqualWidth(a, b);
    hide EqualValue;
    hide Width;
    hide Expn;
    EqualUnits(a, b, EffectivePrec(Expn(x), prec1, flags), flags.mode);
  }

  lemma EqualRoom(x: Exact, y: Exact, prec1: nat, flags: Flags)
    requires flags.expBits >= 1 && Valid(x) && Valid(y) && x.sign == y.sign && EqualValue(x, y)
    ensures HasRoom(x, prec1, flags) <==> HasRoom(y, prec1, flags)
  {
    if x.e < y.e {
      EqualSym(x, y);
    }
    var a, b := if x.e >= y.e then x else y, if x.e >= y.e then y else x;
    EqualWidth(a, b);
    hide EqualValue;
    hide Width;
    hide Expn;
    EqualUnits(a, b, EffectivePrec(Expn(x), prec1, flags), flags.mode);
    hide Ulps;
    hide EffectivePrec;
    hide EMax;
    hide OverflowsToInfinity;
    hide Pow2;
  }

  // The exponent of a mantissa after rounding.
  lemma ExponentIs(a: Num, prec1: nat, flags: Flags)
    requires flags.expBits >= 1 && Normal(a.tab)
    ensures var prec := EffectivePrec(a.expn, prec1, flags);
      && Valid(ExactOf(a)) && Expn(ExactOf(a)) == a.expn
      && (prec > 0 ==> RoundedExponent(a, RoundedMantissa(a, prec, flags.mode))
                         == RoundedExpn(ExactOf(a), prec1, flags))
  {
    hide Val;
    hide Pow;
    hide Pow2;
    hide RoundedMantissa;
    hide SameValue;
    hide Ulps;
    hide Inexact;
    hide Unit;
    hide EffectivePrec;
    ExactNormal(a);
    hide Width;
    hide Valid;
    UnitsIs(a, EffectivePrec(a.expn, prec1, flags), flags.mode);
  }

  // After an overflow the precision is not zero, or there is nothing to store.
  lemma RoomForLargest(a: Num, prec1: nat, flags: Flags, e: int)
    requires flags.expBits >= 1 && Normal(a.tab) && HasRoom(ExactOf(a), prec1, flags)
    requires var prec := EffectivePrec(a.expn, prec1, flags);
      prec > 0 && e == RoundedExponent(a, RoundedMantissa(a, prec, flags.mode)) && e > EMax(flags)
    ensures prec1 >= 1 || OverflowsToInfinity(a.sign, prec1, flags.mode)
  {
    hide RoundedMantissa;
    hide EffectivePrec;
    hide RoundedExpn;
    hide RoundedExponent;
    hide Expn;
    hide EMax;
    ExponentIs(a, prec1, flags);
  }

  // ----- The sticky bit -----

  // A quotient cut to an integer, with a sticky bit, rounds like the quotient when at least two more
  // bits than asked for are left or nothing was cut.
  lemma StickyExact(x: Exact, t: int, cut: bool, r: Num, ret0: set<Status>, ret: set<Status>, prec1: nat, flags: Flags)
    requires flags.expBits >= 1 && Valid(x) && t == x.num / x.den && (cut <==> x.num % x.den != 0)
    requires !cut || EffectivePrec(Expn(x), prec1, flags) + 2 <= Width(x)
    requires var y := Exact(x.sign, Sticky(t, cut), 1, x.e); Valid(y) && RoundsTo(y, r, ret0, ret, prec1, flags)
    ensures RoundsTo(x, r, ret0, ret, prec1, flags)
  {
    AtLeastOne(x.num, x.den);
    var y := Exact(x.sign, Sticky(t, cut), 1, x.e);
    StickyWidth(t, cut);
    DivIs(y.num, 1, y.num, 0);
    assert Width(y) == Width(x) && Expn(y) == Expn(x);
    hide Width;
    var prec := EffectivePrec(Expn(x), prec1, flags);
    StickyUnits(x, y, t, cut, prec, flags.mode);
  }

  lemma StickyWidth(t: nat, cut: bool)
    requires t >= 1
    ensures BitLen(Sticky(t, cut)) == BitLen(t) >= 1
  {
    var k := BitLen(t);
    assert Pow2(0) == 1;
    assert Pow2(k) == 2 * Pow2(k - 1);
    hide Pow2;
    EvenBelow(t, Pow2(k - 1));
    BitLenIs(Sticky(t, cut), k);
  }

  lemma EvenBelow(t: int, h: int)
    requires t < 2 * h
    ensures t % 2 == 0 ==> t + 1 < 2 * h
  {
  }

  lemma WholeCross(num: int, t: int, den: int, p: int, u: int)
    requires den > 0 && t == num / den && num % den == 0
    ensures (num * p) * (1 * u) == (t * p) * (den * u)
  {
    assert num == t * den;
    assert ((t * den) * p) * u == (t * p) * (den * u);
  }

  lemma StickyUnits(x: Exact, y: Exact, t: int, cut: bool, prec: int, mode: RndMode)
    requires Valid(x) && Valid(y) && x.sign == y.sign && y.num == Sticky(t, cut) && y.den == 1 && Width(x) == Width(y)
    requires t == x.num / x.den && (cut <==> x.num % x.den != 0) && (!cut || prec + 2 <= Width(x))
    ensures Ulps(x, prec, mode) == Ulps(y, prec, mode) && (Inexact(x, prec) <==> Inexact(y, prec))
  {
    if cut {
      CutUnits(x, y, t, prec, mode);
    } else {
      WholeUnits(x, y, t, prec, mode);
    }
  }

  lemma CutUnits(x: Exact, y: Exact, t: int, prec: int, mode: RndMode)
    requires Valid(x) && Valid(y) && x.sign == y.sign && y.num == Sticky(t, true) && y.den == 1 && Width(x) == Width(y)
    requires t == x.num / x.den && x.num % x.den != 0 && prec + 2 <= Width(x)
    ensures Ulps(x, prec, mode) == Ulps(y, prec, mode) && (Inexact(x, prec) <==> Inexact(y, prec))
  {
    hide Width;
    var k := Width(x) - prec;
    FourDivides(k);
    assert Pow2(0) == 1;
    hide Pow2;
    var u := Pow2(k);
    assert Top(x, prec) == x.num && Bottom(x, prec) == x.den * u;
    assert Top(y, prec) == y.num && Bottom(y, prec) == u;
    hide Top;
    hide Bottom;
    StickyRounds(x.num, x.den, t, true, u, x.den * u, x.sign, mode);
  }

  lemma FourDivides(k: nat)
    requires k >= 2
    ensures Pow2(k) % 4 == 0
  {
    assert Pow2(k) == 2 * Pow2(k - 1) && Pow2(k - 1) == 2 * Pow2(k - 2);
  }

  lemma WholeUnits(x: Exact, y: Exact, t: int, prec: int, mode: RndMode)
    requires Valid(x) && Valid(y) && x.sign == y.sign && y.num == t && y.den == 1 && Width(x) == Width(y)
    requires t == x.num / x.den && x.num % x.den == 0
    ensures Ulps(x, prec, mode) == Ulps(y, prec, mode) && (Inexact(x, prec) <==> Inexact(y, prec))
  {
    var w := Width(x);
    hide Width;
    hide Pow2;
    WholeCross(x.num, t, x.den, Pow2(Max0(prec - w)), Pow2(Max0(w - prec)));
    RoundRatio(Top(x, prec), Bottom(x, prec), Top(y, prec), Bottom(y, prec), x.sign, mode);
  }
}
