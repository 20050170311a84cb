// Numbers of quickjs/libbf.c as objects: rounding and normalization in place.

module BfNumber {
  import opened Limbs
  import opened Bits
  import opened Rounding
  import opened BfRound
  import opened BfExact
  import opened BfDirected

  class BfT {
    var sign: bool
    var expn: int
    var tab: seq<Limb>

    constructor ()
      ensures !sign && expn == BF_EXP_ZERO && tab == []
    {
      sign, expn, tab := false, BF_EXP_ZERO, [];
    }

    function Value(): Num
      reads this
    {
      Num(sign, expn, tab)
    }

    // bf_set_zero
    method SetZero(isNeg: bool)
      modifies this
      ensures Value() == Num(isNeg, BF_EXP_ZERO, [])
    {
      sign, expn, tab := isNeg, BF_EXP_ZERO, [];
    }

    // bf_set_overflow
    method SetOverflow(isNeg: bool, prec: nat, flags: Flags) returns (ret: set<Status>)
      requires flags.expBits >= 1 && (prec >= 1 || OverflowsToInfinity(isNeg, prec, flags.mode))
      modifies this
      ensures sign == isNeg && ret == {OVERFLOW, INEXACT}
      ensures if OverflowsToInfinity(isNeg, prec, flags.mode) then IsInfinite(Value())
              else IsLargest(Value(), prec, EMax(flags))
      ensures IsInfinite(Value()) <==>
              prec == 0x3fff_ffff_ffff_ffff || !(Toward(isNeg, flags.mode) || flags.mode == RNDF)
      ensures !IsInfinite(Value()) ==>
              SameValue(Val(tab), Scale(Value()), Pow2(prec) - 1, Pow2(flags.expBits - 1) - prec)
    {
      hide Val;
      hide Pow;
      hide Pow2;
      if OverflowsToInfinity(isNeg, prec, flags.mode) {
        sign, expn, tab := isNeg, BF_EXP_INF, [];
      } else {
        var l := (prec + LIMB_BITS - 1) / LIMB_BITS;
        var low := -(prec as int) % LIMB_BITS;
        LargestLength(prec, l, low);
        tab := OnesFrom(low, l);
        expn := EMax(flags);
        sign := isNeg;
        LargestIs(Value(), prec, EMax(flags));
        hide SameValue;
      }
      ret := {OVERFLOW, INEXACT};
    }

    // The part of __bf_round for a precision of zero or less.
    method RoundNoBits(prec: int, ghost mode: RndMode, addOne: bool)
      requires Normal(tab) && prec <= 0
      requires var v, u := Val(tab), Unit(|tab|, prec);
        u > 0 && addOne == RoundsUp(v % u, u, (v / u) % 2 == 1, sign, mode)
      modifies this
      ensures sign == old(sign) && NoBitsResult(old(Value()), Value(), prec, RoundedMantissa(old(Value()), prec, mode))
    {
      hide Val;
      hide Unit;
      hide RoundedMantissa;
      hide SameValue;
      NoBitsLeft(Value(), prec, mode, addOne);
      UnitPositive(|tab|, prec);
      if addOne {
        tab := [HALF];
        expn := expn + 1 - prec;
      } else {
        SetZero(sign);
      }
    }

    // __bf_round, for the mantissa in all of tab
    method Round(prec1: nat, flags: Flags, ret0: set<Status>) returns (ret: set<Status>)
      requires Normal(tab) && flags.expBits >= 1 && HasRoom(ExactOf(Value()), prec1, flags)
      requires flags.subnormal && !flags.radpntPrec ==> prec1 != BF_PREC_INF
      modifies this
      ensures Valid(ExactOf(old(Value()))) && RoundsTo(ExactOf(old(Value())), Value(), ret0, ret, prec1, flags)
      ensures Laws(ExactOf(old(Value())), Value(), ret0, ret, prec1, flags)
    {
      hide Laws;
      hide HasRoom;
      hide RoundResult;
      hide RoundsTo;
      ghost var a := Value();
      ret := RoundInPlace(prec1, flags, ret0);
      ResultIsRounded(a, Value(), ret0, ret, prec1, flags);
      LawsHold(ExactOf(a), Value(), ret0, ret, prec1, flags);
    }

    // The steps of __bf_round.
    method RoundInPlace(prec1: nat, flags: Flags, ret0: set<Status>) returns (ret: set<Status>)
      requires Normal(tab) && flags.expBits >= 1 && HasRoom(ExactOf(Value()), prec1, flags)
      requires flags.subnormal && !flags.radpntPrec ==> prec1 != BF_PREC_INF
      modifies this
      ensures RoundResult(old(Value()), Value(), ret0, ret, prec1, flags)
    {
      hide Val;
      hide Pow;
      hide Pow2;
      hide Unit;
      hide RoundsUp;
      hide RoundedMantissa;
      hide SameValue;
      hide Normal;
      hide NoBitsResult;
      hide HasRoom;
      hide EMin;
      hide EMax;
      hide EffectivePrec;
      hide OverflowsToInfinity;
      hide IsLargest;
      hide IsInfinite;
      ghost var a := Value();
      var eMin, eMax := EMin(flags), EMax(flags);
      var prec := EffectivePrec(expn, prec1, flags);
      ret := ret0;
      var addOne, inexact := GetRndAdd(sign, tab, prec, flags.mode);
      if inexact {
        ret := ret + {INEXACT};
      }
      MantissaIs(a, prec, flags.mode, addOne);
      if prec <= 0 {
        RoundNoBits(prec, flags.mode, addOne);
        ret := ret + {UNDERFLOW, INEXACT};
        return;
      }
      if addOne {
        MustDrop(a, prec, flags.mode);
        var t, e := AddOne(tab, expn, prec);
        tab, expn := t, e;
      }
      ghost var v' := Val(tab);
      MantissaKept(a, prec, flags.mode, addOne, v', expn, v' - v' % Unit(|tab|, prec));
      if expn < eMin {
        if flags.subnormal {
          // a subnormal result underflows only when it is inexact
          if INEXACT in ret {
            ret := ret + {UNDERFLOW};
          }
        } else {
          ret := ret + {UNDERFLOW, INEXACT};
          SetZero(sign);
          return;
        }
      }
      if expn > eMax {
        RoomForLargest(a, prec1, flags, expn);
        ret := SetOverflow(sign, prec1, flags);
        return;
      }
      var kept := KeepBits(tab, prec);
      KeptValue(a.tab, kept, v' - v' % Unit(|tab|, prec), RoundedMantissa(a, prec, flags.mode), a.expn, expn);
      tab := kept;
    }

    // The part of bf_normalize_and_round that removes high zero limbs and shifts the most significant
    // bit to the top, for a number whose highest limb that is not zero is limb l - 1.
    method Normalize(l: nat)
      requires 1 <= l <= |tab| && tab[l - 1] != 0 && Val(tab[..l]) == Val(tab)
      modifies this
      ensures sign == old(sign) && expn <= old(expn) && Normal(tab)
      ensures EqualValue(ExactOf(Value()), ExactOf(old(Value())))
    {
      hide Val;
      hide Pow2;
      hide Pow;
      hide EqualValue;
      ghost var a, t := Value(), tab[..l];
      var shift := Clz(tab[l - 1]);
      TopShift(t, shift);
      expn := expn - (|tab| - l) * LIMB_BITS;
      if shift != 0 {
        tab := ShiftLeft(tab[..l], shift);
      } else {
        tab := tab[..l];
        assert Pow2(0) == 1 by { Pow2Small(); }
      }
      expn := expn - shift;
      ShiftedValue(a, Value(), l, shift);
    }

    // bf_normalize_and_round
    method NormalizeAndRound(prec1: nat, flags: Flags) returns (ret: set<Status>)
      requires flags.expBits >= 1 && HasRoom(ExactOf(Value()), prec1, flags)
      requires flags.subnormal && !flags.radpntPrec ==> prec1 != BF_PREC_INF
      modifies this
      ensures Val(old(tab)) == 0 ==> Value() == Num(old(sign), BF_EXP_ZERO, []) && ret == {}
      ensures Val(old(tab)) != 0 ==> Valid(ExactOf(old(Value()))) &&
                                     RoundsTo(ExactOf(old(Value())), Value(), {}, ret, prec1, flags)
      ensures Val(old(tab)) != 0 ==> Laws(ExactOf(old(Value())), Value(), {}, ret, prec1, flags)
    {
      hide Val;
      hide Pow2;
      hide Laws;
      hide RoundsTo;
      hide EqualValue;
      hide Normal;
      ghost var a := Value();
      var l := UsedLimbs(tab);
      if l == 0 {
        tab, expn := [], BF_EXP_ZERO;
        return {};
      }
      Normalize(l);
      ghost var n := Value();
      ValidExact(a);
      NormalRange(tab);
      ValidExact(n);
      EqualRoom(ExactOf(n), ExactOf(a), prec1, flags);
      hide Valid;
      hide HasRoom;
      ret := Round(prec1, flags, {});
      EqualRounds(ExactOf(n), ExactOf(a), Value(), {}, ret, prec1, flags);
      LawsHold(ExactOf(a), Value(), {}, ret, prec1, flags);
    }
  }

  lemma ValidExact(a: Num)
    requires Val(a.tab) != 0
    ensures Valid(ExactOf(a))
  {
    hide Val;
    ValBound(a.tab);
  }

  lemma MustDrop(a: Num, prec: int, mode: RndMode)
    requires var v, u := Val(a.tab), Unit(|a.tab|, prec); u > 0 && RoundsUp(v % u, u, (v / u) % 2 == 1, a.sign, mode)
    ensures prec < LIMB_BITS * |a.tab|
  {
    if prec >= LIMB_BITS * |a.tab| {
      NothingToAdd(a.tab, prec, a.sign, mode);
    }
  }

  // The limbs for prec bits, and the bits that are not used.
  lemma LargestLength(prec: nat, l: int, low: int)
    requires prec >= 1 && l == (prec + LIMB_BITS - 1) / LIMB_BITS && low == -(prec as int) % LIMB_BITS
    ensures l >= 1 && low == LIMB_BITS * l - prec
  {
  }

  // limb_mask(low, LIMB_BITS - 1) followed by limbs with all bits set
  method OnesFrom(low: nat, l: nat) returns (tab: seq<Limb>)
    requires low < LIMB_BITS && l >= 1
    ensures |tab| == l && Val(tab) + Pow2(low) == Pow(l)
  {
    LowMask(low);
    hide Val;
    hide Pow2;
    tab := [B - Pow2(low)];
    ValOne(B - Pow2(low));
    PowOne();
    while |tab| < l
      invariant 1 <= |tab| <= l && Val(tab) + Pow2(low) == Pow(|tab|)
    {
      ValSnoc(tab, B - 1);
      AllOnes(Val(tab), |tab|);
      tab := tab + [B - 1];
    }
  }

  // The number of limbs up to the highest one that is not zero.
  method UsedLimbs(tab: seq<Limb>) returns (l: nat)
    ensures l <= |tab| && Val(tab[..l]) == Val(tab) && (l > 0 ==> tab[l - 1] != 0) && (l == 0 <==> Val(tab) == 0)
  {
    hide Val;
    l := |tab|;
    assert tab[..l] == tab;
    while l > 0 && tab[l - 1] == 0
      invariant 0 <= l <= |tab| && Val(tab[..l]) == Val(tab)
    {
      assert tab[..l] == tab[..l - 1] + [tab[l - 1]];
      ValSnoc(tab[..l - 1], tab[l - 1]);
      l := l - 1;
    }
    if l == 0 {
      ValZeros(tab[..0]);
    } else {
      ValPositive(tab, l - 1);
    }
  }

  lemma LowMask(low: nat)
    requires low < LIMB_BITS
    ensures 0 < Pow2(low) < B
  {
    BitTop(low);
  }

  lemma AllOnes(v: int, n: nat)
    ensures v + (B - 1) * Pow(n) - v == Pow(n + 1) - Pow(n)
  {
  }

  // ----- Normalization -----

  method ShiftLeft(tab: seq<Limb>, shift: nat) returns (r: seq<Limb>)
    requires 0 < shift < LIMB_BITS && Val(tab) * Pow2(shift) < Pow(|tab|)
    ensures |r| == |tab| && Val(r) == Val(tab) * Pow2(shift)
  {
    hide Val;
    hide Pow;
    hide Pow2;
    Pow2Split(shift);
    r := [];
    var v: Limb := 0;
    DivZero(0, Pow2(LIMB_BITS - shift));
    ValZeros([]);
    assert tab[..0] == [];
    var i := 0;
    while i < |tab|
      invariant 0 <= i <= |tab| && |r| == i
      invariant Val(r) + (v / Pow2(LIMB_BITS - shift)) * Pow(i) == Val(tab[..i]) * Pow2(shift)
    {
      var a := tab[i];
      var x := ShiftedLimb(a, v, shift);
      ValSnoc(r, x);
      assert tab[..i + 1] == tab[..i] + [a];
      ValSnoc(tab[..i], a);
      LeftStep(Val(r), Val(tab[..i]), a, v / Pow2(LIMB_BITS - shift), a / Pow2(LIMB_BITS - shift), x, Pow2(shift),
               Pow(i), i);
      r := r + [x];
      v := a;
      i := i + 1;
    }
    assert tab[..|tab|] == tab;
    ValBound(r);
    NothingOut(Val(r), v / Pow2(LIMB_BITS - shift), Pow(|tab|), Val(tab) * Pow2(shift));
  }

  // (a << shift) | (v >> (LIMB_BITS - shift))
  function ShiftedLimb(a: Limb, v: Limb, shift: nat): (x: Limb)
    requires 0 < shift < LIMB_BITS
    ensures x == (a * Pow2(shift)) % B + v / Pow2(LIMB_BITS - shift)
    ensures a * Pow2(shift) == (a / Pow2(LIMB_BITS - shift)) * B + (a * Pow2(shift)) % B
    ensures v / Pow2(LIMB_BITS - shift) >= 0
  {
    Pow2Split(shift);
    LowBits(0, v, Pow2(shift), Pow2(LIMB_BITS - shift));
    LowBits(v / Pow2(LIMB_BITS - shift), a, Pow2(shift), Pow2(LIMB_BITS - shift));
    (a * Pow2(shift)) % B + v / Pow2(LIMB_BITS - shift)
  }

  lemma LeftStep(r: int, t: int, a: int, hi: int, hi': int, x: int, p: int, w: int, i: nat)
    requires r + hi * w == t * p && x == a * p - hi' * B + hi && w == Pow(i)
    ensures r + x * w + hi' * Pow(i + 1) == (t + a * w) * p
  {
    assert Pow(i + 1) == B * w;
    assert (a * p - hi' * B + hi) * w == (a * p) * w - (hi' * B) * w + hi * w;
    assert (hi' * B) * w == hi' * (B * w);
    assert (t + a * w) * p == t * p + (a * w) * p;
    assert (a * w) * p == (a * p) * w;
  }

  lemma NothingOut(r: int, hi: int, w: int, v: int)
    requires r + hi * w == v && v < w && r >= 0 && hi >= 0 && w > 0
    ensures r == v
  {
    if hi > 0 {
      MulMono(1, hi, w);
    }
  }

  // The count of leading zeros of the top limb: shifting by it sets the most significant bit.
  lemma TopShift(t: seq<Limb>, shift: nat)
    requires t != [] && t[|t| - 1] > 0 && shift == Clz(t[|t| - 1])
    ensures shift < LIMB_BITS && Val(t) * Pow2(shift) < Pow(|t|) <= 2 * (Val(t) * Pow2(shift))
    ensures shift == 0 ==> Normal(t)
    ensures forall r: seq<Limb> :: |r| == |t| && Val(r) == Val(t) * Pow2(shift) ==> Normal(r)
  {
    var n, x := |t| - 1, t[|t| - 1];
    assert t == t[..n] + [x];
    hide Val;
    ValSnoc(t[..n], x);
    assert Pow(|t|) == B * Pow(n);
    hide Pow;
    var k := BitLen(x);
    LeadingBits(x, shift, k);
    hide Pow2;
    ValBound(t[..n]);
    TopArith(Val(t), Val(t[..n]), x, Pow(n), Pow2(k - 1), Pow2(shift));
    forall r: seq<Limb> | |r| == |t| && Val(r) == Val(t) * Pow2(shift) ensures Normal(r) {
      StillNormal(r, Val(r));
    }
  }

  // The bits of a limb that is shifted to the top.
  lemma LeadingBits(x: Limb, shift: nat, k: nat)
    requires x > 0 && shift == Clz(x) && k == BitLen(x)
    ensures k >= 1 && shift < LIMB_BITS && Pow2(k - 1) <= x < 2 * Pow2(k - 1) && Pow2(k - 1) > 0
    ensures Pow2(shift) * (2 * Pow2(k - 1)) == B
    ensures shift == 0 ==> x >= HALF
  {
    Pow2Limb();
    assert Pow2(0) == 1;
    BitLenBound(x, LIMB_BITS);
    Pow2Split(shift);
    assert Pow2(k) == 2 * Pow2(k - 1);
  }

  lemma TopArith(v: int, lo: int, x: int, w: int, h: int, s: int)
    requires v == lo + x * w && 0 <= lo < w && h <= x < 2 * h && s > 0 && s * (2 * h) == B && h > 0
    ensures v * s < B * w <= 2 * (v * s)
  {
    MulMono(x + 1, 2 * h, w);
    assert (x + 1) * w == x * w + w;
    MulStrict(v, (2 * h) * w, s);
    assert ((2 * h) * w) * s == (s * (2 * h)) * w;
    MulMono(h, x, w);
    MulMono(h * w, v, s);
    assert 2 * ((h * w) * s) == (s * (2 * h)) * w;
  }

  lemma ShiftedValue(a: Num, n: Num, l: nat, shift: nat)
    requires l <= |a.tab| && |n.tab| == l && Val(n.tab) == Val(a.tab) * Pow2(shift) &&
             n.expn == a.expn - (|a.tab| - l) * LIMB_BITS - shift
    ensures EqualValue(ExactOf(n), ExactOf(a))
  {
    hide Val;
    assert Pow2(0) == 1;
  }
}
