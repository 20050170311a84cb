// __bf_div of quickjs/libbf.c: the quotient of two numbers, correctly rounded, from a truncated
// quotient of limbs and a sticky bit.

module BfDiv {
  import opened Limbs
  import opened LimbOps
  import opened LimbDivLarge
  import opened Bits
  import opened Rounding
  import opened BfRound
  import opened BfExact
  import opened BfDirected
  import opened BfNumber

  predicate IsFinite(a: Num) {
    BF_EXP_ZERO < a.expn < BF_EXP_INF
  }

  // Numbers as every operation leaves them: zero, infinity, not a number, or normalized.
  predicate WellFormed(a: Num) {
    if IsFinite(a) then Normal(a.tab)
    else a.tab == [] && (a.expn == BF_EXP_ZERO || a.expn == BF_EXP_INF || a.expn == BF_EXP_NAN)
  }

  function RoundSticky(x: Limb, cut: bool): Limb {
    if cut && x % 2 == 0 then x + 1 else x
  }

  // Setting the last bit of the lowest limb sets the last bit of the value.
  lemma StickyLimb(t: seq<Limb>, cut: bool)
    requires t != []
    ensures Val(t[0 := RoundSticky(t[0], cut)]) == Sticky(Val(t), cut)
  {
    hide Val;
    var r := t[0 := RoundSticky(t[0], cut)];
    HeadTail(t);
    HeadTail(r);
    assert r[1..] == t[1..];
    SameParity(Val(t), t[0], Val(t[1..]));
  }

  lemma SameParity(v: int, x: int, up: int)
    requires v == x + up * B
    ensures v % 2 == x % 2
  {
    DivIs(v, 2, up * HALF + x / 2, x % 2);
  }

  // Rounding never asks for more bits than the precision given.
  lemma PrecAtMost(expn: int, prec1: nat, flags: Flags)
    requires flags.expBits >= 1 && !flags.radpntPrec
    ensures EffectivePrec(expn, prec1, flags) <= prec1
  {
  }

  lemma WidthAtLeast(x: Exact, w: nat)
    requires Valid(x) && w >= 1 && Pow2(w - 1) * x.den <= x.num
    ensures Width(x) >= w
  {
    WidthBounds(x);
    var k := Width(x);
    MulCancelLess(Pow2(w - 1), Pow2(k), x.den);
    hide Pow2;
    PowerLess(w - 1, k);
  }

  // a / b for finite numbers
  ghost function QuotientOf(a: Num, b: Num): Exact {
    Exact(a.sign != b.sign, Val(a.tab) * Pow(|b.tab|), Val(b.tab), a.expn - b.expn - LIMB_BITS * |a.tab|)
  }

  lemma QuotientValid(a: Num, b: Num)
    requires Normal(a.tab) && Normal(b.tab)
    ensures Valid(QuotientOf(a, b))
  {
    hide Val;
    NormalRange(a.tab);
    NormalRange(b.tab);
    MulMono(1, Val(a.tab), Pow(|b.tab|));
  }

  // What division returns.
  ghost predicate DivResult(a: Num, b: Num, r: Num, ret: set<Status>, prec: nat, flags: Flags)
    requires flags.expBits >= 1
  {
    var sign := a.sign != b.sign;
    if a.expn == BF_EXP_NAN || b.expn == BF_EXP_NAN then r.tab == [] && r.expn == BF_EXP_NAN && ret == {}
    else if (a.expn == BF_EXP_INF && b.expn == BF_EXP_INF) || (a.expn == BF_EXP_ZERO && b.expn == BF_EXP_ZERO) then
      r.tab == [] && r.expn == BF_EXP_NAN && ret == {INVALID_OP}
    else if a.expn == BF_EXP_INF then r == Num(sign, BF_EXP_INF, []) && ret == {}
    else if b.expn == BF_EXP_INF || a.expn == BF_EXP_ZERO then r == Num(sign, BF_EXP_ZERO, []) && ret == {}
    else if b.expn == BF_EXP_ZERO then r == Num(sign, BF_EXP_INF, []) && ret == {DIVIDE_ZERO}
    else Valid(QuotientOf(a, b)) && RoundsTo(QuotientOf(a, b), r, {}, ret, prec, flags)
  }

  // The dividend shifted up by whole limbs.
  lemma Shifted(a: seq<Limb>, z: seq<Limb>)
    requires forall k :: 0 <= k < |z| ==> z[k] == 0
    ensures Val(z + a) == Val(a) * Pow(|z|)
  {
    ValConcat(z, a);
    ValZeros(z);
  }

  // mp_divnorm on the limbs of a, shifted up to n + nb limbs, and those of b: the quotient limbs and
  // whether something was left over.
  method QuotientLimbs(a: seq<Limb>, b: seq<Limb>, n: nat) returns (q: seq<Limb>, cut: bool)
    requires Normal(a) && Normal(b) && n >= |a|
    ensures Val(b) > 0 && |q| == n + 1 && Val(q) == (Val(a) * Pow(n + |b| - |a|)) / Val(b)
    ensures cut <==> (Val(a) * Pow(n + |b| - |a|)) % Val(b) != 0
  {
    hide Val;
    hide Pow;
    var nb := |b|;
    var na := n + nb;
    var d := na - |a|;
    var taba := new Limb[na + 1];
    var i := 0;
    while i < d
      invariant 0 <= i <= d && forall k :: 0 <= k < i ==> taba[k] == 0
    {
      taba[i] := 0;
      i := i + 1;
    }
    i := 0;
    while i < |a|
      invariant 0 <= i <= |a| && forall k :: 0 <= k < d ==> taba[k] == 0
      invariant forall k :: 0 <= k < i ==> taba[d + k] == a[k]
    {
      taba[d + i] := a[i];
      i := i + 1;
    }
    ghost var z := taba[..d];
    assert taba[0..0 + na] == z + a;
    Shifted(a, z);
    var tabb := new Limb[nb](i requires 0 <= i < nb => b[i]);
    assert tabb[0..0 + nb] == b;
    var tabq := new Limb[n + 1];
    MpDivnorm(tabq, 0, taba, 0, na, tabb, 0, nb);
    assert tabb[0..0 + nb] == b;
    cut := MpScanNz(taba, 0, nb);
    q := tabq[..];
    assert tabq[0..0 + (n + 1)] == q;
    AtBound(taba, 0, nb);
    NormalRange(b);
    DivIs(Val(a) * Pow(d), Val(b), Val(q), At(taba, 0, nb));
  }

  // The quotient has at least 64 * n bits.
  lemma QuotientWide(a: Num, b: Num, n: nat, x: Exact)
    requires Normal(a.tab) && Normal(b.tab) && n >= |a.tab| && n >= 1
    requires x.num == Val(a.tab) * Pow(n + |b.tab| - |a.tab|) && x.den == Val(b.tab)
    ensures Valid(x) && Width(x) >= LIMB_BITS * n
  {
    hide Val;
    var la, nb := |a.tab|, |b.tab|;
    NormalRange(a.tab);
    NormalRange(b.tab);
    PowAdd(la, n + nb - la);
    PowAdd(n, nb);
    PowPow2(n);
    assert Pow2(LIMB_BITS * n) == 2 * Pow2(LIMB_BITS * n - 1);
    hide Pow2;
    hide Pow;
    WideArith(Val(a.tab), Val(b.tab), Pow(la), Pow(n + nb - la), Pow(n), Pow(nb), Pow2(LIMB_BITS * n - 1), x.num);
    WidthAtLeast(x, LIMB_BITS * n);
  }

  lemma WideArith(a: int, b: int, pa: int, pd: int, pn: int, pb: int, h: int, num: int)
    requires pa <= 2 * a && 0 < b < pb && pa * pd == pn * pb && pn == 2 * h && h >= 1 && pd >= 1 && num == a * pd
    ensures h * b <= num && b <= num
  {
    MulMono(pa, 2 * a, pd);
    assert (2 * a) * pd == 2 * num;
    assert (2 * h) * pb == 2 * (h * pb);
    MulMono(b, pb, h);
    MulMono(1, h, b);
  }

  lemma SameQuotient(a: Num, b: Num, n: nat, x: Exact)
    requires Normal(a.tab) && Normal(b.tab) && n >= |a.tab|
    requires x == Exact(a.sign != b.sign, Val(a.tab) * Pow(n + |b.tab| - |a.tab|), Val(b.tab),
                        a.expn - b.expn - LIMB_BITS * n)
    ensures EqualValue(x, QuotientOf(a, b))
  {
    hide Val;
    var k := n - |a.tab|;
    PowPow2(k);
    PowAdd(k, |b.tab|);
    assert Pow2(0) == 1;
    hide Pow2;
    hide Pow;
    var v, p, q, w := Val(a.tab), Pow(k), Pow(|b.tab|), Val(b.tab);
    assert (v * (p * q)) * w == ((v * q) * w) * p;
    assert k == 0 ==> p == 1 by {
      PowOne();
    }
  }

  // The finite case of __bf_div.
  method DivFinite(r: BfT, a: BfT, b: BfT, prec: nat, flags: Flags) returns (ret: set<Status>)
    requires r != a && r != b && Normal(a.tab) && Normal(b.tab)
    requires flags.expBits >= 1 && !flags.radpntPrec && prec >= 1 && (flags.subnormal ==> prec != BF_PREC_INF)
    modifies r
    ensures var x := QuotientOf(a.Value(), b.Value()); Valid(x) && RoundsTo(x, r.Value(), {}, ret, prec, flags)
  {
    hide Val;
    hide Pow;
    hide RoundsTo;
    hide Normal;
    hide Width;
    hide Valid;
    hide EqualValue;
    // enough limbs for the two bits the sticky rounding relies on
    var precl := (prec + 2 + LIMB_BITS - 1) / LIMB_BITS;
    var n := if |a.tab| > precl then |a.tab| else precl;
    var q, cut := QuotientLimbs(a.tab, b.tab, n);
    // what is left over goes into the lowest bit
    StickyLimb(q, cut);
    r.tab := q[0 := RoundSticky(q[0], cut)];
    r.expn := a.expn - b.expn + LIMB_BITS;
    r.sign := a.sign != b.sign;
    ghost var t := r.Value();
    ghost var x := Exact(r.sign, Val(a.tab) * Pow(n + |b.tab| - |a.tab|), Val(b.tab), a.expn - b.expn - LIMB_BITS * n);
    assert ExactOf(t) == Exact(x.sign, Sticky(Val(q), cut), 1, x.e);
    QuotientWide(a.Value(), b.Value(), n, x);
    NotZero(x, cut);
    ret := r.NormalizeAndRound(prec, flags);
    PrecAtMost(Expn(x), prec, flags);
    StickyExact(x, Val(q), cut, r.Value(), {}, ret, prec, flags);
    SameQuotient(a.Value(), b.Value(), n, x);
    QuotientValid(a.Value(), b.Value());
    EqualRounds(x, QuotientOf(a.Value(), b.Value()), r.Value(), {}, ret, prec, flags);
  }

  lemma NotZero(x: Exact, cut: bool)
    requires Valid(x)
    ensures Sticky(x.num / x.den, cut) >= 1
  {
    AtLeastOne(x.num, x.den);
  }

  // __bf_div
  method Div(r: BfT, a: BfT, b: BfT, prec: nat, flags: Flags) returns (ret: set<Status>)
    requires r != a && r != b && WellFormed(a.Value()) && WellFormed(b.Value())
    requires flags.expBits >= 1 && !flags.radpntPrec && prec >= 1 && (flags.subnormal ==> prec != BF_PREC_INF)
    modifies r
    ensures DivResult(a.Value(), b.Value(), r.Value(), ret, prec, flags)
    ensures IsFinite(a.Value()) && IsFinite(b.Value()) ==>
              Laws(QuotientOf(a.Value(), b.Value()), r.Value(), {}, ret, prec, flags)
  {
    hide Val;
    hide RoundsTo;
    hide Valid;
    hide Laws;
    var rSign := a.sign != b.sign;
    if a.expn >= BF_EXP_INF || b.expn >= BF_EXP_INF {
      if a.expn == BF_EXP_NAN || b.expn == BF_EXP_NAN {
        r.sign, r.expn, r.tab := false, BF_EXP_NAN, [];
        return {};
      } else if a.expn == BF_EXP_INF && b.expn == BF_EXP_INF {
        r.sign, r.expn, r.tab := false, BF_EXP_NAN, [];
        return {INVALID_OP};
      } else if a.expn == BF_EXP_INF {
        r.sign, r.expn, r.tab := rSign, BF_EXP_INF, [];
        return {};
      } else {
        r.SetZero(rSign);
        return {};
      }
    } else if a.expn == BF_EXP_ZERO {
      if b.expn == BF_EXP_ZERO {
        r.sign, r.expn, r.tab := false, BF_EXP_NAN, [];
        return {INVALID_OP};
      } else {
        r.SetZero(rSign);
        return {};
      }
    } else if b.expn == BF_EXP_ZERO {
      r.sign, r.expn, r.tab := rSign, BF_EXP_INF, [];
      return {DIVIDE_ZERO};
    }
    ret := DivFinite(r, a, b, prec, flags);
    if IsFinite(a.Value()) && IsFinite(b.Value()) {
      LawsHold(QuotientOf(a.Value(), b.Value()), r.Value(), {}, ret, prec, flags);
    }
  }
}
