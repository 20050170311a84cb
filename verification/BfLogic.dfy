// bf_logic_op of quickjs/libbf.c: OR, XOR and AND of integers kept as sign and magnitude, as on
// two's complement integers of unlimited size.

module BfLogic {
  import opened Limbs
  import opened Bits
  import opened Rounding
  import opened BfRound
  import opened BfExact
  import opened BfNumber
  import opened BfCancel
  import opened BfDiv
  import opened BfAdd

  function Abs(x: int): nat {
    if x < 0 then -x else x
  }

  // a holds the integer x; as every operation leaves it, the lowest limb is not zero.
  ghost predicate IsInt(a: Num, x: int) {
    if x == 0 then a.tab == [] && a.expn == BF_EXP_ZERO
    else Normal(a.tab) && a.tab[0] != 0 && (a.sign <==> x < 0) &&
         SameValue(Val(a.tab), a.expn - LIMB_BITS * |a.tab|, Abs(x), 0)
  }

  // BF_RNDZ, without flags
  const Exactly: Flags := Flags(RNDZ, false, false, 61)

  // The integers below 2^n in absolute value.
  ghost predicate Within(x: int, n: nat) {
    Abs(x) < Pow2(n)
  }

  // The exponent range of the operands leaves room for one more limb.
  const MAX_BITS: int := 0x1000_0000_0000_0000 - 65

  // ----- Exact results -----

  // The units in the last place of unlimited precision.
  lemma ExactUlps(x: Exact, p: nat)
    requires Valid(x) && x.den == 1 && Width(x) <= p
    ensures var u := Ulps(x, p, RNDZ); !Inexact(x, p) && u != Pow2(p) && SameValue(u, Expn(x) - p, x.num, x.e)
  {
    var w := Width(x);
    WidthBounds(x);
    hide Width;
    assert Pow2(0) == 1;
    Pow2Add(w, p - w);
    hide Pow2;
    var k := Pow2(p - w);
    assert Top(x, p) == x.num * k && Bottom(x, p) == 1;
    hide Top;
    hide Bottom;
    RoundExactUnits(x.num, k, x.sign, RNDZ);
    MulStrict(x.num, Pow2(w), k);
    ScaledSame(x.num, k, p - w, x.e);
  }

  lemma ScaledSame(m: int, k: int, n: nat, e: int)
    requires k == Pow2(n)
    ensures SameValue(m * k, e - n, m, e)
  {
    assert Pow2(0) == 1;
    hide Pow2;
  }

  // Rounding to unlimited precision changes nothing.
  lemma ExactRounds(x: Exact, r: Num, ret: set<Status>)
    requires Valid(x) && x.den == 1 && RoundsTo(x, r, {}, ret, BF_PREC_INF, Exactly)
    requires Width(x) <= BF_PREC_INF && EMin(Exactly) <= Expn(x) <= EMax(Exactly)
    ensures r.sign == x.sign && Normal(r.tab) && r.tab[0] != 0 &&
            SameValue(Val(r.tab), r.expn - LIMB_BITS * |r.tab|, x.num, x.e)
  {
    hide Val;
    hide Pow2;
    hide IsLargest;
    hide IsInfinite;
    hide OverflowsToInfinity;
    hide EMin;
    hide EMax;
    hide Width;
    hide Inexact;
    hide SameValue;
    hide Ulps;
    ExactUlps(x, BF_PREC_INF);
    var u := Ulps(x, BF_PREC_INF, RNDZ);
    SameTrans(Val(r.tab), r.expn - LIMB_BITS * |r.tab|, u, Expn(x) - BF_PREC_INF, x.num, x.e);
  }

  lemma RangeBits(m: nat, e: int, x: nat, r: Exact)
    requires m >= 1 && SameValue(m, e, x, 0) && x < Pow2(EMax(Exactly)) && r.num == m && r.den == 1 && r.e == e &&
             e >= -BF_PREC_INF / 2
    ensures Valid(r) && Width(r) <= BF_PREC_INF && EMin(Exactly) <= Expn(r) <= EMax(Exactly)
  {
    ExponentConstants();
    hide EMax;
    hide EMin;
    DivIs(m, 1, m, 0);
    WidthBounds(r);
    hide Width;
    if e >= 0 {
      HighRange(m, e, x, Width(r), EMax(Exactly));
    } else {
      LowRange(m, -e, x, Width(r), EMax(Exactly));
    }
    hide Pow2;
  }

  lemma HighRange(m: nat, e: nat, x: nat, w: nat, k: nat)
    requires w >= 1 && Pow2(w - 1) <= m && m * Pow2(e) == x && x < Pow2(k)
    ensures w - 1 + e < k
  {
    Pow2Add(w - 1, e);
    hide Pow2;
    MulMono(Pow2(w - 1), m, Pow2(e));
    PowerLess(w - 1 + e, k);
  }

  lemma PositiveFactor(x: nat, p: nat)
    requires x * p >= 1
    ensures x >= 1
  {
  }

  lemma LowRange(m: nat, e: nat, x: nat, w: nat, k: nat)
    requires w >= 1 && Pow2(w - 1) <= m < Pow2(w) && m == x * Pow2(e) && 1 <= m && x < Pow2(k)
    ensures w - 1 < k + e && e < w
  {
    Pow2Add(k, e);
    hide Pow2;
    PositiveFactor(x, Pow2(e));
    MulStrict(x, Pow2(k), Pow2(e));
    PowerLess(w - 1, k + e);
    MulMono(1, x, Pow2(e));
    PowerLess(e, w);
  }

  lemma ExponentConstants()
    ensures EMax(Exactly) == 0x1000_0000_0000_0000 && EMin(Exactly) == 3 - 0x1000_0000_0000_0000
  {
    Pow2Limb();
    assert Pow2(63) == 2 * Pow2(62) && Pow2(62) == 2 * Pow2(61) && Pow2(61) == 2 * Pow2(60);
  }

  // ----- Sums of integers -----

  // The last bit of an integer is not far below one.
  lemma LowExponent(a: Num, x: int)
    requires IsInt(a, x) && x != 0
    ensures a.expn - LIMB_BITS * |a.tab| > -LIMB_BITS
  {
    hide Val;
    var k := LIMB_BITS * |a.tab| - a.expn;
    if k >= LIMB_BITS {
      HeadTail(a.tab);
      Pow2Limb();
      Pow2Add(k - LIMB_BITS, LIMB_BITS);
      hide Pow2;
      LowestZero(Val(a.tab), Abs(x), Pow2(k - LIMB_BITS), a.tab[0], Val(a.tab[1..]));
    }
  }

  // The lowest limb of a multiple of B.
  lemma LowestZero(v: int, x: int, p: int, low: int, rest: int)
    requires v == x * (p * B) && v == low + B * rest && 0 <= low < B
    ensures low == 0
  {
    assert x * (p * B) == (x * p) * B;
    assert B * (x * p - rest) == low;
  }

  lemma SignedInt(a: Num, x: int, low: int)
    requires IsInt(a, x) && x != 0 && low <= a.expn - LIMB_BITS * |a.tab|
    ensures SameValue(Signed(a, a.sign, low), low, x, 0)
  {
    hide Val;
    var e := a.expn - LIMB_BITS * |a.tab|;
    var k := if low <= 0 then low else 0;
    hide SameValue;
    SameAt(Val(a.tab), e, Abs(x), 0, k);
    SameAt(Signed(a, a.sign, low), low, x, 0, k);
    Pow2Add(e - low, low - k);
    hide Pow2;
    SignedArith(Val(a.tab), Pow2(e - low), Pow2(low - k), Pow2(e - k), x, Abs(x), Pow2(0 - k), a.sign,
                Signed(a, a.sign, low));
  }

  lemma SignedArith(v: int, p: int, q: int, w: int, x: int, m: int, n: int, neg: bool, s: int)
    requires w == p * q && v * w == m * n && s == (if neg then -1 else 1) * (v * p) && x == if neg then -m else m
    ensures s * q == x * n
  {
    assert v * (p * q) == (v * p) * q;
    assert (-(v * p)) * q == -((v * p) * q) && (-m) * n == -(m * n);
  }

  lemma SameSum(m1: int, m2: int, low: int, x: int, y: int)
    requires SameValue(m1, low, x, 0) && SameValue(m2, low, y, 0)
    ensures SameValue(m1 + m2, low, x + y, 0)
  {
    var k := if low <= 0 then low else 0;
    hide SameValue;
    SameAt(m1, low, x, 0, k);
    SameAt(m2, low, y, 0, k);
    SameAt(m1 + m2, low, x + y, 0, k);
    hide Pow2;
    var p, q := Pow2(low - k), Pow2(0 - k);
    assert (m1 + m2) * p == m1 * p + m2 * p && (x + y) * q == x * q + y * q;
  }

  // Equal values have equal signs and equal magnitudes.
  lemma SameSign(m: int, low: int, z: int)
    requires SameValue(m, low, z, 0)
    ensures (m < 0 <==> z < 0) && (m == 0 <==> z == 0) && SameValue(Abs(m), low, Abs(z), 0)
  {
    var k := if low <= 0 then low else 0;
    hide SameValue;
    SameAt(m, low, z, 0, k);
    SameAt(Abs(m), low, Abs(z), 0, k);
    hide Pow2;
    var p, q := Pow2(low - k), Pow2(0 - k);
    assert (-m) * p == -(m * p) && (-z) * q == -(z * q);
    Signs(m, p);
    Signs(z, q);
  }

  lemma Signs(m: int, p: int)
    requires p > 0
    ensures (m * p < 0 <==> m < 0) && (m * p == 0 <==> m == 0)
  {
    if m < 0 {
      MulMono(m, -1, p);
    } else if m > 0 {
      MulMono(1, m, p);
    }
  }

  lemma ExactInt(x: Exact, z: int, r: Num, ret: set<Status>)
    requires z != 0 && Valid(x) && x.den == 1 && x.e > -LIMB_BITS && RoundsTo(x, r, {}, ret, BF_PREC_INF, Exactly)
    requires x.sign == (z < 0) && SameValue(x.num, x.e, Abs(z), 0) && Abs(z) < Pow2(EMax(Exactly))
    ensures IsInt(r, z)
  {
    hide RoundsTo;
    hide Val;
    hide SameValue;
    hide Pow2;
    hide EMin;
    hide EMax;
    hide Width;
    RangeBits(x.num, x.e, Abs(z), x);
    ExactRounds(x, r, ret);
    SameTrans(Val(r.tab), r.expn - LIMB_BITS * |r.tab|, x.num, x.e, Abs(z), 0);
  }

  lemma DoubleRange(x: int, y: int)
    requires Within(x, EMax(Exactly) - 1) && Abs(y) <= 1
    ensures Abs(x + y) < Pow2(EMax(Exactly)) && Abs(x) < Pow2(EMax(Exactly)) && Abs(y) < Pow2(EMax(Exactly))
  {
    ExponentConstants();
    hide EMax;
    assert Pow2(EMax(Exactly)) == 2 * Pow2(EMax(Exactly) - 1);
  }

  lemma NumberInt(a: Num, x: int, r: Num, ret: set<Status>)
    requires IsInt(a, x) && x != 0 && Abs(x) < Pow2(EMax(Exactly)) && RoundsNumber(a, r, ret, BF_PREC_INF, Exactly)
    ensures IsInt(r, x)
  {
    hide RoundsTo;
    hide Pow2;
    LowExponent(a, x);
    ExactInt(ExactOf(a), x, r, ret);
  }

  // The units of a sum of integers are the sum.
  lemma SumInt(a: Num, b: Num, bNeg: bool, x: int, y: int)
    requires IsInt(a, x) && IsInt(b.(sign := bNeg), y) && x != 0 && y != 0
    ensures LowestBit(a, b) > -LIMB_BITS && SameValue(SumUnits(a, b, bNeg), LowestBit(a, b), x + y, 0)
  {
    hide Pow2;
    hide Val;
    var low, c := LowestBit(a, b), b.(sign := bNeg);
    LowExponent(a, x);
    LowExponent(c, y);
    SignedInt(a, x, low);
    SignedInt(c, y, low);
    SignedSame(b, bNeg, low);
    hide IsInt;
    hide Signed;
    hide SameValue;
    SameSum(Signed(a, a.sign, low), Signed(b, bNeg, low), low, x, y);
  }

  // Adding one or minus one to an integer is exact.
  lemma IntSum(a: Num, b: Num, bNeg: bool, x: int, y: int, r: Num, ret: set<Status>)
    requires IsInt(a, x) && IsInt(b.(sign := bNeg), y) && Within(x, EMax(Exactly) - 1) && y != 0 && Abs(y) <= 1
    requires b.expn < BF_EXP_INF && a.expn < BF_EXP_INF && AddResult(a, b, bNeg, r, ret, BF_PREC_INF, Exactly)
    requires BF_EXP_ZERO < b.expn && (x != 0 ==> BF_EXP_ZERO < a.expn)
    ensures IsInt(r, x + y)
  {
    DoubleRange(x, y);
    if x == 0 {
      ZeroPlus(a, b, bNeg, y, r, ret);
    } else {
      AddedUnits(a, b, bNeg, r, ret);
      UnitsRound(a, b, bNeg, x, y, r, ret);
    }
  }

  lemma ZeroPlus(a: Num, b: Num, bNeg: bool, y: int, r: Num, ret: set<Status>)
    requires IsInt(a, 0) && IsInt(b.(sign := bNeg), y) && y != 0 && Abs(y) < Pow2(EMax(Exactly))
    requires BF_EXP_ZERO < b.expn < BF_EXP_INF && AddResult(a, b, bNeg, r, ret, BF_PREC_INF, Exactly)
    ensures IsInt(r, y)
  {
    hide RoundsTo;
    hide Pow2;
    hide Val;
    hide SameValue;
    hide Signed;
    assert RoundsNumber(b.(sign := bNeg), r, ret, BF_PREC_INF, Exactly);
    hide AddResult;
    hide RoundsNumber;
    NumberInt(b.(sign := bNeg), y, r, ret);
  }

  lemma UnitsRound(a: Num, b: Num, bNeg: bool, x: int, y: int, r: Num, ret: set<Status>)
    requires IsInt(a, x) && IsInt(b.(sign := bNeg), y) && x != 0 && y != 0 && Abs(x + y) < Pow2(EMax(Exactly))
    requires SumUnits(a, b, bNeg) == 0 ==> r.tab == [] && r.expn == BF_EXP_ZERO
    requires SumUnits(a, b, bNeg) != 0 ==> Valid(SumOf(a, b, bNeg)) &&
                                           RoundsTo(SumOf(a, b, bNeg), r, {}, ret, BF_PREC_INF, Exactly)
    ensures IsInt(r, x + y)
  {
    hide RoundsTo;
    hide Pow2;
    hide SameValue;
    hide IsInt;
    SumInt(a, b, bNeg, x, y);
    hide SumUnits;
    hide LowestBit;
    SameSign(SumUnits(a, b, bNeg), LowestBit(a, b), x + y);
    if SumUnits(a, b, bNeg) != 0 {
      ExactInt(SumOf(a, b, bNeg), x + y, r, ret);
    } else {
      ZeroIsInt(r, x + y);
    }
  }

  lemma ZeroIsInt(r: Num, x: int)
    requires x == 0 && r.tab == [] && r.expn == BF_EXP_ZERO
    ensures IsInt(r, x)
  {
  }

  // The finite case of an addition.
  lemma AddedUnits(a: Num, b: Num, bNeg: bool, r: Num, ret: set<Status>)
    requires IsFinite(a) && IsFinite(b) && AddResult(a, b, bNeg, r, ret, BF_PREC_INF, Exactly)
    ensures SumUnits(a, b, bNeg) == 0 ==> r.tab == [] && r.expn == BF_EXP_ZERO
    ensures SumUnits(a, b, bNeg) != 0 ==> Valid(SumOf(a, b, bNeg)) &&
                                          RoundsTo(SumOf(a, b, bNeg), r, {}, ret, BF_PREC_INF, Exactly)
  {
    hide SumUnits;
    hide RoundsTo;
  }

  lemma SignedSame(b: Num, neg: bool, low: int)
    requires low <= b.expn - LIMB_BITS * |b.tab|
    ensures Signed(b.(sign := neg), neg, low) == Signed(b, neg, low)
  {
  }

  // ----- Bits -----

  // z has the bits of x and y combined, all of them.
  ghost predicate LogicBits(op: LogicOp, x: int, y: int, z: int) {
    forall k: nat :: Bit(z, k) == 1 <==> match op
                                           case OR => Bit(x, k) == 1 || Bit(y, k) == 1
                                           case XOR => Bit(x, k) != Bit(y, k)
                                           case AND => Bit(x, k) == 1 && Bit(y, k) == 1
  }

  // The bits determine an integer.
  lemma {:induction false} BitsDetermine(x: int, y: int)
    requires forall k: nat :: Bit(x, k) == Bit(y, k)
    ensures x == y
    decreases Abs(x) + Abs(y)
  {
    BitZero(x);
    BitZero(y);
    assert Bit(x, 0) == Bit(y, 0);
    if (x == 0 || x == -1) && (y == 0 || y == -1) {
    } else {
      forall k: nat ensures Bit(x / 2, k) == Bit(y / 2, k) {
        assert Bit(x, k + 1) == Bit(y, k + 1);
        HalfDiv(x, k);
        HalfDiv(y, k);
      }
      BitsDetermine(x / 2, y / 2);
    }
  }

  lemma BitComplement(x: int, k: nat)
    ensures Bit(-x - 1, k) == 1 - Bit(x, k)
  {
    var p := Pow2(k);
    hide Pow2;
    var q, m := x / p, x % p;
    assert x == q * p + m;
    assert (-q - 1) * p == -(q * p) - p;
    DivIs(-x - 1, p, -q - 1, p - 1 - m);
    DivIs(-q - 1, 2, -(q / 2) - 1, 1 - q % 2);
  }

  lemma BitSmall(x: int, n: nat, k: nat)
    requires 0 <= x < Pow2(n) && n <= k
    ensures Bit(x, k) == 0
  {
    Pow2Mono(n, k);
    DivZero(x, Pow2(k));
  }

  // Bit p of limb i is bit 64 * i + p.
  lemma LimbBit(x: int, i: nat, p: nat)
    requires x >= 0 && p < LIMB_BITS
    ensures Bit(x, LIMB_BITS * i + p) == Bit(x / Pow(i) % B, p)
  {
    PowPow2(i);
    Pow2Add(LIMB_BITS * i, p);
    Pow2Split(p);
    assert Pow2(LIMB_BITS - p) == 2 * Pow2(LIMB_BITS - p - 1);
    hide Pow2;
    hide Pow;
    ModSplit(x, Pow(i), Pow2(p), Pow2(LIMB_BITS * i + p));
    DivNonNeg(x, Pow(i));
    LimbBitArith(x / Pow(i), Pow2(p), Pow2(LIMB_BITS - p - 1));
  }

  lemma LimbBitArith(u: int, p: int, h: int)
    requires u >= 0 && p > 0 && h > 0 && p * (2 * h) == B
    ensures (u / p) % 2 == ((u % B) / p) % 2
  {
    var c, v := u / B, u % B;
    TopBits(u, c, v, p, 2 * h);
    assert c * (2 * h) == 2 * (c * h);
    var y := v / p;
    DivIs(2 * (c * h) + y, 2, c * h + y / 2, y % 2);
  }

  lemma MaskedBit(v: Limb, neg: bool, p: nat)
    requires p < LIMB_BITS
    ensures Bit(Masked(v, neg), p) == if neg then 1 - Bit(v, p) else Bit(v, p)
  {
    if neg {
      BitComplement(v, p);
      Pow2Split(p);
      assert Pow2(LIMB_BITS - p) == 2 * Pow2(LIMB_BITS - p - 1);
      hide Pow2;
      MaskedArith(v, Pow2(p), Pow2(LIMB_BITS - p - 1));
    }
  }

  lemma MaskedArith(v: int, p: int, h: int)
    requires 0 <= v < B && p > 0 && h > 0 && p * (2 * h) == B
    ensures ((B - 1 - v) / p) % 2 == ((-v - 1) / p) % 2
  {
    var q, m := (-v - 1) / p, (-v - 1) % p;
    assert -v - 1 == q * p + m;
    assert (2 * h + q) * p == p * (2 * h) + q * p;
    DivIs(B - 1 - v, p, 2 * h + q, m);
    DivIs(2 * h + q, 2, h + q / 2, q % 2);
  }

  // The integer that magnitude v and complement neg stand for.
  function Complemented(v: int, neg: bool): int {
    if neg then -v - 1 else v
  }

  lemma ComplementedBit(v: int, neg: bool, k: nat)
    ensures Bit(Complemented(v, neg), k) == if neg then 1 - Bit(v, k) else Bit(v, k)
  {
    if neg {
      BitComplement(v, k);
    }
  }

  // bf_logic_op1 on masked limbs
  function LogicLimb(op: LogicOp, v1: Limb, v2: Limb, aNeg: bool, bNeg: bool, rNeg: bool): Limb {
    Pow2Limb();
    BitwiseBelow(op, Masked(v1, aNeg), Masked(v2, bNeg), LIMB_BITS);
    Masked(Bitwise(op, Masked(v1, aNeg), Masked(v2, bNeg)), rNeg)
  }

  lemma LogicLimbBit(op: LogicOp, v1: Limb, v2: Limb, aNeg: bool, bNeg: bool, rNeg: bool, p: nat)
    requires p < LIMB_BITS
    ensures var b := OpBit(op, if aNeg then 1 - Bit(v1, p) else Bit(v1, p),
                           if bNeg then 1 - Bit(v2, p) else Bit(v2, p));
      Bit(LogicLimb(op, v1, v2, aNeg, bNeg, rNeg), p) == if rNeg then 1 - b else b
  {
    hide Bit;
    Pow2Limb();
    hide Pow2;
    BitwiseBelow(op, Masked(v1, aNeg), Masked(v2, bNeg), LIMB_BITS);
    MaskedBit(v1, aNeg, p);
    MaskedBit(v2, bNeg, p);
    BitwiseBit(op, Masked(v1, aNeg), Masked(v2, bNeg), p);
    MaskedBit(Bitwise(op, Masked(v1, aNeg), Masked(v2, bNeg)), rNeg, p);
  }

  // ----- The operation -----

  // Limb i of the magnitude v, read from the limbs of a.
  lemma IntLimb(a: Num, v: nat, i: nat)
    requires IsInt(a, if a.sign then -(v as int) else v) || (v == 0 && a.tab == [])
    ensures GetBits(a.tab, LIMB_BITS * |a.tab| - a.expn + i * LIMB_BITS) == v / Pow(i) % B
  {
    hide Val;
    hide Pow;
    PowPow2(i);
    if v == 0 {
      ValZeros([]);
      hide Pow2;
      DivZero(0, Pow(i));
      WindowOfZero(LIMB_BITS * |a.tab| - a.expn + i * LIMB_BITS);
    } else {
      ValBound(a.tab);
      var e := a.expn - LIMB_BITS * |a.tab|;
      if e >= 0 {
        WindowShift(Val(a.tab), e, LIMB_BITS * i);
      } else {
        WindowUp(Val(a.tab), v, -e, LIMB_BITS * i);
      }
    }
  }

  lemma WindowOfZero(pos: int)
    ensures Window(0, pos) == 0
  {
    hide Pow2;
    if pos >= 0 {
      DivZero(0, Pow2(pos));
    }
    DivZero(0, B);
  }

  // The window of a shifted value.
  lemma WindowUp(w: int, v: int, s: nat, pos: nat)
    requires v >= 0 && w == v * Pow2(s)
    ensures Window(w, s + pos) == v / Pow2(pos) % B
  {
    Pow2Add(pos, s);
    hide Pow2;
    hide Window;
    SplitProduct(v, Pow2(pos), Pow2(s), Pow2(s + pos));
    WindowValue(w, s + pos, v / Pow2(pos));
  }

  // The limbs of the result have the bits of the result.
  lemma LimbsBits(op: LogicOp, x: int, y: int, vx: nat, vy: nat, aNeg: bool, bNeg: bool, rNeg: bool, t: seq<Limb>,
                  k: nat)
    requires x == Complemented(vx, aNeg) && y == Complemented(vy, bNeg)
    requires forall i: nat :: i < |t| ==> t[i] == LogicLimb(op, vx / Pow(i) % B, vy / Pow(i) % B, aNeg, bNeg, rNeg)
    requires k < LIMB_BITS * |t|
    ensures Bit(Complemented(Val(t), rNeg), k) == OpBit(op, Bit(x, k), Bit(y, k))
  {
    hide Val;
    hide Pow2;
    hide Pow;
    var i, p := k / LIMB_BITS, k % LIMB_BITS;
    GetBitIs(t, k);
    ComplementedBit(Val(t), rNeg, k);
    ComplementedBit(vx, aNeg, k);
    ComplementedBit(vy, bNeg, k);
    assert Bit(Val(t), k) == Bit(t[i], p);
    hide Bit;
    hide LogicLimb;
    LimbBit(vx, i, p);
    LimbBit(vy, i, p);
    LogicLimbBit(op, vx / Pow(i) % B, vy / Pow(i) % B, aNeg, bNeg, rNeg, p);
  }

  // Above the limbs of the result every bit is the sign.
  lemma HighBits(op: LogicOp, x: int, y: int, vx: nat, vy: nat, aNeg: bool, bNeg: bool, t: seq<Limb>, k: nat)
    requires x == Complemented(vx, aNeg) && y == Complemented(vy, bNeg) && LIMB_BITS * |t| <= k
    requires var rNeg := SignOp(op, aNeg, bNeg);
      || (vx < Pow(|t|) && vy < Pow(|t|))
      || (op == AND && !aNeg && vx < Pow(|t|)) || (op == AND && !bNeg && vy < Pow(|t|))
    ensures Bit(Complemented(Val(t), SignOp(op, aNeg, bNeg)), k) == OpBit(op, Bit(x, k), Bit(y, k))
  {
    hide Val;
    ValBound(t);
    PowPow2(|t|);
    hide Pow;
    BitSmall(Val(t), LIMB_BITS * |t|, k);
    if vx < Pow(|t|) {
      BitSmall(vx, LIMB_BITS * |t|, k);
    }
    if vy < Pow(|t|) {
      BitSmall(vy, LIMB_BITS * |t|, k);
    }
    ComplementedBit(Val(t), SignOp(op, aNeg, bNeg), k);
    ComplementedBit(vx, aNeg, k);
    ComplementedBit(vy, bNeg, k);
    BitRange(x, k);
    BitRange(y, k);
    hide Bit;
  }

  lemma BitRange(x: int, k: nat)
    ensures Bit(x, k) == 0 || Bit(x, k) == 1
  {
  }

  // bf_logic_op1 on the signs
  predicate SignOp(op: LogicOp, aNeg: bool, bNeg: bool) {
    match op
    case OR => aNeg || bNeg
    case XOR => aNeg != bNeg
    case AND => aNeg && bNeg
  }

  // The exponent of an integer is its bit length.
  lemma IntExpn(a: Num, x: int)
    requires IsInt(a, x) && x != 0
    ensures a.expn == BitLen(Abs(x)) && a.expn >= 1 && Abs(x) < Pow2(a.expn)
  {
    hide Val;
    var e := Exact(a.sign, Abs(x), 1, 0);
    ExactNormal(a);
    assert Pow2(0) == 1;
    DivIs(Abs(x), 1, Abs(x), 0);
    hide Pow2;
    hide BitLen;
    EqualInt(a, e, Abs(x));
  }

  lemma EqualInt(a: Num, e: Exact, m: nat)
    requires Normal(a.tab) && m >= 1 && e == Exact(a.sign, m, 1, 0) &&
             SameValue(Val(a.tab), a.expn - LIMB_BITS * |a.tab|, m, 0)
    ensures Valid(ExactOf(a)) && Valid(e) && Expn(ExactOf(a)) == Expn(e)
  {
    hide Val;
    hide Pow2;
    ExactNormal(a);
    hide Width;
    if ExactOf(a).e >= 0 {
      EqualWidth(ExactOf(a), e);
    } else {
      EqualSym(ExactOf(a), e);
      EqualWidth(e, ExactOf(a));
    }
  }

  lemma IntWellFormed(a: Num, x: int, n: nat)
    requires IsInt(a, x) && Within(x, n) && n <= EMax(Exactly)
    ensures WellFormed(a) && a.expn < BF_EXP_INF && (x != 0 ==> BF_EXP_ZERO < a.expn && 1 <= a.expn <= n)
  {
    ExponentConstants();
    hide EMax;
    if x != 0 {
      IntExpn(a, x);
      hide Pow2;
      BitLenBound(Abs(x), n);
    }
  }

  lemma One(neg: bool)
    ensures IsInt(Num(neg, 1, [HALF]), if neg then -1 else 1)
  {
    ValOne(HALF);
    Pow2Limb();
    assert 1 * Pow2(63) == Pow2(63);
    hide Pow2;
  }

  // bf_add_si for one and minus one
  method AddOneInt(a: BfT, neg: bool, ghost x: int) returns (t: BfT)
    requires IsInt(a.Value(), x) && Within(x, EMax(Exactly) - 1)
    ensures fresh(t) && IsInt(t.Value(), if neg then x - 1 else x + 1)
  {
    hide IsInt;
    hide Pow2;
    hide Val;
    hide AddResult;
    ExponentConstants();
    hide EMax;
    ghost var va, vb := a.Value(), Num(neg, 1, [HALF]);
    IntWellFormed(va, x, EMax(Exactly) - 1);
    One(neg);
    var b := new BfT();
    b.sign, b.expn, b.tab := neg, 1, [HALF];
    t := new BfT();
    var ret := Add(t, a, b, BF_PREC_INF, Exactly, false);
    IntSum(va, vb, neg, x, if neg then -1 else 1, t.Value(), ret);
  }

  // The magnitude whose bits, complemented for a negative number, are the bits of x.
  function Magnitude(x: int): nat {
    if x < 0 then -x - 1 else x
  }

  // The operand whose limbs are read: x itself, or x + 1 for a negative x.
  method Operand(a1: BfT, neg: bool, ghost x: int) returns (a: BfT)
    requires IsInt(a1.Value(), x) && Within(x, MAX_BITS) && (neg <==> x < 0)
    ensures fresh(a) || a == a1
    ensures IsOperand(a.Value(), Magnitude(x), neg)
  {
    hide Pow2;
    hide Val;
    ExponentConstants();
    hide EMax;
    a := a1;
    MoreBits(x);
    if neg {
      hide IsInt;
      a := AddOneInt(a1, false, x);
    }
    ghost var v := Magnitude(x);
    ZeroInt(a.Value(), if neg then -(v as int) else v);
    if v != 0 {
      SignInt(a.Value(), if neg then -(v as int) else v);
      IntWellFormed(a.Value(), if neg then -(v as int) else v, MAX_BITS);
      IntExpn(a.Value(), if neg then -(v as int) else v);
    }
  }

  lemma SignInt(a: Num, x: int)
    requires IsInt(a, x) && x != 0
    ensures a.sign <==> x < 0
  {
  }

  lemma ZeroInt(a: Num, x: int)
    requires IsInt(a, x)
    ensures x == 0 ==> a.expn == BF_EXP_ZERO && a.tab == []
  {
  }

  lemma MoreBits(x: int)
    requires Within(x, MAX_BITS)
    ensures Within(x, 0x1000_0000_0000_0000 - 1)
  {
    hide Pow2;
    Pow2Mono(MAX_BITS, 0x1000_0000_0000_0000 - 1);
  }

  // How many limbs the result needs.
  function ResultLen(op: LogicOp, aExpn: int, bExpn: int, aNeg: bool, bNeg: bool): nat {
    var l := if op == AND && !SignOp(op, aNeg, bNeg) then
        // above the shorter non-negative operand all bits of the result are zero
        (if !aNeg && !bNeg then (if aExpn < bExpn then aExpn else bExpn) else if !aNeg then aExpn else bExpn)
      else if aExpn > bExpn then aExpn else bExpn;
    ((if l > 1 then l else 1) + LIMB_BITS - 1) / LIMB_BITS
  }

  lemma Covers(v: nat, expn: nat, l: nat)
    requires (v == 0 || (v < Pow2(expn) && 1 <= expn <= LIMB_BITS * l)) && l >= 1
    ensures v < Pow(l)
  {
    PowPow2(l);
    if v != 0 {
      Pow2Mono(expn, LIMB_BITS * l);
    }
  }

  lemma SignRead(a: Num, x: int)
    requires IsInt(a, x)
    ensures a.expn > 0 && a.sign <==> x < 0
  {
    hide Val;
    hide Pow2;
    if x != 0 {
      IntExpn(a, x);
    }
  }

  // An operand as Operand returns it.
  ghost predicate IsOperand(a: Num, v: nat, neg: bool) {
    && IsInt(a, if neg then -(v as int) else v)
    && (v != 0 ==> a.sign == neg && v < Pow2(Max0(a.expn)) && 1 <= a.expn <= MAX_BITS)
    && (v == 0 ==> a.expn == BF_EXP_ZERO && a.tab == [])
  }

  lemma OperandLimb(a: Num, v: nat, neg: bool, i: nat)
    requires IsOperand(a, v, neg)
    ensures GetBits(a.tab, |a.tab| * LIMB_BITS - a.expn + i * LIMB_BITS) == v / Pow(i) % B
  {
    hide IsInt;
    IntLimb(a, v, i);
  }

  // All bits of the result.
  lemma AllBits(op: LogicOp, x: int, y: int, a: Num, b: Num, t: seq<Limb>)
    requires IsOperand(a, Magnitude(x), x < 0) && IsOperand(b, Magnitude(y), y < 0)
    requires |t| == ResultLen(op, a.expn, b.expn, x < 0, y < 0)
    requires forall i: nat :: i < |t| ==>
               t[i] == LogicLimb(op, Magnitude(x) / Pow(i) % B, Magnitude(y) / Pow(i) % B, x < 0, y < 0,
                                 SignOp(op, x < 0, y < 0))
    ensures LogicBits(op, x, y, Complemented(Val(t), SignOp(op, x < 0, y < 0)))
  {
    hide Val;
    hide Bit;
    hide LogicLimb;
    hide IsInt;
    hide Pow2;
    hide Pow;
    var vx, vy, rNeg := Magnitude(x), Magnitude(y), SignOp(op, x < 0, y < 0);
    if vx == 0 || a.expn <= LIMB_BITS * |t| {
      Covers(vx, Max0(a.expn), |t|);
    }
    if vy == 0 || b.expn <= LIMB_BITS * |t| {
      Covers(vy, Max0(b.expn), |t|);
    }
    forall k: nat ensures Bit(Complemented(Val(t), rNeg), k) == OpBit(op, Bit(x, k), Bit(y, k)) {
      if k < LIMB_BITS * |t| {
        LimbsBits(op, x, y, vx, vy, x < 0, y < 0, rNeg, t, k);
      } else {
        HighBits(op, x, y, vx, vy, x < 0, y < 0, t, k);
      }
    }
  }

  lemma ResultRange(op: LogicOp, a: Num, b: Num, vx: nat, vy: nat, aNeg: bool, bNeg: bool, t: seq<Limb>)
    requires IsOperand(a, vx, aNeg) && IsOperand(b, vy, bNeg) && |t| == ResultLen(op, a.expn, b.expn, aNeg, bNeg)
    ensures 0 <= Val(t) && Within(Val(t), 0x1000_0000_0000_0000 - 1) && Within(-Val(t), 0x1000_0000_0000_0000 - 1)
  {
    hide Val;
    hide IsInt;
    ValBound(t);
    PowPow2(|t|);
    hide Pow;
    hide Pow2;
    Pow2Mono(LIMB_BITS * |t|, 0x1000_0000_0000_0000 - 1);
  }

  // A window of limbs above the binary point is an integer.
  lemma NormalizedInt(n: Num, r: Num, ret: set<Status>)
    requires n.expn == LIMB_BITS * |n.tab| && Within(Val(n.tab), 0x1000_0000_0000_0000 - 1)
    requires Val(n.tab) == 0 ==> r == Num(n.sign, BF_EXP_ZERO, [])
    requires Val(n.tab) != 0 ==> Valid(ExactOf(n)) && RoundsTo(ExactOf(n), r, {}, ret, BF_PREC_INF, Exactly)
    ensures IsInt(r, if n.sign then -Val(n.tab) else Val(n.tab))
  {
    ExponentConstants();
    assert Pow2(0) == 1;
    hide EMax;
    hide Val;
    hide RoundsTo;
    hide Pow2;
    ValBound(n.tab);
    Pow2Mono(0x1000_0000_0000_0000 - 1, 0x1000_0000_0000_0000);
    if Val(n.tab) != 0 {
      ExactInt(ExactOf(n), if n.sign then -Val(n.tab) else Val(n.tab), r, ret);
    }
  }

  // The loop of bf_logic_op over the limbs of the result.
  method LogicLimbs(a: Num, b: Num, op: LogicOp, aSign: bool, bSign: bool, rSign: bool, l: nat, ghost vx: nat,
                    ghost vy: nat) returns (t: seq<Limb>)
    requires IsOperand(a, vx, aSign) && IsOperand(b, vy, bSign)
    ensures |t| == l && forall i: nat :: i < l ==>
            t[i] == LogicLimb(op, vx / Pow(i) % B, vy / Pow(i) % B, aSign, bSign, rSign)
  {
    hide Pow;
    hide LogicLimb;
    hide GetBits;
    hide IsOperand;
    var aBitOffset, bBitOffset := |a.tab| * LIMB_BITS - a.expn, |b.tab| * LIMB_BITS - b.expn;
    t := [];
    while |t| < l
      invariant |t| <= l
      invariant forall i: nat :: i < |t| ==>
                  t[i] == LogicLimb(op, vx / Pow(i) % B, vy / Pow(i) % B, aSign, bSign, rSign)
    {
      OperandLimb(a, vx, aSign, |t|);
      OperandLimb(b, vy, bSign, |t|);
      var v1 := GetBits(a.tab, aBitOffset + |t| * LIMB_BITS);
      var v2 := GetBits(b.tab, bBitOffset + |t| * LIMB_BITS);
      t := t + [LogicLimb(op, v1, v2, aSign, bSign, rSign)];
    }
  }

  // bf_logic_op
  method BfLogicOp(r: BfT, a1: BfT, b1: BfT, op: LogicOp, ghost x: int, ghost y: int) returns (ghost z: int)
    requires r != a1 && r != b1 && IsInt(a1.Value(), x) && IsInt(b1.Value(), y) && Within(x, MAX_BITS) &&
             Within(y, MAX_BITS)
    modifies r
    ensures LogicBits(op, x, y, z) && IsInt(r.Value(), z)
  {
    hide Pow;
    hide Val;
    hide IsInt;
    hide RoundsTo;
    hide LogicLimb;
    hide GetBits;
    hide LogicBits;
    hide IsOperand;
    hide ResultLen;
    // zero has no sign as an integer
    SignRead(a1.Value(), x);
    SignRead(b1.Value(), y);
    var aSign, bSign := a1.expn > 0 && a1.sign, b1.expn > 0 && b1.sign;
    var a := Operand(a1, aSign, x);
    var b := Operand(b1, bSign, y);
    var va, vb := a.Value(), b.Value();
    ghost var vx, vy := Magnitude(x), Magnitude(y);
    var rSign := SignOp(op, aSign, bSign);
    var l := ResultLen(op, a.expn, b.expn, aSign, bSign);
    var t := LogicLimbs(va, vb, op, aSign, bSign, rSign, l, vx, vy);
    z := Complemented(Val(t), rSign);
    AllBits(op, x, y, va, vb, t);
    ResultRange(op, va, vb, vx, vy, aSign, bSign, t);
    Finish(r, t, l, rSign);
  }

  // The end of bf_logic_op: normalization, and one less for a negative result.
  method Finish(r: BfT, t: seq<Limb>, l: nat, rSign: bool)
    requires |t| == l && Val(t) >= 0 && Within(Val(t), 0x1000_0000_0000_0000 - 1) &&
             Within(-Val(t), 0x1000_0000_0000_0000 - 1)
    modifies r
    ensures IsInt(r.Value(), Complemented(Val(t), rSign))
  {
    hide Val;
    hide IsInt;
    hide RoundsTo;
    hide Within;
    hide Valid;
    ExponentConstants();
    hide EMax;
    r.tab, r.expn, r.sign := t, l * LIMB_BITS, rSign;
    ghost var n := r.Value();
    var ret := r.NormalizeAndRound(BF_PREC_INF, Exactly);
    NormalizedInt(n, r.Value(), ret);
    if rSign {
      var u := AddOneInt(r, true, -Val(t));
      r.sign, r.expn, r.tab := u.sign, u.expn, u.tab;
    }
  }
}
