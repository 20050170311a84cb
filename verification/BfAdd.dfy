// bf_add_internal of quickjs/libbf.c: sums and differences, correctly rounded, computed on a window of
// limbs with a sticky bit for what lies below it.

module BfAdd {
  import opened Limbs
  import opened Bits
  import opened Rounding
  import opened BfRound
  import opened BfExact
  import opened BfDirected
  import opened BfNumber
  import opened BfCancel
  import opened BfDiv

  // ----- One limb -----

  // u = v1 + v2 + carry, with the carry found from the wrapped sums
  function AddLimbs(v1: Limb, v2: Limb, carry: Limb): (r: (Limb, Limb))
    requires carry <= 1
    ensures r.1 <= 1 && v1 as int + v2 + carry == r.0 + r.1 * B
  {
    var u := Wrap(v1 as int + v2);
    var carry1 := u < v1;
    var u2 := Wrap(u as int + carry);
    (u2, if u2 < carry || carry1 then 1 else 0)
  }

  // v ^ sub_mask
  function Masked(v: Limb, isSub: bool): Limb {
    if isSub then B - 1 - v else v
  }

  // The sum of the low k limbs, with the complement and the initial carry of a subtraction.
  ghost function Total(x: int, y: int, isSub: bool, k: nat): int {
    x % Pow(k) + if isSub then Pow(k) - y % Pow(k) else y % Pow(k)
  }

  lemma TotalStart(x: int, y: int, isSub: bool)
    ensures Total(x, y, isSub, 0) == if isSub then 1 else 0
  {
    PowOne();
    DivIs(x, 1, x, 0);
    DivIs(y, 1, y, 0);
  }

  lemma TotalNext(x: int, y: int, isSub: bool, k: nat, v1: Limb, v2: Limb)
    requires v1 == x / Pow(k) % B && v2 == y / Pow(k) % B
    ensures Total(x, y, isSub, k + 1) == Total(x, y, isSub, k) + Pow(k) * (v1 as int + Masked(v2, isSub))
    ensures 0 <= Total(x, y, isSub, k) < 2 * Pow(k) + 1
  {
    ModNext(x, k, v1);
    ModNext(y, k, v2);
    assert Pow(k + 1) == B * Pow(k);
    hide Pow;
    var p := Pow(k);
    assert p * (B - 1 - v2) == B * p - p - p * v2;
    assert p * (v1 as int + Masked(v2, isSub)) == p * v1 + p * Masked(v2, isSub);
  }

  lemma TotalAll(x: int, y: int, isSub: bool, k: nat)
    requires 0 <= x < Pow(k) && 0 <= y < Pow(k)
    ensures Total(x, y, isSub, k) == if isSub then x - y + Pow(k) else x + y
  {
    DivZero(x, Pow(k));
    DivZero(y, Pow(k));
  }

  // ----- The limbs below the window -----

  // The carry out of the low k limbs of the sum, and whether one of those limbs is not zero.
  ghost predicate LowState(x: int, y: int, isSub: bool, k: nat, carry: Limb, z: bool) {
    var t := Total(x, y, isSub, k);
    carry <= 1 && carry == t / Pow(k) && (z <==> t % Pow(k) != 0)
  }

  lemma LowStart(x: int, y: int, isSub: bool)
    ensures LowState(x, y, isSub, 0, if isSub then 1 else 0, false)
  {
    TotalStart(x, y, isSub);
    PowOne();
    hide Pow;
    var t := Total(x, y, isSub, 0);
    DivIs(t, 1, t, 0);
  }

  lemma LowArith(t: int, t': int, p: int, carry: int, u: int, carry': int, v: int, z: bool)
    requires p > 0 && carry == t / p && (z <==> t % p != 0) && t' == t + p * v && v + carry == u + carry' * B &&
             0 <= u < B
    ensures carry' == t' / (B * p) && ((z || u != 0) <==> t' % (B * p) != 0)
  {
    var m := t % p;
    assert t == carry * p + m;
    assert carry * p + p * v == p * (v + carry);
    assert p * (u + carry' * B) == p * u + carry' * (B * p);
    MulMono(u + 1, B, p);
    assert p * (u + 1) == p * u + p;
    MulPos(p, u);
    DivIs(t', B * p, carry', p * u + m);
    if u > 0 {
      MulMono(1, u, p);
    }
  }

  lemma LowNext(x: int, y: int, isSub: bool, k: nat, carry: Limb, z: bool, v1: Limb, v2: Limb)
    requires LowState(x, y, isSub, k, carry, z) && v1 == x / Pow(k) % B && v2 == y / Pow(k) % B
    ensures var (u, c) := AddLimbs(v1, Masked(v2, isSub), carry); LowState(x, y, isSub, k + 1, c, z || u != 0)
  {
    TotalNext(x, y, isSub, k, v1, v2);
    assert Pow(k + 1) == B * Pow(k);
    hide Pow;
    hide Total;
    var (u, c) := AddLimbs(v1, Masked(v2, isSub), carry);
    LowArith(Total(x, y, isSub, k), Total(x, y, isSub, k + 1), Pow(k), carry, u, c, v1 as int + Masked(v2, isSub), z);
  }

  lemma CarryBit(x: int, y: int, isSub: bool, k: nat, carry: Limb, z: bool)
    requires LowState(x, y, isSub, k, carry, z)
    ensures carry <= 1
  {
  }

  // Outside both operands a limb changes neither the carry nor whether there was something.
  lemma {:induction false} LowSkip(x: int, y: int, isSub: bool, k: nat, l: nat, carry: Limb, z: bool)
    requires k <= l && LowState(x, y, isSub, k, carry, z)
    requires forall q: nat :: k <= q < l ==> x / Pow(q) % B == 0 && y / Pow(q) % B == 0
    requires if isSub then carry == 1 || z else carry == 0
    ensures LowState(x, y, isSub, l, carry, z)
    decreases l - k
  {
    hide LowState;
    hide Pow;
    if k < l {
      assert x / Pow(k) % B == 0 && y / Pow(k) % B == 0;
      assert carry <= 1 by { CarryBit(x, y, isSub, k, carry, z); }
      assert AddLimbs(0, Masked(0, isSub), carry) == (if isSub && carry == 0 then B - 1 else 0, carry);
      LowNext(x, y, isSub, k, carry, z, 0, 0);
      LowSkip(x, y, isSub, k + 1, l, carry, z);
    }
  }

  // get_bits outside the limbs is zero.
  lemma BitsOutside(b: seq<Limb>, pos: int)
    requires pos + LIMB_BITS <= 0 || pos >= LIMB_BITS * |b|
    ensures GetBits(b, pos) == 0
  {
    hide Window;
    Pow2Small();
    hide Pow2;
    var p := pos % LIMB_BITS;
    if p != 0 {
      DivZero(0, Pow2(p));
      DivZero(0, B);
    }
  }

  // The limbs at position i of the source, which counts from the lowest limb of the result.
  lemma LimbsAt(a: seq<Limb>, b: seq<Limb>, d: nat, tot: nat, rLen: nat, i: int)
    requires rLen <= tot && tot >= |a| && LIMB_BITS * (tot - |b|) >= d && i >= rLen - tot
    ensures LimbAt(a, |a| - rLen + i) == AValue(a, tot) / Pow(i + tot - rLen) % B
    ensures GetBits(b, (|b| - rLen) * LIMB_BITS + d + i * LIMB_BITS) == BValue(b, tot, d) / Pow(i + tot - rLen) % B
  {
    hide Pow;
    hide AValue;
    hide BValue;
    ALimbIs(a, tot, i + tot - rLen);
    BLimbIs(b, tot, d, i + tot - rLen);
  }

  // Where the loop over the limbs below the window continues after a position outside both operands.
  function SkipTo(a: seq<Limb>, b: seq<Limb>, aOffset: int, bBitOffset: int, i: int): int {
    var ap, bp := aOffset + i, bBitOffset + i * LIMB_BITS;
    var i1 := if ap < 0 && -aOffset < 0 then -aOffset else 0;
    var i2 := -bBitOffset / LIMB_BITS;
    if bp + LIMB_BITS <= 0 && i2 < i1 then i2 else i1
  }

  lemma SkipZeros(a: seq<Limb>, b: seq<Limb>, d: nat, tot: nat, rLen: nat, i: int, q: int)
    requires rLen <= tot && tot >= |a| && LIMB_BITS * (tot - |b|) >= d && rLen - tot <= i < 0
    requires var aOffset, bBitOffset := |a| - rLen, (|b| - rLen) * LIMB_BITS + d;
      var ap, bp := aOffset + i, bBitOffset + i * LIMB_BITS;
      ap < 0 && (bp + LIMB_BITS <= 0 || bp >= LIMB_BITS * |b|) && i <= q < SkipTo(a, b, aOffset, bBitOffset, i)
    ensures AValue(a, tot) / Pow(q + tot - rLen) % B == 0 && BValue(b, tot, d) / Pow(q + tot - rLen) % B == 0
  {
    hide Pow;
    hide AValue;
    hide BValue;
    hide GetBits;
    LimbsAt(a, b, d, tot, rLen, q);
    BitsOutside(b, (|b| - rLen) * LIMB_BITS + d + q * LIMB_BITS);
  }

  // The loop that computes the bits below the window, for the rounding.
  method LowLimbs(a: seq<Limb>, b: seq<Limb>, d: nat, tot: nat, rLen: nat, isSub: bool) returns (carry: Limb, z: bool)
    requires rLen <= tot && tot >= |a| && LIMB_BITS * (tot - |b|) >= d
    ensures LowState(AValue(a, tot), BValue(b, tot, d), isSub, tot - rLen, carry, z)
  {
    hide Pow;
    hide AValue;
    hide BValue;
    hide LowState;
    hide GetBits;
    ghost var x, y := AValue(a, tot), BValue(b, tot, d);
    var aOffset, bBitOffset := |a| - rLen, (|b| - rLen) * LIMB_BITS + d;
    carry, z := if isSub then 1 else 0, false;
    LowStart(x, y, isSub);
    var i := rLen - tot;
    while i < 0
      invariant rLen - tot <= i <= 0 && carry <= 1 && LowState(x, y, isSub, i + tot - rLen, carry, z)
    {
      var ap, bp := aOffset + i, bBitOffset + i * LIMB_BITS;
      var inflag := (ap >= 0 && ap < |a|) || (bp + LIMB_BITS > 0 && bp < LIMB_BITS * |b|);
      var v1 := if ap >= 0 && ap < |a| then a[ap] else 0;
      var v2 := if bp + LIMB_BITS > 0 && bp < LIMB_BITS * |b| then GetBits(b, bp) else 0;
      if !(bp + LIMB_BITS > 0 && bp < LIMB_BITS * |b|) {
        BitsOutside(b, bp);
      }
      LimbsAt(a, b, d, tot, rLen, i);
      var (u, c) := AddLimbs(v1, Masked(v2, isSub), carry);
      LowNext(x, y, isSub, i + tot - rLen, carry, z, v1, v2);
      ghost var prev := i;
      carry, z := c, z || u != 0;
      if inflag {
        i := i + 1;
      } else {
        // both limbs are zero down to the one that follows
        i := SkipTo(a, b, aOffset, bBitOffset, i);
        forall q: nat | prev + 1 + tot - rLen <= q < i + tot - rLen ensures x / Pow(q) % B == 0 && y / Pow(q) % B == 0 {
          SkipZeros(a, b, d, tot, rLen, prev, q - tot + rLen);
        }
        LowSkip(x, y, isSub, prev + 1 + tot - rLen, i + tot - rLen, carry, z);
      }
    }
  }

  // ----- The window -----

  lemma HighArith(t: int, t': int, p: int, pl: int, low: int, v: int, carry: int, u: int, carry': int, s: int)
    requires t' == t + p * v && t == low + s * pl + carry * p && v + carry == u + carry' * B
    ensures t' == low + (s * pl + u * p) + carry' * (B * p)
  {
    assert carry * p + p * v == p * (v + carry);
    assert p * (u + carry' * B) == u * p + carry' * (B * p);
  }

  method HighLimbs(a: seq<Limb>, b: seq<Limb>, d: nat, tot: nat, rLen: nat, isSub: bool, carry0: Limb)
    returns (t: seq<Limb>, carry: Limb)
    requires rLen <= tot && tot >= |a| && LIMB_BITS * (tot - |b|) >= d && carry0 <= 1
    ensures |t| == rLen && carry <= 1
    ensures var x, y, l := AValue(a, tot), BValue(b, tot, d), tot - rLen;
      Total(x, y, isSub, tot) == Total(x, y, isSub, l) - carry0 * Pow(l) + Val(t) * Pow(l) + carry * Pow(tot)
  {
    hide Pow;
    hide AValue;
    hide BValue;
    hide GetBits;
    hide Total;
    hide Val;
    ghost var x, y, l := AValue(a, tot), BValue(b, tot, d), tot - rLen;
    ghost var low := Total(x, y, isSub, l) - carry0 * Pow(l);
    t, carry := [], carry0;
    ValZeros([]);
    var i := 0;
    while i < rLen
      invariant 0 <= i <= rLen && |t| == i && carry <= 1
      invariant Total(x, y, isSub, l + i) == low + Val(t) * Pow(l) + carry * Pow(l + i)
    {
      var v1 := LimbAt(a, |a| - rLen + i);
      var v2 := GetBits(b, (|b| - rLen) * LIMB_BITS + d + i * LIMB_BITS);
      LimbsAt(a, b, d, tot, rLen, i);
      var (u, c) := AddLimbs(v1, Masked(v2, isSub), carry);
      TotalNext(x, y, isSub, l + i, v1, v2);
      PowStep(l + i);
      HighArith(Total(x, y, isSub, l + i), Total(x, y, isSub, l + i + 1), Pow(l + i), Pow(l), low,
                v1 as int + Masked(v2, isSub), carry, u, c, Val(t));
      ValSnoc(t, u);
      PowAdd(l, i);
      Widen(Val(t), u, Pow(i), Pow(l), Pow(l + i));
      t := t + [u];
      carry := c;
      i := i + 1;
    }
  }

  lemma PowStep(k: nat)
    ensures Pow(k + 1) == B * Pow(k)
  {
  }

  lemma Widen(s: int, u: int, pi: int, pl: int, p: int)
    requires p == pl * pi
    ensures (s + u * pi) * pl == s * pl + u * p
  {
    assert (u * pi) * pl == u * (pl * pi);
  }

  // ----- The exact sum -----

  // The value of n, with the sign neg, in units of 2^e.
  ghost function Signed(n: Num, neg: bool, e: int): int
    requires e <= n.expn - LIMB_BITS * |n.tab|
  {
    (if neg then -1 else 1) * (Val(n.tab) * Pow2(n.expn - LIMB_BITS * |n.tab| - e))
  }

  ghost function LowestBit(a: Num, b: Num): int {
    var ea, eb := a.expn - LIMB_BITS * |a.tab|, b.expn - LIMB_BITS * |b.tab|;
    if ea <= eb then ea else eb
  }

  // The sum of a and b, b taken with the sign bNeg, in units of the lower of their last bits.
  ghost function SumUnits(a: Num, b: Num, bNeg: bool): int {
    Signed(a, a.sign, LowestBit(a, b)) + Signed(b, bNeg, LowestBit(a, b))
  }

  ghost function SumOf(a: Num, b: Num, bNeg: bool): Exact {
    var m := SumUnits(a, b, bNeg);
    Exact(m < 0, if m < 0 then -m else m, 1, LowestBit(a, b))
  }

  // What addition of a and b, b with the sign bNeg, returns.
  ghost predicate AddResult(a: Num, b: Num, bNeg: bool, r: Num, ret: set<Status>, prec: nat, flags: Flags)
    requires flags.expBits >= 1
  {
    if a.expn == BF_EXP_NAN || b.expn == BF_EXP_NAN then r.tab == [] && r.expn == BF_EXP_NAN && ret == {}
    else if a.expn == BF_EXP_INF && b.expn == BF_EXP_INF && a.sign != bNeg
         then r.tab == [] && r.expn == BF_EXP_NAN && ret == {INVALID_OP}
    else if a.expn == BF_EXP_INF then r == Num(a.sign, BF_EXP_INF, []) && ret == {}
    else if b.expn == BF_EXP_INF then r == Num(bNeg, BF_EXP_INF, []) && ret == {}
    else if a.expn == BF_EXP_ZERO && b.expn == BF_EXP_ZERO then
      ret == {} && r == Num(if a.sign == bNeg then a.sign else flags.mode == RNDD, BF_EXP_ZERO, [])
    else if a.expn == BF_EXP_ZERO then RoundsNumber(b.(sign := bNeg), r, ret, prec, flags)
    else if b.expn == BF_EXP_ZERO then RoundsNumber(a, r, ret, prec, flags)
    else if SumUnits(a, b, bNeg) == 0 then ret == {} && r == Num(flags.mode == RNDD, BF_EXP_ZERO, [])
    else Valid(SumOf(a, b, bNeg)) && RoundsTo(SumOf(a, b, bNeg), r, {}, ret, prec, flags)
  }

  ghost predicate RoundsNumber(a: Num, r: Num, ret: set<Status>, prec: nat, flags: Flags)
    requires flags.expBits >= 1
  {
    Valid(ExactOf(a)) && RoundsTo(ExactOf(a), r, {}, ret, prec, flags)
  }

  // The laws of rounding for the exact sum, and for an operand next to zero.
  ghost predicate SumLaws(a: Num, b: Num, bNeg: bool, r: Num, ret: set<Status>, prec: nat, flags: Flags)
    requires flags.expBits >= 1
  {
    && (IsFinite(a) && IsFinite(b) && SumUnits(a, b, bNeg) != 0 ==> Laws(SumOf(a, b, bNeg), r, {}, ret, prec, flags))
    && (IsFinite(a) && b.expn == BF_EXP_ZERO ==> Laws(ExactOf(a), r, {}, ret, prec, flags))
    && (IsFinite(b) && a.expn == BF_EXP_ZERO ==> Laws(ExactOf(b.(sign := bNeg)), r, {}, ret, prec, flags))
  }

  lemma SumLawsHold(a: Num, b: Num, bNeg: bool, r: Num, ret: set<Status>, prec: nat, flags: Flags)
    requires flags.expBits >= 1 && prec >= 1 && (flags.subnormal ==> prec != BF_PREC_INF)
    requires AddResult(a, b, bNeg, r, ret, prec, flags)
    ensures SumLaws(a, b, bNeg, r, ret, prec, flags)
  {
    hide RoundsTo;
    hide Laws;
    hide SumUnits;
    hide LowestBit;
    hide Valid;
    if IsFinite(a) && IsFinite(b) && SumUnits(a, b, bNeg) != 0 {
      LawsHold(SumOf(a, b, bNeg), r, {}, ret, prec, flags);
    }
    if IsFinite(a) && b.expn == BF_EXP_ZERO {
      LawsHold(ExactOf(a), r, {}, ret, prec, flags);
    }
    if IsFinite(b) && a.expn == BF_EXP_ZERO {
      LawsHold(ExactOf(b.(sign := bNeg)), r, {}, ret, prec, flags);
    }
  }

  // ----- Aligned operands -----

  // The number of limbs that hold both operands exactly.
  function TotLen(a: Num, b: Num, d: nat): nat {
    Max(|a.tab|, |b.tab| + (d + LIMB_BITS - 1) / LIMB_BITS)
  }

  lemma TotLenOk(a: Num, b: Num, d: nat)
    ensures var tot := TotLen(a, b, d); tot >= |a.tab| && tot >= |b.tab| && LIMB_BITS * (tot - |b.tab|) >= d
  {
  }

  lemma ARange(a: seq<Limb>, tot: nat)
    requires Normal(a) && tot >= |a|
    ensures Pow(tot) <= 2 * AValue(a, tot) && 0 < AValue(a, tot) < Pow(tot)
  {
    hide Val;
    hide Pow2;
    hide Pow;
    NormalRange(a);
    PowPow2(tot - |a|);
    PowAdd(|a|, tot - |a|);
    RangeArith(Val(a), Pow(|a|), Pow(tot - |a|));
  }

  lemma BRange(b: seq<Limb>, d: nat, tot: nat)
    requires Normal(b) && tot >= |b| && LIMB_BITS * (tot - |b|) >= d
    ensures 0 < BValue(b, tot, d) && BValue(b, tot, d) * Pow2(d) < Pow(tot)
  {
    hide Val;
    hide Pow2;
    hide Pow;
    NormalRange(b);
    var q := tot - |b|;
    PowPow2(q);
    PowAdd(|b|, q);
    Pow2Add(LIMB_BITS * q - d, d);
    RangeArith2(Val(b), Pow(|b|), Pow2(LIMB_BITS * q - d), Pow2(d), Pow(q));
  }

  lemma RangeArith(v: int, p: int, s: int)
    requires p <= 2 * v && 0 < v < p && s > 0
    ensures p * s <= 2 * (v * s) && 0 < v * s < p * s
  {
    MulMono(p, 2 * v, s);
    assert (2 * v) * s == 2 * (v * s);
    MulStrict(v, p, s);
    MulStrict(0, v, s);
  }

  lemma RangeArith2(v: int, p: int, u: int, w: int, q: int)
    requires 0 < v < p && u > 0 && w > 0 && q == u * w
    ensures 0 < v * u && (v * u) * w < p * q
  {
    MulStrict(0, v, u);
    assert (v * u) * w == v * (u * w);
    MulStrict(0, u, w);
    MulStrict(v, p, q);
  }

  // The larger operand comes first.
  lemma Ordered(a: Num, b: Num, d: nat, tot: nat)
    requires Normal(a.tab) && Normal(b.tab) && tot >= |a.tab| && LIMB_BITS * (tot - |b.tab|) >= d >= 1
    ensures var x, y := AValue(a.tab, tot), BValue(b.tab, tot, d); y < x && (d >= 2 ==> Pow(tot) < 4 * (x - y))
  {
    ARange(a.tab, tot);
    BRange(b.tab, d, tot);
    assert Pow2(d) == 2 * Pow2(d - 1);
    if d >= 2 {
      assert Pow2(d - 1) == 2 * Pow2(d - 2);
    }
    hide AValue;
    hide BValue;
    hide Pow2;
    hide Pow;
    var y := BValue(b.tab, tot, d);
    if d >= 2 {
      MulMono(4, Pow2(d), y);
      assert y * Pow2(d) == Pow2(d) * y;
    } else {
      MulMono(2, Pow2(d), y);
      assert y * Pow2(d) == Pow2(d) * y;
    }
  }

  lemma EqualExpn(a: Num, b: Num)
    ensures var tot := TotLen(a, b, 0); tot == Max(|a.tab|, |b.tab|) && BValue(b.tab, tot, 0) == AValue(b.tab, tot)
  {
  }

  // ----- The finite case -----

  lemma WindowArith(s: int, t: int, l: int, tl: int, carry0: int, carry: int, pl: int, pr: int, pt: int, isSub: bool)
    requires pl > 0 && pr > 0 && pt == pl * pr && 0 <= t < pr && 0 <= carry <= 1 && 0 <= s && carry0 == tl / pl
    requires l == tl - carry0 * pl + t * pl + carry * pt && l == if isSub then s + pt else s
    ensures var u := if !isSub && carry == 1 then t + pr else t;
      u == s / pl && tl % pl == s % pl
  {
    assert tl == carry0 * pl + tl % pl;
    MulMono(t + 1, pr, pl);
    assert (t + 1) * pl == t * pl + pl;
    assert (t + pr) * pl == t * pl + pl * pr;
    MulPos(t, pl);
    var u := if !isSub && carry == 1 then t + pr else t;
    DivIs(s, pl, u, tl % pl);
  }

  // The window is the exact sum cut at its lowest limb; z tells whether something was cut.
  lemma WindowIsSum(x: int, y: int, isSub: bool, tot: nat, rLen: nat, carry0: Limb, z: bool, t: seq<Limb>, carry: Limb)
    requires rLen <= tot && 0 <= x < Pow(tot) && 0 <= y < Pow(tot) && (isSub ==> y < x)
    requires LowState(x, y, isSub, tot - rLen, carry0, z) && |t| == rLen && carry <= 1
    requires Total(x, y, isSub, tot) == Total(x, y, isSub, tot - rLen) - carry0 * Pow(tot - rLen)
               + Val(t) * Pow(tot - rLen) + carry * Pow(tot)
    ensures var s, p := if isSub then x - y else x + y, Pow(tot - rLen);
      (if !isSub && carry == 1 then Val(t) + Pow(rLen) else Val(t)) == s / p && (z <==> s % p != 0)
  {
    hide Val;
    TotalAll(x, y, isSub, tot);
    PowAdd(tot - rLen, rLen);
    ValBound(t);
    hide Pow;
    hide Total;
    WindowArith(if isSub then x - y else x + y, Val(t), Total(x, y, isSub, tot), Total(x, y, isSub, tot - rLen),
                carry0, carry, Pow(tot - rLen), Pow(rLen), Pow(tot), isSub);
  }

  // The limbs of the result before normalization.
  method SumLimbs(a: seq<Limb>, b: seq<Limb>, d: nat, tot: nat, rLen: nat, isSub: bool)
    returns (t: seq<Limb>, ghost cut: bool)
    requires 1 <= rLen <= tot && tot >= |a| && LIMB_BITS * (tot - |b|) >= d
    requires var x, y := AValue(a, tot), BValue(b, tot, d); 0 <= x < Pow(tot) && 0 <= y < Pow(tot) && (isSub ==> y < x)
    ensures |t| == rLen || |t| == rLen + 1
    ensures var x, y, p := AValue(a, tot), BValue(b, tot, d), Pow(tot - rLen); var s := if isSub then x - y else x + y;
      Val(t) == Sticky(s / p, cut) && (cut <==> s % p != 0)
  {
    hide Pow;
    hide AValue;
    hide BValue;
    hide Total;
    hide Val;
    hide LowState;
    ghost var x, y := AValue(a, tot), BValue(b, tot, d);
    var carry0, z := LowLimbs(a, b, d, tot, rLen, isSub);
    CarryBit(x, y, isSub, tot - rLen, carry0, z);
    var carry: Limb;
    t, carry := HighLimbs(a, b, d, tot, rLen, isSub, carry0);
    WindowIsSum(x, y, isSub, tot, rLen, carry0, z, t, carry);
    cut := z;
    // a difference leaves no carry: it is below the larger operand
    ghost var whole := if !isSub && carry == 1 then t + [1] else t;
    if !isSub && carry == 1 {
      ValSnoc(t, 1);
    }
    StickyLimb(whole, z);
    assert whole[0] == t[0];
    // the lowest bit stands for everything below the window
    t := t[0 := RoundSticky(t[0], z)];
    if !isSub && carry != 0 {
      t := t + [1];
    }
    assert t == whole[0 := RoundSticky(whole[0], z)];
  }

  // Enough limbs are kept: at least prec + 2 bits, or all of them.
  lemma WideEnough(x: Exact, s: int, p: int, tot: nat, rLen: nat, cancelled: nat, prec: nat)
    requires rLen < tot && LIMB_BITS * rLen >= cancelled + prec + 2 && x.num == s && x.den == p == Pow(tot - rLen)
    requires Pow2(LIMB_BITS * tot - cancelled - 1) <= s
    ensures Valid(x) && Width(x) >= prec + 2
  {
    var w := LIMB_BITS * rLen - cancelled;
    PowPow2(tot - rLen);
    Pow2Add(w - 1, LIMB_BITS * (tot - rLen));
    assert w - 1 + LIMB_BITS * (tot - rLen) == LIMB_BITS * tot - cancelled - 1;
    hide Pow2;
    MulMono(1, Pow2(w - 1), p);
    WidthAtLeast(x, w);
  }

  lemma ValueOfWindow(neg: bool, s: int, expn: int, tot: nat, rLen: nat)
    requires rLen <= tot
    ensures EqualValue(Exact(neg, s, Pow(tot - rLen), expn - LIMB_BITS * rLen),
                       Exact(neg, s, 1, expn - LIMB_BITS * tot))
  {
    PowPow2(tot - rLen);
    assert Pow2(0) == 1;
  }

  // How many leading bits a difference can lose.
  method LeadingLoss(a: BfT, b: BfT, d: nat, isSub: bool, ghost tot: nat) returns (cancelled: nat)
    requires Normal(a.tab) && Normal(b.tab) && tot >= |a.tab| && LIMB_BITS * (tot - |b.tab|) >= d
    requires isSub ==> BValue(b.tab, tot, d) < AValue(a.tab, tot)
    ensures var x, y := AValue(a.tab, tot), BValue(b.tab, tot, d);
      cancelled < LIMB_BITS * tot ==> Pow2(LIMB_BITS * tot - cancelled - 1) <= if isSub then x - y else x + y
  {
    hide AValue;
    hide BValue;
    ARange(a.tab, tot);
    BRange(b.tab, d, tot);
    TopPowers(tot, |a.tab|);
    if isSub {
      if d <= 1 {
        ghost var k;
        cancelled, k := CountCancelledBits(a.tab, b.tab, d, tot);
        CancelledBounds(AValue(a.tab, tot), BValue(b.tab, tot, d), LIMB_BITS * tot, cancelled, k);
      } else {
        cancelled := 1;
        Ordered(a.Value(), b.Value(), d, tot);
      }
    } else {
      cancelled := 0;
    }
  }

  lemma TopPowers(tot: nat, n: nat)
    requires tot >= n >= 1
    ensures Pow(tot) == 2 * Pow2(LIMB_BITS * tot - 1) && Pow(tot) == 4 * Pow2(LIMB_BITS * tot - 2)
  {
    PowPow2(tot);
    assert Pow2(LIMB_BITS * tot) == 2 * Pow2(LIMB_BITS * tot - 1) &&
        Pow2(LIMB_BITS * tot - 1) == 2 * Pow2(LIMB_BITS * tot - 2);
  }

  // The exact sum or difference of the aligned mantissas.
  ghost function SumUnitsAligned(a: seq<Limb>, b: seq<Limb>, d: nat, tot: nat, isSub: bool): int
    requires tot >= |a| && LIMB_BITS * (tot - |b|) >= d
  {
    if isSub then AValue(a, tot) - BValue(b, tot, d) else AValue(a, tot) + BValue(b, tot, d)
  }

  // The window of rLen limbs, normalized and rounded.
  method AddWindow(r: BfT, a: BfT, b: BfT, aSign: bool, isSub: bool, d: nat, totLen: nat, rLen: nat,
                   ghost cancelled: nat, prec: nat, flags: Flags)
    returns (ret: set<Status>)
    requires r != a && r != b && 1 <= rLen <= totLen && totLen >= |a.tab| && LIMB_BITS * (totLen - |b.tab|) >= d
    requires flags.expBits >= 1 && !flags.radpntPrec && prec >= 1 && (flags.subnormal ==> prec != BF_PREC_INF)
    requires var x, y := AValue(a.tab, totLen), BValue(b.tab, totLen, d);
      0 <= x < Pow(totLen) && 0 <= y < Pow(totLen) && (isSub ==> y < x)
    requires rLen == totLen || LIMB_BITS * rLen >= cancelled + prec + 2
    requires var s := SumUnitsAligned(a.tab, b.tab, d, totLen, isSub);
      s > 0 && (cancelled < LIMB_BITS * totLen ==> Pow2(LIMB_BITS * totLen - cancelled - 1) <= s)
    modifies r
    ensures var e := Exact(aSign, SumUnitsAligned(a.tab, b.tab, d, totLen, isSub), 1, a.expn - LIMB_BITS * totLen);
      Valid(e) && RoundsTo(e, r.Value(), {}, ret, prec, flags)
  {
    hide AValue;
    hide BValue;
    hide Val;
    hide Pow;
    hide Pow2;
    hide RoundsTo;
    ghost var s := SumUnitsAligned(a.tab, b.tab, d, totLen, isSub);
    var t, cut := SumLimbs(a.tab, b.tab, d, totLen, rLen, isSub);
    r.sign, r.tab := aSign, t;
    r.expn := a.expn + LIMB_BITS * (|t| - rLen);
    WindowValid(aSign, s, a.expn, totLen, rLen, cut, cancelled, prec);
    hide Width;
    ret := r.NormalizeAndRound(prec, flags);
    WindowRounds(aSign, s, a.expn, totLen, rLen, cut, cancelled, r.Value(), ret, prec, flags);
  }

  // |a| > |b|, for exponents in the same order.
  ghost predicate Larger(a: Num, b: Num)
    requires a.expn >= b.expn
  {
    var d := a.expn - b.expn;
    TotLenOk(a, b, d);
    BValue(b.tab, TotLen(a, b, d), d) < AValue(a.tab, TotLen(a, b, d))
  }

  // r is the sum or difference of the aligned mantissas, rounded.
  ghost predicate FiniteSum(a: Num, b: Num, aSign: bool, isSub: bool, r: Num, ret: set<Status>, prec: nat, flags: Flags)
    requires flags.expBits >= 1 && a.expn >= b.expn
  {
    var d := a.expn - b.expn;
    TotLenOk(a, b, d);
    var e := Exact(aSign, SumUnitsAligned(a.tab, b.tab, d, TotLen(a, b, d), isSub), 1,
                   a.expn - LIMB_BITS * TotLen(a, b, d));
    Valid(e) && RoundsTo(e, r, {}, ret, prec, flags)
  }

  // The limbs that hold the given number of bits.
  function LimbsFor(bits: nat): (n: nat)
    requires bits >= 1
    ensures n >= 1 && LIMB_BITS * n >= bits
  {
    (bits + LIMB_BITS - 1) / LIMB_BITS
  }

  // The finite case of bf_add_internal, for |a| > |b| when subtracting.
  method AddFinite(r: BfT, a: BfT, b: BfT, aSign: bool, isSub: bool, prec: nat, flags: Flags) returns (ret: set<Status>)
    requires r != a && r != b && Normal(a.tab) && Normal(b.tab) && a.expn >= b.expn && prec >= 1
    requires flags.expBits >= 1 && !flags.radpntPrec && (flags.subnormal ==> prec != BF_PREC_INF)
    requires isSub ==> Larger(a.Value(), b.Value())
    modifies r
    ensures FiniteSum(a.Value(), b.Value(), aSign, isSub, r.Value(), ret, prec, flags)
  {
    assert a.tab != [];
    hide AValue;
    hide BValue;
    hide Pow;
    hide Pow2;
    hide RoundsTo;
    hide Normal;
    hide LimbsFor;
    hide Valid;
    var d := a.expn - b.expn;
    var totLen := TotLen(a.Value(), b.Value(), d);
    TotLenOk(a.Value(), b.Value(), d);
    hide TotLen;
    var cancelled := LeadingLoss(a, b, d, isSub, totLen);
    ARange(a.tab, totLen);
    BBelow(b.tab, d, totLen);
    // the two bits the sticky rounding relies on
    var precl := LimbsFor(cancelled + prec + 2);
    var rLen := if precl < totLen then precl else totLen;
    ret := AddWindow(r, a, b, aSign, isSub, d, totLen, rLen, cancelled, prec, flags);
  }

  // The window, as a quotient of the exact sum.
  ghost function WindowOf(neg: bool, s: int, expn: int, tot: nat, rLen: nat): Exact
    requires rLen <= tot
  {
    Exact(neg, s, Pow(tot - rLen), expn - LIMB_BITS * rLen)
  }

  lemma WindowValid(neg: bool, s: int, expn: int, tot: nat, rLen: nat, cut: bool, cancelled: nat, prec: nat)
    requires rLen <= tot && s > 0 && (rLen == tot || LIMB_BITS * rLen >= cancelled + prec + 2)
    requires cancelled < LIMB_BITS * tot ==> Pow2(LIMB_BITS * tot - cancelled - 1) <= s
    requires cut <==> s % Pow(tot - rLen) != 0
    ensures var x := WindowOf(neg, s, expn, tot, rLen);
      Valid(x) && Sticky(s / Pow(tot - rLen), cut) >= 1 && (!cut || prec + 2 <= Width(x))
  {
    hide Pow;
    hide Pow2;
    var x := WindowOf(neg, s, expn, tot, rLen);
    if rLen < tot {
      WideEnough(x, s, Pow(tot - rLen), tot, rLen, cancelled, prec);
    } else {
      PowOne();
      NothingCut(x);
    }
    NotZero(x, cut);
  }

  lemma WindowRounds(neg: bool, s: int, expn: int, tot: nat, rLen: nat, cut: bool, cancelled: nat, r: Num,
                     ret: set<Status>, prec: nat, flags: Flags)
    requires flags.expBits >= 1 && !flags.radpntPrec
    requires rLen <= tot && s > 0 && (rLen == tot || LIMB_BITS * rLen >= cancelled + prec + 2)
    requires cancelled < LIMB_BITS * tot ==> Pow2(LIMB_BITS * tot - cancelled - 1) <= s
    requires cut <==> s % Pow(tot - rLen) != 0
    requires var y := Exact(neg, Sticky(s / Pow(tot - rLen), cut), 1, expn - LIMB_BITS * rLen);
      Valid(y) && RoundsTo(y, r, {}, ret, prec, flags)
    ensures var e := Exact(neg, s, 1, expn - LIMB_BITS * tot); Valid(e) && RoundsTo(e, r, {}, ret, prec, flags)
  {
    hide Pow;
    hide Pow2;
    hide RoundsTo;
    hide EqualValue;
    var x, e := WindowOf(neg, s, expn, tot, rLen), Exact(neg, s, 1, expn - LIMB_BITS * tot);
    WindowValid(neg, s, expn, tot, rLen, cut, cancelled, prec);
    hide Width;
    PrecAtMost(Expn(x), prec, flags);
    StickyExact(x, s / Pow(tot - rLen), cut, r, {}, ret, prec, flags);
    ValueOfWindow(neg, s, expn, tot, rLen);
    EqualRounds(x, e, r, {}, ret, prec, flags);
  }

  lemma BBelow(b: seq<Limb>, d: nat, tot: nat)
    requires Normal(b) && tot >= |b| && LIMB_BITS * (tot - |b|) >= d
    ensures 0 < BValue(b, tot, d) < Pow(tot)
  {
    BRange(b, d, tot);
    hide BValue;
    hide Pow;
    hide Pow2;
    MulMono(1, Pow2(d), BValue(b, tot, d));
  }

  lemma NothingCut(x: Exact)
    requires x.den == 1 && x.num >= 1
    ensures Valid(x) && x.num % x.den == 0
  {
    DivIs(x.num, 1, x.num, 0);
  }

  // ----- All cases -----

  lemma UnitsOf(n: Num, neg: bool, scale: int, low: int, v: int)
    requires low <= n.expn - LIMB_BITS * |n.tab| && scale <= low
    requires v == Val(n.tab) * Pow2(n.expn - LIMB_BITS * |n.tab| - scale)
    ensures Signed(n, neg, low) * Pow2(low - scale) == if neg then -v else v
  {
    hide Val;
    var k := n.expn - LIMB_BITS * |n.tab| - low;
    Pow2Add(k, low - scale);
    hide Pow2;
    var m, p, q := Val(n.tab), Pow2(k), Pow2(low - scale);
    assert m * (p * q) == (m * p) * q;
    assert (-(m * p)) * q == -((m * p) * q);
    assert 1 * (m * p) == m * p && -1 * (m * p) == -(m * p);
  }

  // The exact sum in units of the window and in units of the last bits, for |a| >= |b|.
  lemma SumValue(a: Num, b: Num, aSign: bool, bSign: bool, d: nat, tot: nat, s: int)
    requires d == a.expn - b.expn && tot >= |a.tab| && LIMB_BITS * (tot - |b.tab|) >= d
    requires var x, y := AValue(a.tab, tot), BValue(b.tab, tot, d); s == if aSign != bSign then x - y else x + y
    ensures var low := LowestBit(a, b); var m := Signed(a, aSign, low) + Signed(b, bSign, low);
      && (if aSign then -s else s) == m * Pow2(low - (a.expn - LIMB_BITS * tot))
  {
    hide Val;
    var low, scale := LowestBit(a, b), a.expn - LIMB_BITS * tot;
    assert scale <= low;
    hide Pow2;
    var x, y := AValue(a.tab, tot), BValue(b.tab, tot, d);
    UnitsOf(a, aSign, scale, low, x);
    UnitsOf(b, bSign, scale, low, y);
    hide Signed;
    hide AValue;
    hide BValue;
    SumArith(Signed(a, aSign, low), Signed(b, bSign, low), Pow2(low - scale), x, y, s, aSign, bSign);
  }

  lemma SumArith(sa: int, sb: int, p: int, x: int, y: int, s: int, aSign: bool, bSign: bool)
    requires sa * p == (if aSign then -x else x) && sb * p == (if bSign then -y else y) &&
             s == if aSign != bSign then x - y else x + y
    ensures (if aSign then -s else s) == (sa + sb) * p
  {
    assert (sa + sb) * p == sa * p + sb * p;
  }

  // From the window's result to the specification, whichever operand was larger.
  lemma SumRounds(aSign: bool, s: int, scale: int, m: int, low: int, r: Num, ret: set<Status>, prec: nat, flags: Flags)
    requires flags.expBits >= 1 && s > 0 && scale <= low && (if aSign then -s else s) == m * Pow2(low - scale)
    requires var e := Exact(aSign, s, 1, scale); Valid(e) && RoundsTo(e, r, {}, ret, prec, flags)
    ensures m != 0 && var e := Exact(m < 0, if m < 0 then -m else m, 1, low);
      Valid(e) && RoundsTo(e, r, {}, ret, prec, flags)
  {
    hide Pow2;
    hide RoundsTo;
    hide EqualValue;
    var m' := if m < 0 then -m else m;
    MagnitudeOf(m, Pow2(low - scale), if aSign then -s else s, s, m');
    EqualScaled(aSign, s, scale, m', low);
    EqualRounds(Exact(aSign, s, 1, scale), Exact(m < 0, m', 1, low), r, {}, ret, prec, flags);
  }

  lemma MagnitudeOf(m: int, p: int, v: int, s: int, m': int)
    requires p > 0 && v == m * p && s > 0 && (v == s || v == -s) && m' == if m < 0 then -m else m
    ensures m != 0 && (m < 0 <==> v < 0) && s == m' * p && m' >= 1
  {
    SignOf(m, p, v);
    assert (-m) * p == -(m * p);
  }

  lemma EqualScaled(neg: bool, s: int, scale: int, m: int, low: int)
    requires scale <= low && s == m * Pow2(low - scale)
    ensures EqualValue(Exact(neg, s, 1, scale), Exact(neg, m, 1, low))
  {
    assert Pow2(0) == 1;
  }

  lemma SignOf(m: int, p: int, v: int)
    requires p > 0 && v == m * p && v != 0
    ensures m != 0 && (m < 0 <==> v < 0)
  {
    if m < 0 {
      MulMono(m, -1, p);
    } else {
      MulPos(m, p);
    }
  }

  // The finite sum in units of the last bits.
  lemma FiniteSumIs(a: Num, b: Num, aSign: bool, bSign: bool, r: Num, ret: set<Status>, prec: nat, flags: Flags)
    requires flags.expBits >= 1 && a.expn >= b.expn && Normal(a.tab) && Normal(b.tab)
    requires aSign != bSign ==> Larger(a, b)
    requires FiniteSum(a, b, aSign, aSign != bSign, r, ret, prec, flags)
    ensures var low := LowestBit(a, b); var m := Signed(a, aSign, low) + Signed(b, bSign, low);
      var e := Exact(m < 0, if m < 0 then -m else m, 1, low);
      m != 0 && Valid(e) && RoundsTo(e, r, {}, ret, prec, flags)
  {
    hide AValue;
    hide BValue;
    hide RoundsTo;
    hide Pow2;
    hide Pow;
    var d := a.expn - b.expn;
    var tot := TotLen(a, b, d);
    TotLenOk(a, b, d);
    hide TotLen;
    ARange(a.tab, tot);
    BBelow(b.tab, d, tot);
    var s := SumUnitsAligned(a.tab, b.tab, d, tot, aSign != bSign);
    SumValue(a, b, aSign, bSign, d, tot, s);
    var low := LowestBit(a, b);
    SumRounds(aSign, s, a.expn - LIMB_BITS * tot, Signed(a, aSign, low) + Signed(b, bSign, low), low, r, ret, prec,
              flags);
  }

  // Swapping the operands swaps the terms.
  lemma SumSwapped(a: Num, b: Num, bNeg: bool)
    ensures SumUnits(a, b, bNeg) == Signed(b, bNeg, LowestBit(b, a)) + Signed(a, a.sign, LowestBit(b, a))
  {
    hide Signed;
  }

  // Equal absolute values cancel exactly when the signs differ.
  lemma EqualMagnitudes(a: Num, b: Num, bNeg: bool)
    requires Normal(a.tab) && Normal(b.tab) && a.expn == b.expn && a.sign != bNeg
    requires var len := Max(|a.tab|, |b.tab|); AValue(a.tab, len) == AValue(b.tab, len)
    ensures SumUnits(a, b, bNeg) == 0
  {
    var tot := Max(|a.tab|, |b.tab|);
    EqualExpn(a, b);
    SumValueEqual(a, b, a.sign, bNeg, tot);
    SignZero(SumUnits(a, b, bNeg), LowestBit(a, b) - (a.expn - LIMB_BITS * tot));
  }

  lemma SignZero(m: int, k: nat)
    requires m * Pow2(k) == 0
    ensures m == 0
  {
    hide Pow2;
    if m > 0 {
      MulMono(1, m, Pow2(k));
    } else if m < 0 {
      MulMono(m, -1, Pow2(k));
    }
  }

  lemma SumValueEqual(a: Num, b: Num, aSign: bool, bSign: bool, tot: nat)
    requires Normal(a.tab) && Normal(b.tab) && a.expn == b.expn && aSign != bSign && tot == Max(|a.tab|, |b.tab|)
    requires AValue(a.tab, tot) == AValue(b.tab, tot)
    ensures LowestBit(a, b) >= a.expn - LIMB_BITS * tot
    ensures 0 == (Signed(a, aSign, LowestBit(a, b))
                    + Signed(b, bSign, LowestBit(a, b))) * Pow2(LowestBit(a, b) - (a.expn - LIMB_BITS * tot))
  {
    ARange(a.tab, tot);
    EqualExpn(a, b);
    SumValue(a, b, aSign, bSign, 0, tot, 0);
  }

  // The order of absolute values from the comparison.
  lemma LargerIs(a: Num, b: Num)
    requires Normal(a.tab) && Normal(b.tab) && a.expn >= b.expn
    requires a.expn == b.expn ==> var len := Max(|a.tab|, |b.tab|); AValue(a.tab, len) > AValue(b.tab, len)
    ensures Larger(a, b)
  {
    var d := a.expn - b.expn;
    TotLenOk(a, b, d);
    if d == 0 {
      EqualExpn(a, b);
    } else {
      hide AValue;
      hide BValue;
      hide TotLen;
      Ordered(a, b, d, TotLen(a, b, d));
    }
  }

  lemma EmptyValue(len: nat)
    ensures AValue([], len) == 0
  {
  }

  // The cases of bf_add_internal with an operand that is zero, infinite or not a number; a is the
  // operand with the larger absolute value.
  method AddSpecial(r: BfT, a: BfT, b: BfT, aSign: bool, isSub: bool, prec: nat, flags: Flags)
    returns (ret: set<Status>)
    requires r != a && r != b && WellFormed(a.Value()) && WellFormed(b.Value()) && prec >= 1
    requires a.expn >= b.expn && (a.tab == [] || b.tab == []) && !(a.expn == BF_EXP_ZERO && isSub)
    requires flags.expBits >= 1 && (flags.subnormal && !flags.radpntPrec ==> prec != BF_PREC_INF)
    modifies r
    ensures a.expn == BF_EXP_NAN ==> r.tab == [] && r.expn == BF_EXP_NAN && ret == {}
    ensures a.expn == BF_EXP_INF && b.expn == BF_EXP_INF && isSub ==>
            r.tab == [] && r.expn == BF_EXP_NAN && ret == {INVALID_OP}
    ensures a.expn == BF_EXP_INF && !(b.expn == BF_EXP_INF && isSub) ==>
            r.Value() == Num(aSign, BF_EXP_INF, []) && ret == {}
    ensures a.expn == BF_EXP_ZERO ==> r.Value() == Num(aSign, BF_EXP_ZERO, []) && ret == {}
    ensures IsFinite(a.Value()) ==> b.expn == BF_EXP_ZERO &&
                                    RoundsNumber(a.Value().(sign := aSign), r.Value(), ret, prec, flags)
  {
    hide Val;
    hide RoundsTo;
    hide Valid;
    if a.expn >= BF_EXP_INF {
      if a.expn == BF_EXP_NAN {
        // the order of exponents puts a number that is none first
        r.sign, r.expn, r.tab := false, BF_EXP_NAN, [];
        return {};
      } else if b.expn == BF_EXP_INF && isSub {
        // infinity minus infinity
        r.sign, r.expn, r.tab := false, BF_EXP_NAN, [];
        return {INVALID_OP};
      } else {
        r.sign, r.expn, r.tab := aSign, BF_EXP_INF, [];
        return {};
      }
    }
    // b is zero
    r.sign, r.expn, r.tab := aSign, a.expn, a.tab;
    if a.tab == [] {
      ValZeros([]);
    } else {
      NormalRange(a.tab);
    }
    ret := r.NormalizeAndRound(prec, flags);
  }

  // bf_add_internal; the operands of bf_add and bf_sub that coincide with the result are copied by
  // their caller
  method Add(r: BfT, a0: BfT, b0: BfT, prec: nat, flags: Flags, bNeg: bool) returns (ret: set<Status>)
    requires r != a0 && r != b0 && WellFormed(a0.Value()) && WellFormed(b0.Value())
    requires flags.expBits >= 1 && !flags.radpntPrec && prec >= 1 && (flags.subnormal ==> prec != BF_PREC_INF)
    modifies r
    ensures AddResult(a0.Value(), b0.Value(), b0.sign != bNeg, r.Value(), ret, prec, flags)
    ensures SumLaws(a0.Value(), b0.Value(), b0.sign != bNeg, r.Value(), ret, prec, flags)
  {
    ret := AddSorted(r, a0, b0, prec, flags, bNeg);
    hide AddResult;
    hide SumLaws;
    SumLawsHold(a0.Value(), b0.Value(), b0.sign != bNeg, r.Value(), ret, prec, flags);
  }

  // The steps of bf_add_internal.
  method AddSorted(r: BfT, a0: BfT, b0: BfT, prec: nat, flags: Flags, bNeg: bool) returns (ret: set<Status>)
    requires r != a0 && r != b0 && WellFormed(a0.Value()) && WellFormed(b0.Value())
    requires flags.expBits >= 1 && !flags.radpntPrec && prec >= 1 && (flags.subnormal ==> prec != BF_PREC_INF)
    modifies r
    ensures AddResult(a0.Value(), b0.Value(), b0.sign != bNeg, r.Value(), ret, prec, flags)
  {
    hide AValue;
    hide RoundsTo;
    hide Valid;
    hide Signed;
    hide LowestBit;
    hide Larger;
    hide FiniteSum;
    hide Normal;
    var a, b := a0, b0;
    var aSign, bSign := a.sign, b.sign != bNeg;
    var isSub := aSign != bSign;
    var cmpRes := Cmpu(a.Value(), b.Value());
    EmptyValue(0);
    if cmpRes < 0 {
      a, b := b0, a0;
      aSign := bSign;
    }
    if cmpRes == 0 && isSub && a.expn < BF_EXP_INF {
      // zero result
      r.SetZero(flags.mode == RNDD);
      if IsFinite(a.Value()) {
        EqualMagnitudes(a0.Value(), b0.Value(), bSign);
      }
      return {};
    }
    if |a.tab| == 0 || |b.tab| == 0 {
      SpecialOrder(a0.Value(), b0.Value(), cmpRes);
      ret := AddSpecial(r, a, b, aSign, isSub, prec, flags);
    } else {
      LargerOperand(a0.Value(), b0.Value(), cmpRes, isSub);
      ret := AddFinite(r, a, b, aSign, isSub, prec, flags);
      FiniteSumIs(a.Value(), b.Value(), aSign, if isSub then !aSign else aSign, r.Value(), ret, prec, flags);
      SumSwapped(a0.Value(), b0.Value(), bSign);
      SameLowest(a0.Value(), b0.Value());
    }
  }

  lemma SameLowest(a: Num, b: Num)
    ensures LowestBit(a, b) == LowestBit(b, a)
  {
  }

  lemma SpecialOrder(a: Num, b: Num, cmpRes: int)
    requires WellFormed(a) && WellFormed(b) && (a.tab == [] || b.tab == [])
    requires a.expn != b.expn ==> cmpRes == if a.expn < b.expn then -1 else 1
    requires a.expn == b.expn ==> var len := Max(|a.tab|, |b.tab|); var x, y := AValue(a.tab, len), AValue(b.tab, len);
      cmpRes == if x < y then -1 else if x > y then 1 else 0
    ensures a.expn == b.expn ==> cmpRes == 0
  {
    hide AValue;
    if a.expn == b.expn {
      assert a.tab == [] && b.tab == [];
    }
  }

  lemma LargerOperand(a: Num, b: Num, cmpRes: int, isSub: bool)
    requires Normal(a.tab) && Normal(b.tab) && (isSub ==> cmpRes != 0)
    requires a.expn != b.expn ==> cmpRes == if a.expn < b.expn then -1 else 1
    requires a.expn == b.expn ==> var len := Max(|a.tab|, |b.tab|); var x, y := AValue(a.tab, len), AValue(b.tab, len);
      cmpRes == if x < y then -1 else if x > y then 1 else 0
    ensures cmpRes >= 0 ==> a.expn >= b.expn && (isSub ==> Larger(a, b))
    ensures cmpRes < 0 ==> b.expn >= a.expn && (isSub ==> Larger(b, a))
  {
    hide AValue;
    hide Larger;
    if cmpRes > 0 {
      LargerIs(a, b);
    } else if cmpRes < 0 {
      LargerIs(b, a);
    }
  }
}
