// __bf_round, bf_get_rnd_add and bf_normalize_and_round of quickjs/libbf.c: rounding of a mantissa in
// place, for every precision and rounding mode.

module BfRound {
  import opened Limbs
  import opened Bits
  import opened Rounding

  const BF_EXP_ZERO: int := -0x8000_0000_0000_0000
  const BF_EXP_INF: int := 0x7fff_ffff_ffff_fffe
  const BF_EXP_NAN: int := 0x7fff_ffff_ffff_ffff
  const BF_PREC_INF: int := 0x3fff_ffff_ffff_ffff

  datatype Status = INVALID_OP | DIVIDE_ZERO | OVERFLOW | UNDERFLOW | INEXACT

  datatype Flags = Flags(mode: RndMode, subnormal: bool, radpntPrec: bool, expBits: nat)

  // A number without its storage: the value is Val(tab) * 2^(expn - 64 * |tab|).
  datatype Num = Num(sign: bool, expn: int, tab: seq<Limb>)

  // The most significant bit is set.
  predicate Normal(tab: seq<Limb>) {
    tab != [] && tab[|tab| - 1] >= HALF
  }

  // m1 * 2^e1 == m2 * 2^e2
  ghost predicate SameValue(m1: int, e1: int, m2: int, e2: int) {
    if e1 >= e2 then m1 * Pow2(e1 - e2) == m2 else m1 == m2 * Pow2(e2 - e1)
  }

  function EMin(flags: Flags): int
    requires flags.expBits >= 1
  {
    3 - Pow2(flags.expBits - 1)
  }

  function EMax(flags: Flags): int
    requires flags.expBits >= 1
  {
    Pow2(flags.expBits - 1)
  }

  // The number of mantissa bits to round to; it can be zero or negative.
  function EffectivePrec(expn: int, prec1: nat, flags: Flags): int
    requires flags.expBits >= 1
  {
    if flags.radpntPrec then (if prec1 != BF_PREC_INF then expn + prec1 else prec1)
    else if expn < EMin(flags) && flags.subnormal then prec1 - (EMin(flags) - expn)
    else prec1
  }

  // The last bit kept, in units of the lowest bit of l limbs.
  ghost function Unit(l: nat, prec: int): int {
    if prec >= LIMB_BITS * l then 1 else Pow2(LIMB_BITS * l - prec)
  }

  // The mantissa a rounds to, in units of its lowest bit.
  ghost function RoundedMantissa(a: Num, prec: int, mode: RndMode): int {
    UnitPositive(|a.tab|, prec);
    RoundQ(Val(a.tab), Unit(|a.tab|, prec), a.sign, mode) * Unit(|a.tab|, prec)
  }

  lemma UnitPositive(l: nat, prec: int)
    ensures Unit(l, prec) > 0
  {
  }

  ghost predicate IsInfinite(r: Num) {
    r.tab == [] && r.expn == BF_EXP_INF
  }

  // The largest finite number with prec bits.
  ghost predicate IsLargest(r: Num, prec: nat, eMax: int) {
    var l := (prec + LIMB_BITS - 1) / LIMB_BITS;
    |r.tab| == l && r.expn == eMax && Val(r.tab) + Pow2(LIMB_BITS * l - prec) == Pow(l)
  }

  predicate OverflowsToInfinity(sign: bool, prec: nat, mode: RndMode) {
    prec == BF_PREC_INF || mode == RNDN || mode == RNDNA || mode == RNDA || (mode == RNDD && sign) ||
        (mode == RNDU && !sign)
  }

  // With no bit of the mantissa to keep, one unit or nothing is left.
  ghost predicate NoBitsResult(a: Num, r: Num, prec: int, m: int) {
    && (m == 0 || m == Unit(|a.tab|, prec))
    && (m == 0 ==> r.tab == [] && r.expn == BF_EXP_ZERO)
    && (m != 0 ==> r.tab == [HALF] && SameValue(HALF, r.expn - LIMB_BITS, m, a.expn - LIMB_BITS * |a.tab|))
  }

  // The exponent after rounding: one more when the mantissa carries out.
  ghost function RoundedExponent(a: Num, m: int): int {
    a.expn + if m == Pow(|a.tab|) then 1 else 0
  }

  // What rounding a gives, and the status it returns.
  ghost predicate RoundResult(a: Num, r: Num, ret0: set<Status>, ret: set<Status>, prec1: nat, flags: Flags)
    requires flags.expBits >= 1
  {
    var prec := EffectivePrec(a.expn, prec1, flags);
    var m := RoundedMantissa(a, prec, flags.mode);
    var e := RoundedExponent(a, m);
    var ret1 := ret0 + if flags.mode == RNDF || m != Val(a.tab) then {INEXACT} else {};
    && r.sign == a.sign
    && if prec <= 0 then
         ret == ret0 + {UNDERFLOW, INEXACT} && NoBitsResult(a, r, prec, m)
       else if e < EMin(flags) && !flags.subnormal then
         ret == ret1 + {UNDERFLOW, INEXACT} && r.tab == [] && r.expn == BF_EXP_ZERO
       else if e > EMax(flags) then
         && ret == {OVERFLOW, INEXACT}
         && if OverflowsToInfinity(a.sign, prec1, flags.mode) then IsInfinite(r) else IsLargest(r, prec1, EMax(flags))
       else
         && ret == ret1 + (if e < EMin(flags) && INEXACT in ret1 then {UNDERFLOW} else {})
         && r.expn == e && Normal(r.tab) && r.tab[0] != 0
         && SameValue(Val(r.tab), r.expn - LIMB_BITS * |r.tab|, m, a.expn - LIMB_BITS * |a.tab|)
  }

  // ----- Reading bits -----

  // get_bit
  function GetBit(tab: seq<Limb>, pos: int): (b: int)
    ensures 0 <= b <= 1
  {
    var i := pos / LIMB_BITS;
    if i < 0 || i >= |tab| then 0 else (tab[i] / Pow2(pos % LIMB_BITS)) % 2
  }

  lemma GetBitIs(tab: seq<Limb>, pos: nat)
    ensures GetBit(tab, pos) == (Val(tab) / Pow2(pos)) % 2
  {
    hide Val;
    hide Pow;
    hide Pow2;
    var i, p := pos / LIMB_BITS, pos % LIMB_BITS;
    BitPosition(i, p);
    ValBound(tab);
    if i >= |tab| {
      PowMono(|tab|, i);
      MulMono(1, Pow2(p), Pow(i));
      DivZero(Val(tab), Pow2(pos));
    } else {
      BitWithin(tab, i, p, Pow2(pos));
    }
  }

  lemma BitWithin(tab: seq<Limb>, i: nat, p: nat, d: int)
    requires i < |tab| && p < LIMB_BITS && d == Pow(i) * Pow2(p)
    ensures d > 0 && (Val(tab) / d) % 2 == (tab[i] / Pow2(p)) % 2
  {
    hide Val;
    hide Pow;
    Pow2Split(p);
    assert Pow2(LIMB_BITS - p) == 2 * Pow2(LIMB_BITS - p - 1);
    hide Pow2;
    MulMono(1, Pow2(p), Pow(i));
    ValAround(tab, i);
    ValBound(tab[..i]);
    BitArith(Val(tab), Val(tab[..i]), tab[i], Val(tab[i + 1..]), Pow(i), Pow2(p), Pow2(LIMB_BITS - p - 1), d);
  }

  lemma BitArith(v: int, lo: int, a: int, up: int, w: int, p: int, h: int, d: int)
    requires v == lo + (a + up * B) * w && 0 <= lo < w && p > 0 && h > 0 && p * (2 * h) == B && d == w * p
    ensures (v / d) % 2 == (a / p) % 2
  {
    var x, y := a / p, a % p;
    assert a == x * p + y;
    var m := x + 2 * (h * up);
    assert up * B == (2 * (h * up)) * p;
    Spread(m, p, y, w);
    MulMono(y + 1, p, w);
    assert (y + 1) * w == y * w + w;
    MulPos(y, w);
    DivIs(v, d, m, lo + y * w);
    DivIs(m, 2, h * up + x / 2, x % 2);
  }

  // scan_bit_nz: whether some bit between 0 and bitPos is set.
  method ScanBitNz(tab: seq<Limb>, bitPos: int) returns (nz: bool)
    requires bitPos < LIMB_BITS * |tab|
    ensures nz <==> bitPos >= 0 && Val(tab) % Pow2(bitPos + 1) != 0
  {
    hide Val;
    hide Pow2;
    hide Pow;
    var pos := bitPos / LIMB_BITS;
    if pos < 0 {
      return false;
    }
    var p := bitPos % LIMB_BITS;
    LowBitsOf(tab, pos, p);
    if tab[pos] % Pow2(p + 1) != 0 {
      return true;
    }
    ghost var top := pos;
    pos := pos - 1;
    while pos >= 0
      invariant -1 <= pos < top && forall j :: pos < j < top ==> tab[j] == 0
    {
      if tab[pos] != 0 {
        ValPositive(tab[..top], pos);
        return true;
      }
      pos := pos - 1;
    }
    ValZeros(tab[..top]);
    return false;
  }

  lemma LowBitsOf(tab: seq<Limb>, i: nat, p: nat)
    requires i < |tab| && p < LIMB_BITS
    ensures Val(tab) % Pow2(LIMB_BITS * i + p + 1) == Val(tab[..i]) + Pow(i) * (tab[i] % Pow2(p + 1))
    ensures Val(tab[..i]) >= 0 && (Val(tab) % Pow2(LIMB_BITS * i + p + 1) == 0 <==>
                                   Val(tab[..i]) == 0 && tab[i] % Pow2(p + 1) == 0)
  {
    hide Val;
    hide Pow;
    PowPow2(i);
    Pow2Add(LIMB_BITS * i, p + 1);
    Pow2Split(p + 1);
    hide Pow2;
    ValSplit(tab, i);
    var t := tab[i..];
    HeadTail(t);
    assert t[0] == tab[i];
    ValBound(t[1..]);
    ValBound(t);
    DivIs(Val(tab), Pow(i), Val(t), Val(tab[..i]));
    ModSplit(Val(tab), Pow(i), Pow2(p + 1), Pow2(LIMB_BITS * i + p + 1));
    DivIs(Val(t), B, Val(t[1..]), tab[i]);
    ModMod(Val(t), Pow2(p + 1), Pow2(LIMB_BITS - (p + 1)), B);
    SumZero2(Val(tab[..i]), Pow(i), tab[i] % Pow2(p + 1));
  }

  lemma SumZero2(a: int, p: int, b: int)
    requires a >= 0 && b >= 0 && p >= 1
    ensures a + p * b == 0 <==> a == 0 && b == 0
  {
    MulMono(b, b, p);
    MulPos(p, b);
    if b > 0 {
      MulMono(1, b, p);
    }
  }

  // ----- The rounding decision -----

  // bit1 is the first bit dropped and bit0 tells whether a later one is set.
  ghost predicate DroppedBits(v: int, l: nat, prec: int, bit1: int, bit0: bool) {
    var k := LIMB_BITS * l - prec;
    && 0 <= bit1 <= 1
    && (if k <= 0 then bit1 == 0 && !bit0
        else if prec < 0 then bit1 == 0 && bit0
        else bit1 == (v / Pow2(k - 1)) % 2 && (bit0 <==> v % Pow2(k - 1) != 0))
  }

  lemma DroppedRemainder(v: int, l: nat, prec: int, bit1: int, bit0: bool)
    requires DroppedBits(v, l, prec, bit1, bit0) && 0 < v < Pow(l)
    ensures var u, rem := Unit(l, prec), v % Unit(l, prec);
      && (2 * rem > u <==> bit1 == 1 && bit0) && (2 * rem == u <==> bit1 == 1 && !bit0) &&
          (rem != 0 <==> bit1 == 1 || bit0)
  {
    var k := LIMB_BITS * l - prec;
    if k <= 0 {
      DivIs(v, 1, v, 0);
    } else if prec < 0 {
      PowPow2(l);
      Pow2Mono(LIMB_BITS * l, k - 1);
      assert Pow2(k) == 2 * Pow2(k - 1);
      hide Pow2;
      DivZero(v, Pow2(k));
    } else {
      assert Pow2(k) == 2 * Pow2(k - 1);
      hide Pow2;
      var h := Pow2(k - 1);
      ModSplit(v, h, 2, Pow2(k));
      HalfBit(v % Pow2(k), h, v % h, bit1);
    }
  }

  lemma HalfBit(rem: int, h: int, low: int, bit1: int)
    requires rem == low + h * bit1 && 0 <= low < h && 0 <= bit1 <= 1
    ensures (2 * rem > 2 * h <==> bit1 == 1 && low != 0) && (2 * rem == 2 * h <==> bit1 == 1 && low == 0) &&
            (rem != 0 <==> bit1 == 1 || low != 0)
  {
  }

  // bf_get_rnd_add
  method GetRndAdd(sign: bool, tab: seq<Limb>, prec: int, mode: RndMode) returns (addOne: bool, inexact: bool)
    requires Normal(tab)
    ensures var v, u := Val(tab), Unit(|tab|, prec);
      && u > 0 && addOne == RoundsUp(v % u, u, (v / u) % 2 == 1, sign, mode)
      && inexact == (mode == RNDF || v % u != 0)
  {
    hide Val;
    hide Pow2;
    hide Pow;
    hide GetBit;
    var l := |tab|;
    UnitPositive(l, prec);
    var from := LIMB_BITS * l - 1 - (if prec + 1 > 0 then prec + 1 else 0);
    var bit0 := ScanBitNz(tab, from);
    var bit1 := GetBit(tab, LIMB_BITS * l - 1 - prec);
    NormalRange(tab);
    ReadDropped(tab, prec, bit1, bit0);
    DroppedRemainder(Val(tab), l, prec, bit1, bit0);
    if mode == RNDF {
      // the bits below the first discarded one count as set
      bit0 := true;
    }
    inexact := bit1 != 0 || bit0;
    addOne := false;
    match mode {
      case RNDZ =>
      case RNDN =>
        if bit1 != 0 {
          if bit0 {
            addOne := true;
          } else {
            OddBit(tab, prec, bit1);
            addOne := GetBit(tab, LIMB_BITS * l - 1 - (prec - 1)) == 1;
          }
        }
      case RNDD =>
        if sign {
          addOne := inexact;
        }
      case RNDU =>
        if !sign {
          addOne := inexact;
        }
      case RNDA => addOne := inexact;
      case RNDNA => addOne := bit1 == 1;
      case RNDF => addOne := bit1 == 1;
    }
  }

  lemma NormalRange(tab: seq<Limb>)
    requires Normal(tab)
    ensures Pow(|tab|) <= 2 * Val(tab) && 0 < Val(tab) < Pow(|tab|)
  {
    var n := |tab| - 1;
    ValBound(tab[..n]);
    ValBound(tab);
    assert Pow(|tab|) == B * Pow(n);
    hide Pow;
    MulMono(HALF, tab[n], Pow(n));
    assert 2 * (HALF * Pow(n)) == B * Pow(n);
  }

  lemma ReadDropped(tab: seq<Limb>, prec: int, bit1: int, bit0: bool)
    requires Normal(tab) && bit1 == GetBit(tab, LIMB_BITS * |tab| - 1 - prec)
    requires var from := LIMB_BITS * |tab| - 1 - (if prec + 1 > 0 then prec + 1 else 0);
      bit0 <==> from >= 0 && Val(tab) % Pow2(from + 1) != 0
    ensures DroppedBits(Val(tab), |tab|, prec, bit1, bit0)
  {
    hide Val;
    NormalRange(tab);
    var l := |tab|;
    var k := LIMB_BITS * l - prec;
    if k <= 0 {
    } else if prec < 0 {
      PowPow2(l);
      hide Pow2;
      DivZero(Val(tab), Pow2(LIMB_BITS * l));
    } else {
      GetBitIs(tab, k - 1);
      if k == 1 {
        assert Pow2(0) == 1;
        DivIs(Val(tab), 1, Val(tab), 0);
      }
    }
  }

  // The bit above a dropped bit tells whether the quotient is odd.
  lemma OddBit(tab: seq<Limb>, prec: int, bit1: int)
    requires Normal(tab) && bit1 == GetBit(tab, LIMB_BITS * |tab| - 1 - prec) == 1
    ensures GetBit(tab, LIMB_BITS * |tab| - 1 - (prec - 1)) == (Val(tab) / Unit(|tab|, prec)) % 2 &&
            Unit(|tab|, prec) > 0
  {
    hide Val;
    hide Pow2;
    assert LIMB_BITS * |tab| - 1 - prec >= 0;
    GetBitIs(tab, LIMB_BITS * |tab| - prec);
  }

  // ----- Adding one at a bit position -----

  // The loop adds carry at limb pos and stops when it is absorbed.
  method AddCarry(tab: seq<Limb>, pos: nat, bit: nat) returns (r: seq<Limb>, carryOut: bool)
    requires pos < |tab| && bit < LIMB_BITS
    ensures |r| == |tab| && r[..pos] == tab[..pos]
    ensures Val(r) + (if carryOut then Pow(|tab|) else 0) == Val(tab) + Pow2(LIMB_BITS * pos + bit)
  {
    hide Val;
    hide Pow;
    hide Pow2;
    Pow2Split(bit);
    MulMono(1, Pow2(LIMB_BITS - bit), Pow2(bit));
    BitTop(bit);
    BitPosition(pos, bit);
    r := tab;
    var carry: Limb := Pow2(bit);
    var i := pos;
    while i < |tab| && carry != 0
      invariant pos <= i <= |tab| && |r| == |tab| && r[..pos] == tab[..pos]
      invariant forall j :: i <= j < |tab| ==> r[j] == tab[j]
      invariant i > pos ==> carry <= 1
      invariant Val(r) + carry * Pow(i) == Val(tab) + Pow2(LIMB_BITS * pos + bit)
    {
      var v := Wrap(r[i] as int + carry);
      var next: Limb := if v < carry then 1 else 0;
      ghost var prev := r;
      r := r[i := v];
      UpdateValue(prev, r, i, carry - next * B);
      CarryStep(Val(prev), Val(r), carry, next, Pow(i), i);
      carry := next;
      i := i + 1;
    }
    carryOut := carry != 0;
    CarryLeft(Val(r), carry, i, |tab|, pos);
  }

  lemma BitTop(bit: nat)
    requires bit < LIMB_BITS
    ensures Pow2(bit) < B
  {
    Pow2Limb();
    Pow2Mono(bit, LIMB_BITS - 1);
  }

  lemma CarryStep(v: int, v': int, carry: int, next: int, w: int, i: nat)
    requires w == Pow(i) && v' == v + (carry - next * B) * w
    ensures v' + next * Pow(i + 1) == v + carry * w
  {
    assert Pow(i + 1) == B * w;
    assert (carry - next * B) * w == carry * w - (next * B) * w;
    assert (next * B) * w == next * (B * w);
  }

  lemma CarryLeft(v: int, carry: Limb, i: nat, n: nat, pos: nat)
    requires pos < n && i <= n && (i > pos ==> carry <= 1) && (i == n || carry == 0) && i >= pos
    ensures v + (if carry != 0 then Pow(n) else 0) == v + carry * Pow(i)
  {
  }

  // After a carry out of the top the limbs from pos on are shifted right by one bit, a one comes in.
  method ShiftInOne(tab: seq<Limb>, pos: nat) returns (r: seq<Limb>)
    requires pos < |tab|
    ensures |r| == |tab| && r[..pos] == tab[..pos] && Normal(r)
    ensures 2 * Val(r[pos..]) <= Val(tab[pos..]) + Pow(|tab| - pos) <= 2 * Val(r[pos..]) + 1
  {
    hide Val;
    hide Pow;
    r := tab;
    var v: Limb := 1;
    var i := |tab| - 1;
    ValZeros([]);
    assert r[i + 1..] == [] && tab[i + 1..] == [];
    PowOne();
    while i >= pos
      invariant pos - 1 <= i < |tab| && |r| == |tab|
      invariant forall j :: 0 <= j <= i ==> r[j] == tab[j]
      invariant 2 * Val(r[i + 1..]) + v % 2 == Val(tab[i + 1..]) + Pow(|tab| - 1 - i)
      invariant i == |tab| - 1 ==> v == 1
      invariant i < |tab| - 1 ==> Normal(r)
    {
      var a := r[i];
      ghost var prev := r;
      r := r[i := a / 2 + (v % 2) * HALF];
      HeadTail(r[i..]);
      HeadTail(tab[i..]);
      assert r[i..][1..] == prev[i + 1..] && tab[i..][1..] == tab[i + 1..];
      assert r[i..][0] == a / 2 + (v % 2) * HALF && tab[i..][0] == a;
      ShiftStep(a, v, Val(prev[i + 1..]), Val(tab[i + 1..]), |tab| - 1 - i);
      v := a;
      i := i - 1;
    }
    assert r[..pos] == tab[..pos];
  }

  lemma ShiftStep(a: int, v: int, now: int, was: int, n: nat)
    requires 2 * now + v % 2 == was + Pow(n)
    ensures 2 * (a / 2 + (v % 2) * HALF + now * B) + a % 2 == a + was * B + Pow(n + 1)
  {
    assert Pow(n + 1) == B * Pow(n);
    hide Pow;
    var b := v % 2;
    assert 2 * (b * HALF) == b * B;
  }

  // The mantissa v, exponent e and what adding one unit 2^k makes of them.
  ghost predicate Increased(v: int, v': int, e: int, e': int, k: nat, l: nat) {
    var u := Pow2(k);
    || (e' == e && v' == v + u && v' < Pow(l))
    || (e' == e + 1 && 2 * (v' - v' % u) == Pow(l) && v - v % u + u == Pow(l))
  }

  method AddOne(tab: seq<Limb>, expn: int, prec: int) returns (r: seq<Limb>, e: int)
    requires Normal(tab) && 0 < prec < LIMB_BITS * |tab|
    ensures |r| == |tab| && Normal(r) && Increased(Val(tab), Val(r), expn, e, LIMB_BITS * |tab| - prec, |tab|)
  {
    hide Val;
    hide Pow;
    hide Pow2;
    var l := |tab|;
    var bitPos := l * LIMB_BITS - 1 - (prec - 1);
    var pos := bitPos / LIMB_BITS;
    var carry: bool;
    NormalRange(tab);
    e := expn;
    r, carry := AddCarry(tab, pos, bitPos % LIMB_BITS);
    assert LIMB_BITS * pos + bitPos % LIMB_BITS == bitPos;
    ValBound(r);
    if carry {
      var mid := r;
      r := ShiftInOne(mid, pos);
      ValSplit(mid, pos);
      ValSplit(r, pos);
      CarryOut(l, pos, bitPos, Val(tab), Val(mid), Val(r), Val(mid[..pos]), Val(mid[pos..]), Val(r[pos..]));
      e := e + 1;
    } else {
      StillNormal(r, Val(tab));
    }
  }

  lemma TopHalf(x: int, lo: int, v: int, v': int, w: int)
    requires w > 0 && B * w <= 2 * v && v <= v' && v' == lo + x * w && lo < w
    ensures x >= HALF
  {
    assert (x + 1) * w == x * w + w;
    assert HALF * w + HALF * w == B * w;
    MulCancelLess(HALF, x + 1, w);
  }

  lemma StillNormal(r: seq<Limb>, v: int)
    requires r != [] && Pow(|r|) <= 2 * v && v <= Val(r)
    ensures Normal(r)
  {
    var n := |r| - 1;
    ValBound(r[..n]);
    assert Pow(|r|) == B * Pow(n);
    hide Pow;
    TopHalf(r[n], Val(r[..n]), v, Val(r), Pow(n));
  }

  // Pow(l) in terms of the unit 2^k, at bit p of limb pos.
  lemma UnitSplit(l: nat, pos: nat, p: nat, k: nat) returns (c: int, t: int)
    requires p < LIMB_BITS && k == LIMB_BITS * pos + p && k < LIMB_BITS * l
    ensures c > 0 && t > 0 && Pow(l) == Pow2(k) * (2 * c) && Pow2(k) == Pow(pos) * Pow2(p)
    ensures Pow(l) == Pow(pos) * Pow(l - pos) && Pow(l - pos) == 2 * t
  {
    c, t := Pow2(LIMB_BITS * l - k - 1), Pow2(LIMB_BITS * (l - pos) - 1);
    PowPow2(l);
    Pow2Add(k, LIMB_BITS * l - k);
    assert Pow2(LIMB_BITS * l - k) == 2 * c;
    BitPosition(pos, p);
    PowAdd(pos, l - pos);
    PowPow2(l - pos);
    assert Pow2(LIMB_BITS * (l - pos)) == 2 * t;
  }

  // The top of a power of two is a multiple of the unit: the values of the limbs below pos, of those
  // from pos on and of the latter after the shift determine the result.
  lemma CarryOut(l: nat, pos: nat, k: nat, v: int, mid: int, r: int, lo: int, hi: int, hi': int)
    requires pos < l && LIMB_BITS * pos <= k < LIMB_BITS * (pos + 1) && k < LIMB_BITS * l
    requires mid + Pow(l) == v + Pow2(k) && v < Pow(l) && mid >= 0
    requires mid == lo + hi * Pow(pos) && 0 <= lo < Pow(pos) && hi >= 0 && r == lo + hi' * Pow(pos)
    requires 2 * hi' <= hi + Pow(l - pos) <= 2 * hi' + 1
    ensures 2 * (r - r % Pow2(k)) == Pow(l) && v - v % Pow2(k) + Pow2(k) == Pow(l)
  {
    hide Pow2;
    hide Pow;
    var p := k - LIMB_BITS * pos;
    var c, t := UnitSplit(l, pos, p, k);
    CarryLow(v, mid, Pow2(k), c, Pow(l));
    CarryShift(mid, r, lo, hi, hi', Pow2(k), c, Pow(pos), Pow2(p), t, Pow(l), Pow(l - pos));
  }

  // v + u = n + mid with v < n and n = u * (2 * c): what is left in mid is below the unit.
  lemma CarryLow(v: int, mid: int, u: int, c: int, n: int)
    requires mid + n == v + u && n == u * (2 * c) && u > 0 && v < n && mid >= 0
    ensures mid < u && v - v % u + u == n
  {
    assert (2 * c - 1) * u == u * (2 * c) - u;
    DivIs(v, u, 2 * c - 1, mid);
  }

  lemma Halve(w: int, t: int, u: int, c: int, n: int)
    requires n == w * (2 * t) && n == u * (2 * c)
    ensures w * t == u * c && n == 2 * (u * c)
  {
    assert w * (2 * t) == 2 * (w * t) && u * (2 * c) == 2 * (u * c);
  }

  lemma CarryShift(mid: int, r: int, lo: int, hi: int, hi': int, u: int, c: int, w: int, q: int, t: int, n: int, y: int)
    requires mid < u && n == u * (2 * c) && u == w * q && q > 0 && w > 0
    requires mid == lo + hi * w && 0 <= lo < w && hi >= 0 && r == lo + hi' * w
    requires n == w * y && y == 2 * t && 2 * hi' <= hi + y <= 2 * hi' + 1
    ensures 2 * (r - r % u) == n
  {
    MulCancelLess(hi, q, w);
    Halve(w, t, u, c, n);
    var x := hi' - t;
    assert hi' * w == w * t + x * w;
    MulMono(x, hi, w);
    MulPos(x, w);
    DivIs(r, u, c, lo + x * w);
  }

  // ----- Keeping the bits -----

  // x & limb_mask(shift, LIMB_BITS - 1)
  function ClearLow(x: Limb, shift: nat): Limb
    requires shift < LIMB_BITS
  {
    Pow2Split(shift);
    assert Pow2(LIMB_BITS - shift) == 2 * Pow2(LIMB_BITS - shift - 1);
    TopKept(x, Pow2(shift), Pow2(LIMB_BITS - shift - 1));
    x - x % Pow2(shift)
  }

  // Masks the bits below prec and removes trailing zero limbs.
  method KeepBits(tab: seq<Limb>, prec: int) returns (r: seq<Limb>)
    requires Normal(tab) && prec > 0
    ensures 1 <= |r| <= |tab| && Normal(r) && r[0] != 0 && Unit(|tab|, prec) > 0
    ensures Val(r) * Pow(|tab| - |r|) == Val(tab) - Val(tab) % Unit(|tab|, prec)
  {
    hide Val;
    hide Pow;
    hide Pow2;
    hide Unit;
    UnitPositive(|tab|, prec);
    var l := |tab|;
    var bitPos := l * LIMB_BITS - 1 - (prec - 1);
    var i := bitPos / LIMB_BITS;
    r := tab;
    if i >= 0 {
      var shift := bitPos % LIMB_BITS;
      if shift != 0 {
        r := r[i := ClearLow(r[i], shift)];
      }
      MaskedValue(tab, r, i, shift);
      UnitIs(l, prec);
      assert LIMB_BITS * i + shift == LIMB_BITS * l - prec;
    } else {
      i := 0;
      NothingMasked(tab, prec);
    }
    hide ClearLow;
    r := StripZeros(r, i, Val(tab) - Val(tab) % Unit(l, prec));
  }

  lemma UnitIs(l: nat, prec: int)
    requires prec <= LIMB_BITS * l
    ensures Unit(l, prec) == Pow2(LIMB_BITS * l - prec)
  {
    Pow2Small();
  }

  lemma NothingMasked(tab: seq<Limb>, prec: int)
    requires prec >= LIMB_BITS * |tab|
    ensures Val(tab[0..]) * Pow(0) == Val(tab) - Val(tab) % Unit(|tab|, prec)
  {
    hide Val;
    DivIs(Val(tab), 1, Val(tab), 0);
    assert tab[0..] == tab;
  }

  // The loop that removes trailing zero limbs.
  method StripZeros(tab: seq<Limb>, from: nat, ghost kept: int) returns (r: seq<Limb>)
    requires from < |tab| && tab[|tab| - 1] >= HALF && Val(tab[from..]) * Pow(from) == kept
    ensures 1 <= |r| <= |tab| && Normal(r) && r[0] != 0 && Val(r) * Pow(|tab| - |r|) == kept
  {
    hide Val;
    hide Pow;
    var i := from;
    while tab[i] == 0
      invariant from <= i < |tab| && Val(tab[i..]) * Pow(i) == kept
      decreases |tab| - i
    {
      HeadTail(tab[i..]);
      assert tab[i..][1..] == tab[i + 1..];
      StripZero(Val(tab[i..]), Val(tab[i + 1..]), i);
      i := i + 1;
    }
    r := tab[i..];
  }

  lemma StripZero(v: int, v': int, i: nat)
    requires v == v' * B
    ensures v' * Pow(i + 1) == v * Pow(i)
  {
    assert Pow(i + 1) == B * Pow(i);
    assert (v' * B) * Pow(i) == v' * (B * Pow(i));
  }

  lemma MaskedValue(tab: seq<Limb>, r: seq<Limb>, i: nat, shift: nat)
    requires Normal(tab) && i < |tab| && shift < LIMB_BITS && LIMB_BITS * i + shift < LIMB_BITS * |tab|
    requires r == if shift != 0 then tab[i := ClearLow(tab[i], shift)] else tab
    ensures r[|r| - 1] >= HALF
    ensures Val(r[i..]) * Pow(i) == Val(tab) - Val(tab) % Pow2(LIMB_BITS * i + shift)
  {
    hide Val;
    hide Pow;
    BitPosition(i, shift);
    Pow2Split(shift);
    Pow2Limb();
    assert Pow2(LIMB_BITS - shift) == 2 * Pow2(LIMB_BITS - shift - 1);
    Pow2Small();
    hide Pow2;
    ValAround(tab, i);
    ValBound(tab[..i]);
    var p, x := Pow2(shift), tab[i];
    HeadTail(r[i..]);
    assert r[i..][1..] == tab[i + 1..] && r[i..][0] == r[i];
    TopKept(x, p, Pow2(LIMB_BITS - shift - 1));
    MaskArith(Val(tab), Val(tab[..i]), x, Val(tab[i + 1..]), Pow(i), p, Pow2(LIMB_BITS * i + shift),
              Pow2(LIMB_BITS - shift - 1));
    if shift == 0 {
      DivIs(x, 1, x, 0);
    }
  }

  lemma TopKept(x: int, p: int, h: int)
    requires 0 <= x < B && p > 0 && h > 0 && p * (2 * h) == B
    ensures 0 <= x - x % p <= x && (x >= HALF ==> x - x % p >= HALF)
  {
    var q := x / p;
    assert x == q * p + x % p;
    assert p * (2 * h) == 2 * (h * p);
    if x >= HALF {
      assert (q + 1) * p == q * p + p;
      MulCancelLess(h, q + 1, p);
      MulMono(h, q, p);
    }
    DivNonNeg(x, p);
    MulPos(q, p);
  }

  lemma MaskArith(v: int, lo: int, x: int, up: int, w: int, p: int, u: int, h: int)
    requires v == lo + (x + up * B) * w && 0 <= lo < w && p > 0 && h > 0 && p * (2 * h) == B && u == w * p && x >= 0
    ensures (x - x % p + up * B) * w == v - v % u
  {
    var q, y := x / p, x % p;
    assert x == q * p + y;
    assert up * B == (2 * (h * up)) * p;
    var m := q + 2 * (h * up);
    Spread(m, p, y, w);
    MulMono(y + 1, p, w);
    assert (y + 1) * w == y * w + w;
    MulPos(y, w);
    DivIs(v, u, m, lo + y * w);
    assert (m * p) * w == m * (w * p);
  }

  // ----- Rounding a number -----

  // The rounded mantissa in terms of the decision made.
  lemma MantissaIs(a: Num, prec: int, mode: RndMode, addOne: bool)
    requires var v, u := Val(a.tab), Unit(|a.tab|, prec);
      u > 0 && addOne == RoundsUp(v % u, u, (v / u) % 2 == 1, a.sign, mode)
    ensures var v, u, m := Val(a.tab), Unit(|a.tab|, prec), RoundedMantissa(a, prec, mode);
      && m == v - v % u + (if addOne then u else 0) && (m != v <==> v % u != 0) && 0 <= v % u < u
  {
    hide Val;
    hide Unit;
    var v, u := Val(a.tab), Unit(|a.tab|, prec);
    var q, w := v / u, if addOne then 1 else 0;
    assert (q + w) * u == q * u + w * u;
    assert v == q * u + v % u;
  }

  // With no bit of the mantissa left the result is zero or one unit.
  lemma NoBitsLeft(a: Num, prec: int, mode: RndMode, addOne: bool)
    requires Normal(a.tab) && prec <= 0
    requires var v, u := Val(a.tab), Unit(|a.tab|, prec);
      u > 0 && addOne == RoundsUp(v % u, u, (v / u) % 2 == 1, a.sign, mode)
    ensures var m := RoundedMantissa(a, prec, mode); m == if addOne then Unit(|a.tab|, prec) else 0
    ensures SameValue(HALF, a.expn + 1 - prec - LIMB_BITS, Unit(|a.tab|, prec), a.expn - LIMB_BITS * |a.tab|)
  {
    hide Val;
    var l, v, u := |a.tab|, Val(a.tab), Unit(|a.tab|, prec);
    NormalRange(a.tab);
    MantissaIs(a, prec, mode, addOne);
    PowPow2(l);
    Pow2Mono(LIMB_BITS * l, LIMB_BITS * l - prec);
    Pow2Limb();
    Pow2Add(LIMB_BITS - 1, LIMB_BITS * l - prec - (LIMB_BITS - 1));
    hide Pow2;
    DivZero(v, u);
  }

  // The unit is at most the leading bit when there is one bit or more.
  lemma UnitBelow(v: int, l: nat, prec: int)
    requires prec > 0 && l > 0 && 0 < v && Pow(l) <= 2 * v
    ensures 0 < Unit(l, prec) <= v
  {
    if prec < LIMB_BITS * l {
      PowPow2(l);
      Pow2Mono(LIMB_BITS * l - prec, LIMB_BITS * l - 1);
    }
  }

  lemma KeptValue(tab: seq<Limb>, r: seq<Limb>, kept: int, m: int, expn: int, e: int)
    requires |r| <= |tab| && Val(r) * Pow(|tab| - |r|) == kept
    requires (e == expn && kept == m) || (e == expn + 1 && 2 * kept == m)
    ensures SameValue(Val(r), e - LIMB_BITS * |r|, m, expn - LIMB_BITS * |tab|)
  {
    hide Val;
    hide Pow;
    var d := |tab| - |r|;
    PowPow2(d);
    assert Pow2(LIMB_BITS * d + 1) == 2 * Pow2(LIMB_BITS * d);
    hide Pow2;
    assert Val(r) * (2 * Pow(d)) == 2 * (Val(r) * Pow(d));
  }

  // Before underflow and overflow: what the mantissa and the exponent are after adding one.
  lemma MantissaKept(a: Num, prec: int, mode: RndMode, addOne: bool, v': int, e: int, kept: int)
    requires Normal(a.tab) && prec > 0
    requires var v, u := Val(a.tab), Unit(|a.tab|, prec);
      u > 0 && addOne == RoundsUp(v % u, u, (v / u) % 2 == 1, a.sign, mode)
    requires if addOne then prec < LIMB_BITS * |a.tab| &&
               Increased(Val(a.tab), v', a.expn, e, LIMB_BITS * |a.tab| - prec, |a.tab|)
             else v' == Val(a.tab) && e == a.expn
    requires Unit(|a.tab|, prec) > 0 && kept == v' - v' % Unit(|a.tab|, prec)
    ensures var m := RoundedMantissa(a, prec, mode);
      && m > 0 && (e == a.expn || e == a.expn + 1) && (e == a.expn + 1 <==> m == Pow(|a.tab|))
      && (if e == a.expn then kept == m else 2 * kept == m)
  {
    hide Val;
    hide Pow;
    hide Pow2;
    hide RoundsUp;
    hide RoundedMantissa;
    var l, v, u := |a.tab|, Val(a.tab), Unit(|a.tab|, prec);
    NormalRange(a.tab);
    UnitBelow(v, l, prec);
    MantissaIs(a, prec, mode, addOne);
    if addOne && e == a.expn {
      AddUnit(v, u);
    }
  }

  lemma AddUnit(v: int, u: int)
    requires u > 0
    ensures v + u - (v + u) % u == v - v % u + u
  {
    var q := v / u;
    assert (q + 1) * u == q * u + u;
    DivIs(v + u, u, q + 1, v % u);
  }

  // Without a dropped bit nothing is added.
  lemma NothingToAdd(tab: seq<Limb>, prec: int, sign: bool, mode: RndMode)
    requires prec >= LIMB_BITS * |tab|
    ensures Unit(|tab|, prec) == 1 && !RoundsUp(Val(tab) % 1, 1, (Val(tab) / 1) % 2 == 1, sign, mode)
  {
    DivIs(Val(tab), 1, Val(tab), 0);
  }
}
