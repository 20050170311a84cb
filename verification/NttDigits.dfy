// limb_to_ntt of quickjs/libbf.c: a number is cut into digits of dpl bits, and every digit is
// reduced modulo each of the moduli.

module NttDigits {
  import opened Limbs
  import opened Bits
  import opened NttArith
  import opened NttDft
  import opened NttFft
  import opened NttConv

  // 2 * LIMB_BITS + 2 * NTT_MOD_LOG2_MIN - NTT_MOD_LOG2_MAX
  const DPL_MAX: int := 188

  // Digit i of v in base 2^dpl.
  ghost function Digit(v: int, dpl: nat, i: nat): int {
    (v / Pow2(i * dpl)) % Pow2(dpl)
  }

  ghost function DigitFn(v: int, dpl: nat): nat -> int {
    (i: nat) => Digit(v, dpl, i)
  }

  // ----- One digit -----

  // x & base_mask1
  function MaskLow(x: Limb, dpl: nat): (r: Limb) {
    var shift := dpl % LIMB_BITS;
    ModAtMost(x, Pow2(shift));
    if shift == 0 then x else x % Pow2(shift)
  }

  // The limbs of a digit: a1 and a2 are zero when they are not needed.
  function DigitLimbs(taba: seq<Limb>, dpl: nat, pos: nat): (Limb, Limb, Limb) {
    var a0 := GetBits(taba, pos);
    if dpl <= LIMB_BITS then (MaskLow(a0, dpl), 0, 0)
    else
      var a1 := GetBits(taba, pos + LIMB_BITS);
      if dpl > 2 * LIMB_BITS then (a0, a1, MaskLow(GetBits(taba, pos + LIMB_BITS * 2), dpl))
      else (a0, MaskLow(a1, dpl), 0)
  }

  // Windows of v are the limbs of v shifted.
  lemma ShiftedWindows(v: int, pos: nat, u: int)
    requires v >= 0 && u == v / Pow2(pos)
    ensures u >= 0 && Window(v, pos) == u % B && Window(v, pos + LIMB_BITS) == (u / B) % B
    ensures Window(v, pos + LIMB_BITS * 2) == ((u / B) / B) % B
  {
    Pow2Limb();
    Pow2Add(pos, LIMB_BITS);
    Pow2Add(pos + LIMB_BITS, LIMB_BITS);
    hide Pow2;
    ModSplit(v, Pow2(pos), B, Pow2(pos + LIMB_BITS));
    ModSplit(v, Pow2(pos + LIMB_BITS), B, Pow2(pos + LIMB_BITS * 2));
    DivNonNeg(v, Pow2(pos));
  }

  lemma MaskIs(x: int, r: Limb, dpl: nat, k: nat)
    requires x >= 0 && r == x % B && LIMB_BITS * k < dpl <= LIMB_BITS * (k + 1)
    ensures MaskLow(r, dpl) == x % Pow2(dpl - LIMB_BITS * k) && MaskLow(r, dpl) < Pow2(dpl - LIMB_BITS * k)
  {
    Pow2Limb();
    var shift := dpl - LIMB_BITS * k;
    assert shift == LIMB_BITS || dpl % LIMB_BITS == shift;
    if shift < LIMB_BITS {
      Pow2Split(shift);
      hide Pow2;
      ModMod(x, Pow2(shift), Pow2(LIMB_BITS - shift), B);
    }
  }

  lemma DigitIs(taba: seq<Limb>, dpl: nat, i: nat, pos: nat)
    requires 1 <= dpl <= DPL_MAX && pos == i * dpl
    ensures var (a0, a1, a2) := DigitLimbs(taba, dpl, pos);
      && Digit(Val(taba), dpl, i) == a0 + B * a1 + B * (B * a2)
      && (dpl <= LIMB_BITS ==> a1 == 0) && (dpl <= 2 * LIMB_BITS ==> a2 == 0)
    ensures 0 <= Digit(Val(taba), dpl, i) < Pow2(dpl)
  {
    hide Val;
    hide Window;
    hide Pow2;
    hide MaskLow;
    ValBound(taba);
    var u := Val(taba) / Pow2(pos);
    DivNonNeg(Val(taba), Pow2(pos));
    ShiftedWindows(Val(taba), pos, u);
    DigitParts(u, dpl);
    if dpl <= LIMB_BITS {
      MaskIs(u, GetBits(taba, pos), dpl, 0);
    } else if dpl <= 2 * LIMB_BITS {
      MaskIs(u / B, GetBits(taba, pos + LIMB_BITS), dpl, 1);
    } else {
      MaskIs((u / B) / B, GetBits(taba, pos + LIMB_BITS * 2), dpl, 2);
    }
  }

  lemma DigitParts(u: int, dpl: nat)
    requires u >= 0
    ensures u / B >= 0 && (u / B) / B >= 0 && 0 <= u % Pow2(dpl) < Pow2(dpl)
    ensures LIMB_BITS < dpl ==> u % Pow2(dpl) == u % B + B * ((u / B) % Pow2(dpl - LIMB_BITS))
    ensures 2 * LIMB_BITS < dpl ==> (u / B) % Pow2(dpl - LIMB_BITS)
                                      == (u / B) % B + B * (((u / B) / B) % Pow2(dpl - LIMB_BITS * 2))
  {
    Pow2Limb();
    hide Pow2;
    DivNonNeg(u, B);
    DivNonNeg(u / B, B);
    ModSplit(u, Pow2(dpl), 1, Pow2(dpl));
    if LIMB_BITS < dpl {
      Pow2Add(LIMB_BITS, dpl - LIMB_BITS);
      ModSplit(u, B, Pow2(dpl - LIMB_BITS), Pow2(dpl));
    }
    if 2 * LIMB_BITS < dpl {
      Pow2Add(LIMB_BITS, dpl - 2 * LIMB_BITS);
      ModSplit(u / B, B, Pow2(dpl - 2 * LIMB_BITS), Pow2(dpl - LIMB_BITS));
    }
  }

  // ----- Reduction -----

  // The residue limb_to_ntt computes from the limbs of a digit: in two steps when the digit is
  // wider than mod_fast accepts.
  function Residue(d: (Limb, Limb, Limb), dpl: nat, s: NttMod): (r: Limb)
    requires Modulus(s.m) && s.mInv == WIDE / s.m && 1 <= dpl <= DPL_MAX
    requires 0 <= d.0 + B * d.1 + B * (B * d.2) < Pow2(dpl) && (dpl <= 2 * LIMB_BITS ==> d.2 == 0)
    ensures r < s.m && Cong(r, d.0 + B * d.1 + B * (B * d.2), s.m)
  {
    if dpl <= LIMB_BITS + NTT_MOD_LOG2_MIN then
      NarrowDigit(d.0, d.1, dpl);
      ModFast(d.0 + B * d.1, s.m, s.mInv)
    else
      WideDigit(d.0, d.1, d.2, dpl);
      var a := d.0 / HALF + 2 * d.1 + (2 * B) * d.2;
      var r := ModFast(a, s.m, s.mInv);
      var b := r * HALF + d.0 % HALF;
      TwoSteps(d.0, d.1, d.2, a, r, b, s.m);
      ModFast(b, s.m, s.mInv)
  }

  lemma WidePower()
    ensures Pow2(LIMB_BITS + NTT_MOD_LOG2_MIN) == WIDE && Pow2(NTT_MOD_LOG2_MIN) == MOD_MIN
  {
    Pow2Limb();
    assert Pow2(63) == 2 * Pow2(62) && Pow2(62) == 2 * Pow2(61);
    Pow2Add(LIMB_BITS, NTT_MOD_LOG2_MIN);
  }

  lemma NarrowDigit(a0: Limb, a1: Limb, dpl: nat)
    requires dpl <= LIMB_BITS + NTT_MOD_LOG2_MIN && a0 + B * a1 < Pow2(dpl)
    ensures a0 + B * a1 < WIDE
  {
    WidePower();
    Pow2Mono(dpl, LIMB_BITS + NTT_MOD_LOG2_MIN);
  }

  lemma WideDigit(a0: Limb, a1: Limb, a2: Limb, dpl: nat)
    requires dpl <= DPL_MAX && a0 + B * a1 + B * (B * a2) < Pow2(dpl)
    ensures 0 <= a0 / HALF + 2 * a1 + (2 * B) * a2 < WIDE
  {
    WidePower();
    Pow2Limb();
    Pow2Mono(dpl, DPL_MAX);
    Pow2Add(LIMB_BITS - 1, LIMB_BITS + NTT_MOD_LOG2_MIN);
  }

  lemma TwoSteps(a0: int, a1: int, a2: int, a: int, r: int, b: int, m: int)
    requires Modulus(m) && a == a0 / HALF + 2 * a1 + (2 * B) * a2 && Cong(r, a, m) && b == r * HALF + a0 % HALF &&
             0 <= r < m
    ensures 0 <= b < WIDE
    ensures forall x :: Cong(x, b, m) ==> Cong(x, a0 + B * a1 + B * (B * a2), m)
  {
    hide Cong;
    CongSelf(HALF, m);
    CongMul(r, a, HALF, HALF, m);
    CongSelf(a0 % HALF, m);
    CongAdd(r * HALF, a * HALF, a0 % HALF, a0 % HALF, m);
    assert a * HALF + a0 % HALF == a0 + B * a1 + B * (B * a2);
    forall x | Cong(x, b, m) ensures Cong(x, a0 + B * a1 + B * (B * a2), m) {
      CongTrans(x, b, a0 + B * a1 + B * (B * a2), m);
    }
  }

  // ----- All digits -----

  ghost predicate ResidueAt(r: Limb, v: int, dpl: nat, i: nat, m: int) {
    m > 0 && r < m && Cong(r, Digit(v, dpl, i), m)
  }

  ghost predicate Residues(x: seq<Limb>, v: int, dpl: nat, n: nat, m: int) {
    && (forall i: nat :: i < n && i < |x| ==> ResidueAt(x[i], v, dpl, i, m))
    && (forall i: nat :: n <= i < |x| ==> x[i] == 0)
  }

  // The number of digits of dpl bits in len limbs.
  function DigitCount(len: nat, dpl: nat): nat
    requires dpl > 0
  {
    (len * LIMB_BITS + dpl - 1) / dpl
  }

  predicate Distinct(bufs: seq<array<Limb>>) {
    forall i, j :: 0 <= i < j < |bufs| ==> bufs[i] != bufs[j]
  }

  // The residues of digits below n are written.
  ghost predicate Written(tabr: seq<array<Limb>>, mods: seq<NttMod>, v: int, dpl: nat, n: nat)
    requires |tabr| == |mods|
    reads tabr
  {
    forall j, q :: 0 <= j < |mods| && 0 <= q < n && q < tabr[j].Length ==> ResidueAt(tabr[j][q], v, dpl, q, mods[j].m)
  }

  ghost predicate ZeroFrom(tabr: seq<array<Limb>>, n: nat)
    reads tabr
  {
    forall j, q :: 0 <= j < |tabr| && n <= q < tabr[j].Length ==> tabr[j][q] == 0
  }

  // limb_to_ntt. The residues of the nb_mods moduli go to separate buffers, which the source keeps
  // one after the other in a single block.
  method LimbToNtt(mods: seq<NttMod>, tabr: seq<array<Limb>>, fftLen: nat, taba: seq<Limb>, dpl: nat)
    requires |tabr| == |mods| && Distinct(tabr) && 1 <= dpl <= DPL_MAX
    requires forall j :: 0 <= j < |mods| ==> ValidMod(mods[j]) && tabr[j].Length == fftLen
    modifies tabr
    ensures forall j :: 0 <= j < |mods| ==> Residues(tabr[j][..], Val(taba), dpl, DigitCount(|taba|, dpl), mods[j].m)
  {
    hide Cong;
    hide Val;
    hide Pow2;
    hide Digit;
    hide ValidMod;
    hide ResidueAt;
    ClearAll(tabr, fftLen);
    var n := if fftLen < DigitCount(|taba|, dpl) then fftLen else DigitCount(|taba|, dpl);
    var i := 0;
    while i < n
      invariant 0 <= i <= n && Written(tabr, mods, Val(taba), dpl, i) && ZeroFrom(tabr, i)
    {
      DigitResidues(mods, tabr, fftLen, taba, dpl, i);
      i := i + 1;
    }
  }

  // Digit i, for every modulus.
  method DigitResidues(mods: seq<NttMod>, tabr: seq<array<Limb>>, fftLen: nat, taba: seq<Limb>, dpl: nat, i: nat)
    requires |tabr| == |mods| && Distinct(tabr) && 1 <= dpl <= DPL_MAX && i < fftLen
    requires forall j :: 0 <= j < |mods| ==> ValidMod(mods[j]) && tabr[j].Length == fftLen
    requires Written(tabr, mods, Val(taba), dpl, i) && ZeroFrom(tabr, i)
    modifies tabr
    ensures Written(tabr, mods, Val(taba), dpl, i + 1) && ZeroFrom(tabr, i + 1)
  {
    hide Cong;
    hide Val;
    hide Pow2;
    hide Digit;
    hide ValidRoots;
    hide Window;
    hide DigitLimbs;
    hide DigitCount;
    DigitIs(taba, dpl, i, i * dpl);
    var d := DigitLimbs(taba, dpl, i * dpl);
    var j := 0;
    while j < |mods|
      invariant 0 <= j <= |mods|
      invariant Written(tabr, mods, Val(taba), dpl, i) && ZeroFrom(tabr, i + 1)
      invariant forall k :: 0 <= k < j ==> ResidueAt(tabr[k][i], Val(taba), dpl, i, mods[k].m)
    {
      tabr[j][i] := Residue(d, dpl, mods[j]);
      j := j + 1;
    }
  }

  // memset
  method ClearAll(tabr: seq<array<Limb>>, fftLen: nat)
    requires Distinct(tabr) && forall j :: 0 <= j < |tabr| ==> tabr[j].Length == fftLen
    modifies tabr
    ensures forall j, q :: 0 <= j < |tabr| && 0 <= q < fftLen ==> tabr[j][q] == 0
  {
    var j := 0;
    while j < |tabr|
      invariant 0 <= j <= |tabr|
      invariant forall k, q :: 0 <= k < j && 0 <= q < fftLen ==> tabr[k][q] == 0
    {
      var i := 0;
      while i < fftLen
        invariant 0 <= i <= fftLen
        invariant forall k, q :: 0 <= k < j && 0 <= q < fftLen ==> tabr[k][q] == 0
        invariant forall q :: 0 <= q < i ==> tabr[j][q] == 0
      {
        tabr[j][i] := 0;
        i := i + 1;
      }
      j := j + 1;
    }
  }
}
