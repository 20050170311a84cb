// fft_mul of quickjs/libbf.c: multiplication by number theoretic transforms modulo several primes.
// The digit size keeps every coefficient of the convolution below the product of the moduli, so
// nothing is lost.

module NttMul {
  import opened Limbs
  import opened Bits
  import opened NttArith
  import opened NttDft
  import opened NttFft
  import opened NttConv
  import opened NttDigits
  import opened NttGarner

  // ----- Numbers as polynomials in 2^dpl -----

  lemma {:induction false} ExpPow2(dpl: nat, i: nat)
    ensures Exp(Pow2(dpl), i) == Pow2(i * dpl)
  {
    if i > 0 {
      ExpPow2(dpl, i - 1);
      assert i * dpl == dpl + (i - 1) * dpl;
      Pow2Add(dpl, (i - 1) * dpl);
    }
  }

  lemma EvalNext(c: nat -> int, i: nat, dpl: nat)
    ensures Eval(c, i + 1, Pow2(dpl)) == Eval(c, i, Pow2(dpl)) + c(i) * Pow2(i * dpl)
    ensures Pow2((i + 1) * dpl) == Pow2(i * dpl) * Pow2(dpl)
  {
    ExpPow2(dpl, i);
    TermValue(c, Pow2(dpl), i);
    assert (i + 1) * dpl == i * dpl + dpl;
    Pow2Add(i * dpl, dpl);
  }

  lemma DigitsEvalNext(v: int, dpl: nat, n: nat)
    requires Eval(DigitFn(v, dpl), n, Pow2(dpl)) == v % Pow2(n * dpl)
    ensures Eval(DigitFn(v, dpl), n + 1, Pow2(dpl)) == v % Pow2((n + 1) * dpl)
  {
    hide Eval;
    hide Pow2;
    var p, q, c := Pow2(n * dpl), Pow2(dpl), DigitFn(v, dpl)(n);
    EvalNext(DigitFn(v, dpl), n, dpl);
    ModSplit(v, p, q, Pow2((n + 1) * dpl));
    assert c == (v / p) % q;
    hide DigitFn;
    assert c * p == p * c;
  }

  // The digits of v add up to v.
  lemma {:induction false} DigitsEval(v: int, dpl: nat, n: nat)
    requires v >= 0
    ensures Eval(DigitFn(v, dpl), n, Pow2(dpl)) == v % Pow2(n * dpl)
  {
    if n == 0 {
      assert Pow2(0) == 1;
      DivIs(v, 1, v, 0);
    } else {
      DigitsEval(v, dpl, n - 1);
      DigitsEvalNext(v, dpl, n - 1);
    }
  }

  lemma DigitRange(v: int, dpl: nat, i: nat)
    ensures 0 <= Digit(v, dpl, i) < Pow2(dpl)
  {
  }

  // There are no digits past the end of the number.
  lemma DigitPast(taba: seq<Limb>, dpl: nat, i: nat)
    requires dpl >= 1 && i >= DigitCount(|taba|, dpl)
    ensures Digit(Val(taba), dpl, i) == 0
  {
    hide Val;
    CountCovers(|taba|, dpl, i);
    ValBound(taba);
    PowPow2(|taba|);
    Pow2Mono(LIMB_BITS * |taba|, i * dpl);
    hide Pow2;
    DivZero(Val(taba), Pow2(i * dpl));
    DivZero(0, Pow2(dpl));
  }

  lemma CountCovers(len: nat, dpl: nat, i: nat)
    requires dpl >= 1
    ensures i >= DigitCount(len, dpl) ==> len * LIMB_BITS <= i * dpl
    ensures i < DigitCount(len, dpl) ==> i * dpl < len * LIMB_BITS
  {
    var x := len * LIMB_BITS + dpl - 1;
    var q := x / dpl;
    assert x == q * dpl + x % dpl;
    if i >= q {
      MulMono(q, i, dpl);
    } else {
      MulMono(i + 1, q, dpl);
      assert (i + 1) * dpl == i * dpl + dpl;
    }
  }

  // ----- The coefficients -----

  ghost predicate DigitSeq(x: nat -> int, d: int) {
    forall i: nat :: 0 <= x(i) < d
  }

  lemma {:induction false} SumBelow(t: nat -> int, n: nat, bound: int)
    requires forall i: nat :: i < n ==> 0 <= t(i) < bound
    ensures 0 <= Sum(t, n) <= n * bound && (n > 0 ==> Sum(t, n) < n * bound)
  {
    if n > 0 {
      SumBelow(t, n - 1, bound);
      assert n * bound == (n - 1) * bound + bound;
    }
  }

  lemma ProductBelow(x: int, y: int, d: int)
    requires 0 <= x < d && 0 <= y < d
    ensures 0 <= x * y < d * d
  {
    MulPos(x, y);
    MulMono(x, d - 1, y);
    MulMono(y, d - 1, d - 1);
    MulStrict(d - 1, d, d);
    MulMono(d - 1, d, d - 1);
  }

  // A coefficient of the convolution of n digits is below n * 2^(2 * dpl).
  lemma ConvBound(a: nat -> int, b: nat -> int, k: nat, n: nat, d: int)
    requires DigitSeq(a, d) && DigitSeq(b, d) && k < n
    ensures 0 <= Conv(a, b)(k) < n * (d * d)
  {
    hide Sum;
    forall i: nat | i < k + 1 ensures 0 <= ConvTerm(a, b, k)(i) < d * d {
      ProductBelow(a(i), b(k - i), d);
    }
    SumBelow(ConvTerm(a, b, k), k + 1, d * d);
    MulMono(k + 1, n, d * d);
    assert Conv(a, b)(k) == Sum(ConvTerm(a, b, k), k + 1);
  }

  // Congruent digits have congruent convolutions.
  lemma ConvCong(x: nat -> int, y: nat -> int, a: nat -> int, b: nat -> int, k: nat, m: int)
    requires m > 0 && forall i: nat :: i <= k ==> Cong(x(i), a(i), m) && Cong(y(i), b(i), m)
    ensures Cong(Conv(x, y)(k), Conv(a, b)(k), m)
  {
    hide Cong;
    hide Sum;
    forall i: nat | i < k + 1 ensures Cong(ConvTerm(x, y, k)(i), ConvTerm(a, b, k)(i), m) {
      CongMul(x(i), a(i), y(k - i), b(k - i), m);
    }
    SumCong(ConvTerm(x, y, k), ConvTerm(a, b, k), k + 1, m);
    assert Conv(x, y)(k) == Sum(ConvTerm(x, y, k), k + 1);
    assert Conv(a, b)(k) == Sum(ConvTerm(a, b, k), k + 1);
  }

  // Nothing wraps around when the transform is long enough for both numbers.
  lemma DigitsFit(n1: nat, n2: nat, dpl: nat, n: nat, i: nat, j: nat)
    requires dpl >= 1 && (n1 + n2) * LIMB_BITS <= n * dpl && i + j >= n
    ensures i >= DigitCount(n1, dpl) || j >= DigitCount(n2, dpl)
  {
    CountCovers(n1, dpl, i);
    CountCovers(n2, dpl, j);
    MulMono(n, i + j, dpl);
    assert (i + j) * dpl == i * dpl + j * dpl;
  }

  lemma FitNoOverlap(x: nat -> int, y: nat -> int, n1: nat, n2: nat, dpl: nat, n: nat)
    requires dpl >= 1 && (n1 + n2) * LIMB_BITS <= n * dpl
    requires forall i: nat :: DigitCount(n1, dpl) <= i < n ==> x(i) == 0
    requires forall i: nat :: DigitCount(n2, dpl) <= i < n ==> y(i) == 0
    ensures NoOverlap(x, y, n)
  {
    forall i: nat, j: nat | i < n && j < n && i + j >= n ensures x(i) * y(j) == 0 {
      DigitsFit(n1, n2, dpl, n, i, j);
    }
  }

  // The product is the convolution evaluated at 2^dpl.
  lemma ProductEval(a: seq<Limb>, b: seq<Limb>, dpl: nat, n: nat)
    requires dpl >= 1 && (|a| + |b|) * LIMB_BITS <= n * dpl
    ensures Eval(Conv(DigitFn(Val(a), dpl), DigitFn(Val(b), dpl)), n, Pow2(dpl)) == Val(a) * Val(b)
  {
    hide Val;
    hide Digit;
    hide Eval;
    hide Pow2;
    var x, y := DigitFn(Val(a), dpl), DigitFn(Val(b), dpl);
    forall i: nat | DigitCount(|a|, dpl) <= i < n ensures x(i) == 0 {
      DigitPast(a, dpl, i);
    }
    forall i: nat | DigitCount(|b|, dpl) <= i < n ensures y(i) == 0 {
      DigitPast(b, dpl, i);
    }
    FitNoOverlap(x, y, |a|, |b|, dpl, n);
    Convolution(x, y, n, Pow2(dpl));
    WholeValue(a, dpl, n);
    WholeValue(b, dpl, n);
  }

  lemma WholeValue(a: seq<Limb>, dpl: nat, n: nat)
    requires |a| * LIMB_BITS <= n * dpl
    ensures Eval(DigitFn(Val(a), dpl), n, Pow2(dpl)) == Val(a)
  {
    hide Val;
    hide Eval;
    ValBound(a);
    PowPow2(|a|);
    Pow2Mono(LIMB_BITS * |a|, n * dpl);
    hide Pow2;
    DigitsEval(Val(a), dpl, n);
    DivZero(Val(a), Pow2(n * dpl));
  }

  // ----- Back to limbs -----

  // What ntt_to_limb has written and what it still carries make up the first i coefficients.
  ghost predicate Partial(v: int, carry: int, t: int, c: nat -> int, i: nat, dpl: nat, n: int)
    requires n > 0
  {
    && 0 <= t < Pow2(i * dpl) && v == t % n
    && t + carry * Pow2(i * dpl) == Eval(c, i, Pow2(dpl))
  }

  lemma PartialArith(t: int, carry: int, ci: int, u: int, d: int, carry': int, p: int, q: int)
    requires u == ci + carry && u == carry' * q + d && 0 <= d < q && 0 <= t < p
    ensures 0 <= t + d * p < p * q
    ensures t + carry * p + ci * p == (t + d * p) + carry' * (p * q)
  {
    MulMono(d, q - 1, p);
    MulPos(d, p);
    assert (q - 1) * p == p * q - p;
    assert (ci + carry) * p == carry * p + ci * p;
    assert (carry' * q + d) * p == carry' * (p * q) + d * p;
  }

  lemma PartialStep(v: int, carry: int, t: int, c: nat -> int, i: nat, dpl: nat, n: int, u: int, v': int, carry': int)
    requires n > 0 && Partial(v, carry, t, c, i, dpl, n) && u == c(i) + carry && u >= 0
    requires v' == (v + (u % Pow2(dpl)) * Pow2(i * dpl)) % n && carry' == u / Pow2(dpl)
    ensures Partial(v', carry', t + (u % Pow2(dpl)) * Pow2(i * dpl), c, i + 1, dpl, n)
  {
    hide Eval;
    EvalNext(c, i, dpl);
    hide Pow2;
    var d := u % Pow2(dpl);
    PartialArith(t, carry, c(i), u, d, carry', Pow2(i * dpl), Pow2(dpl));
    ModAdd(t, d * Pow2(i * dpl), n);
  }

  function TailTerms(c: nat -> int, len: nat, z: int): nat -> int {
    (i: nat) => TailTerm(c, len, z, i)
  }

  function TailTerm(c: nat -> int, len: nat, z: int, i: nat): int {
    c(len + i) * Exp(z, i)
  }

  lemma EvalTail(c: nat -> int, len: nat, r: nat, dpl: nat)
    ensures Eval(c, len + r, Pow2(dpl)) == Eval(c, len, Pow2(dpl))
              + Pow2(len * dpl) * Sum(TailTerms(c, len, Pow2(dpl)), r)
  {
    hide Sum;
    hide Exp;
    hide Pow2;
    var z := Pow2(dpl);
    var t := Term(c, z);
    SumSplitAt(t, len, r);
    ExpPow2(dpl, len);
    var tail := TailTerms(c, len, z);
    forall i: nat | i < r ensures ShiftFn(t, len)(i) == Exp(z, len) * tail(i) {
      ShiftValue(t, len, i);
      TermValue(c, z, len + i);
      ExpAdd(z, len, i);
      assert tail(i) == TailTerm(c, len, z, i);
      hide TailTerms;
      Swap3(c(len + i), Exp(z, len), Exp(z, i));
    }
    SumScale(tail, Exp(z, len), ShiftFn(t, len), r);
  }

  // When everything that matters has been written, the result is the whole sum.
  lemma PartialEnd(v: int, carry: int, t: int, c: nat -> int, len: nat, l: nat, dpl: nat, n: int)
    requires n > 0 && len <= l && Partial(v, carry, t, c, len, dpl, n) && n <= Pow2(len * dpl)
    requires 0 <= Eval(c, l, Pow2(dpl)) < n
    ensures v == Eval(c, l, Pow2(dpl))
  {
    EvalTail(c, len, l - len, dpl);
    hide Pow2;
    hide Eval;
    hide Sum;
    EndArith(Eval(c, l, Pow2(dpl)), Eval(c, len, Pow2(dpl)), Pow2(len * dpl),
             Sum(TailTerms(c, len, Pow2(dpl)), l - len), carry, t, n, v);
  }

  lemma EndArith(e: int, e0: int, p: int, rest: int, carry: int, t: int, n: int, v: int)
    requires e == e0 + p * rest && t + carry * p == e0 && 0 <= e < n <= p && 0 <= t < p && v == t % n
    ensures v == e
  {
    assert carry * p + p * rest == (carry + rest) * p;
    DivZero(e, p);
    DivIs(e, p, carry + rest, t);
    DivZero(t, n);
  }

  lemma CarryBelow(u: int, d: int, bound: int)
    requires 0 <= u < 2 * bound && d >= 2
    ensures 0 <= u / d < bound
  {
    assert u == (u / d) * d + u % d;
    DivNonNeg(u, d);
    MulMono(2, d, u / d);
  }

  // Every buffer holds residues, possibly one modulus too large, of the coefficients.
  ghost predicate HoldsAt(x: Limb, c: int, s: NttState, k: nat) {
    k < |s.mods| && s.mods[k].m > 0 && x < 2 * s.mods[k].m && Cong(x, c, s.mods[k].m)
  }

  ghost predicate Holds(bufs: seq<array<Limb>>, c: nat -> int, s: NttState, first: nat, fftLen: nat)
    reads bufs
  {
    forall j: nat, i: nat :: j < |bufs| && i < fftLen && i < bufs[j].Length ==> HoldsAt(bufs[j][i], c(i), s, first + j)
  }

  // ntt_limb_to_int
  lemma Reduced(x: Limb, c: int, s: NttState, first: nat, k: nat)
    requires HoldsAt(x, c, s, first + k)
    ensures var m := s.mods[first + k].m; ResidueOf(if x >= m then x - m else x, c, s, first, k, 0)
  {
    var m := s.mods[first + k].m;
    CongBy(x - m, x, m, -1);
    hide Cong;
    if x >= m {
      CongTrans(x - m, x, c, m);
    }
  }

  method ReadResidues(s: NttState, first: nat, bufs: seq<array<Limb>>, i: nat, fftLen: nat, ghost c: nat -> int)
    returns (x: seq<Limb>)
    requires |s.mods| == NB_MODS && |bufs| + first == NB_MODS && i < fftLen && Holds(bufs, c, s, first, fftLen)
    requires forall j :: 0 <= j < |bufs| ==> bufs[j].Length == fftLen
    ensures |x| == |bufs| && forall k: nat :: k < |x| ==> ResidueOf(x[k], c(i), s, first, k, 0)
  {
    hide Cong;
    x := [];
    var j := 0;
    while j < |bufs|
      invariant 0 <= j <= |bufs| && |x| == j
      invariant forall k: nat :: k < j ==> ResidueOf(x[k], c(i), s, first, k, 0)
    {
      assert HoldsAt(bufs[j][i], c(i), s, first + j);
      Reduced(bufs[j][i], c(i), s, first, j);
      var m := s.mods[first + j].m;
      x := x + [if bufs[j][i] >= m then bufs[j][i] - m else bufs[j][i]];
      j := j + 1;
    }
  }

  ghost predicate Coefficients(c: nat -> int, n: nat, bound: int) {
    forall i: nat :: i < n ==> 0 <= c(i) < bound
  }

  // ntt_to_limb
  method NttToLimb(s: NttState, first: nat, tabr: array<Limb>, bufs: seq<array<Limb>>, fftLen: nat, dpl: nat,
                   ghost c: nat -> int, ghost bound: int)
    requires ValidState(s) && first + 3 <= NB_MODS && |bufs| + first == NB_MODS && 1 <= dpl <= DPL_MAX
    requires tabr !in bufs && forall j :: 0 <= j < |bufs| ==> bufs[j].Length == fftLen
    requires Holds(bufs, c, s, first, fftLen) && Coefficients(c, fftLen, bound)
    requires 0 < bound <= Product(s, first) && 2 * bound <= Pow(NB_MODS - first)
    requires tabr.Length * LIMB_BITS <= fftLen * dpl && 0 <= Eval(c, fftLen, Pow2(dpl)) < Pow(tabr.Length)
    modifies tabr
    ensures Val(tabr[..]) == Eval(c, fftLen, Pow2(dpl))
  {
    hide Val;
    hide Pow;
    hide Pow2;
    hide ValidState;
    hide Mixed;
    hide Product;
    hide Eval;
    hide ResidueOf;
    hide Holds;
    hide Coefficients;
    hide Partial;
    ghost var n := Pow(tabr.Length);
    ClearLimbs(tabr);
    var carry: seq<Limb> := seq(NB_MODS, (i: nat) => 0);
    ValZeros(carry);
    ghost var t := 0;
    PartialStart(c, dpl, n);
    var len := if fftLen < DigitCount(tabr.Length, dpl) then fftLen else DigitCount(tabr.Length, dpl);
    var i := 0;
    while i < len
      invariant 0 <= i <= len
      invariant CarryOk(carry, NB_MODS - first, dpl) && 0 <= Val(carry) < bound
      invariant Partial(Val(tabr[..]), Val(carry), t, c, i, dpl, n)
    {
      CoefficientAt(c, fftLen, bound, i);
      StateSize(s);
      var x := ReadResidues(s, first, bufs, i, fftLen, c);
      var y := Garner(s, first, x, c(i));
      CarryTop(carry, NB_MODS - first, dpl);
      var u := MixedToLimbs(s, first, y, carry);
      PartialBelow(Val(tabr[..]), Val(carry), t, c, i, dpl, n);
      ghost var v := Val(tabr[..]);
      WriteDigit(tabr, i * dpl, u, dpl);
      ghost var d := Val(u) % Pow2(dpl);
      ghost var prev := Val(carry);
      carry := NextCarry(u, dpl, carry);
      PartialStep(v, prev, t, c, i, dpl, n, Val(u), Val(tabr[..]), Val(carry));
      t := t + d * Pow2(i * dpl);
      TwoOrMore(dpl);
      CarryBelow(Val(u), Pow2(dpl), bound);
      i := i + 1;
    }
    Enough(tabr.Length, fftLen, dpl, len);
    PartialEnd(Val(tabr[..]), Val(carry), t, c, len, fftLen, dpl, n);
  }

  method ClearLimbs(tab: array<Limb>)
    modifies tab
    ensures Val(tab[..]) == 0
  {
    var i := 0;
    while i < tab.Length
      invariant 0 <= i <= tab.Length && forall k :: 0 <= k < i ==> tab[k] == 0
    {
      tab[i] := 0;
      i := i + 1;
    }
    ValZeros(tab[..]);
  }

  lemma PartialStart(c: nat -> int, dpl: nat, n: int)
    requires n > 0
    ensures Partial(0, 0, 0, c, 0, dpl, n)
  {
    assert Pow2(0) == 1;
    DivZero(0, n);
  }

  lemma PartialBelow(v: int, carry: int, t: int, c: nat -> int, i: nat, dpl: nat, n: int)
    requires n > 0 && Partial(v, carry, t, c, i, dpl, n)
    ensures v < Pow2(i * dpl)
  {
    ModAtMost(t, n);
  }

  lemma CoefficientAt(c: nat -> int, n: nat, bound: int, i: nat)
    requires Coefficients(c, n, bound) && i < n
    ensures 0 <= c(i) < bound
  {
  }

  lemma StateSize(s: NttState)
    requires ValidState(s)
    ensures |s.mods| == NB_MODS
  {
  }

  lemma CarryTop(carry: seq<Limb>, n: nat, dpl: nat)
    requires dpl >= 1 && CarryOk(carry, n, dpl)
    ensures forall k :: n <= k < NB_MODS ==> carry[k] == 0
  {
  }

  lemma TwoOrMore(dpl: nat)
    requires dpl >= 1
    ensures Pow2(dpl) >= 2
  {
  }

  lemma Enough(rLen: nat, fftLen: nat, dpl: nat, len: nat)
    requires dpl >= 1 && rLen * LIMB_BITS <= fftLen * dpl
    requires len == if fftLen < DigitCount(rLen, dpl) then fftLen else DigitCount(rLen, dpl)
    ensures len <= fftLen && Pow(rLen) <= Pow2(len * dpl)
  {
    CountCovers(rLen, dpl, len);
    PowPow2(rLen);
    Pow2Mono(LIMB_BITS * rLen, len * dpl);
  }

  // ----- The size of the transform -----

  // ntt_int_bits[NB_MODS - nb_mods]
  function IntBits(nbMods: nat): int {
    if nbMods == 3 then 185 else if nbMods == 4 then 246 else 307
  }

  // The product of the last nbMods moduli has IntBits(nbMods) + 1 bits.
  ghost predicate ProductsWide(s: NttState)
    requires |s.mods| == NB_MODS
  {
    forall nbMods: nat :: 3 <= nbMods <= NB_MODS ==>
      Pow2(IntBits(nbMods)) <= Product(s, NB_MODS - nbMods) < 2 * Pow2(IntBits(nbMods))
  }

  // Digits, transform length and moduli that lose nothing for len limbs.
  ghost predicate SizeOk(len: nat, fftLenLog2: nat, dpl: nat, nbMods: nat) {
    && 3 <= nbMods <= NB_MODS && 1 <= dpl <= DPL_MAX && fftLenLog2 <= NTT_PROOT_2EXP
    && fftLenLog2 + 2 * dpl <= IntBits(nbMods) && len * LIMB_BITS <= Pow2(fftLenLog2) * dpl
  }

  // 2^52 limbs
  const LEN_MAX: int := 0x10_0000_0000_0000

  lemma Pow2At51()
    ensures Pow2(51) * 128 == LEN_MAX * LIMB_BITS && Pow2(49) * 512 == LEN_MAX * LIMB_BITS
    ensures Pow2(51) < 0x10_0000_0000_0000
  {
    Pow2Small();
    Pow2Add(8, 8);
    Pow2Add(16, 16);
    Pow2Add(32, 16);
    Pow2Add(48, 1);
    assert Pow2(51) == 2 * Pow2(50) && Pow2(50) == 2 * Pow2(49);
    hide Pow2;
    assert Pow2(48) == 0x1_0000_0000_0000;
  }

  // The transform length for len limbs in digits of dpl bits.
  lemma LengthFor(len: nat, dpl: nat)
    requires dpl >= 1
    ensures len * LIMB_BITS <= Pow2(CeilLog2(DigitCount(len, dpl))) * dpl
  {
    var n := DigitCount(len, dpl);
    CountCovers(len, dpl, n);
    MulMono(n, Pow2(CeilLog2(n)), dpl);
  }

  // Up to 2^52 limbs, digits of 128 bits or more need no transform longer than 2^51.
  lemma LengthSmall(len: nat, dpl: nat)
    requires dpl >= 128 && len <= LEN_MAX
    ensures CeilLog2(DigitCount(len, dpl)) <= NTT_PROOT_2EXP
  {
    hide Pow2;
    var n := DigitCount(len, dpl);
    Pow2At51();
    CountCovers(len, dpl, Pow2(51));
    MulMono(128, dpl, Pow2(51));
    var k := CeilLog2(n);
    if k > 0 {
      PowerLess(k - 1, 51);
    }
  }

  // No choice of sizes can hold more.
  lemma SizeLimit(len: nat, fftLenLog2: nat, dpl: nat, nbMods: nat)
    requires SizeOk(len, fftLenLog2, dpl, nbMods)
    ensures len <= LEN_MAX
  {
    hide Pow2;
    Pow2At51();
    var p := Pow2(fftLenLog2);
    if dpl <= 128 {
      Pow2Mono(fftLenLog2, 51);
      MulMono(p, Pow2(51), dpl);
      MulMono(dpl, 128, Pow2(51));
    } else {
      Pow2Mono(fftLenLog2, 49);
      MulMono(p, Pow2(49), dpl);
      MulMono(dpl, 512, Pow2(49));
    }
  }

  lemma CostFits(fftLenLog2: nat, nbMods: nat)
    requires fftLenLog2 <= NTT_PROOT_2EXP && 3 <= nbMods <= NB_MODS
    ensures 0 < (fftLenLog2 + 1) * Pow2(fftLenLog2) * nbMods < B - 1
  {
    Pow2At51();
    hide Pow2;
    Pow2Mono(fftLenLog2, 51);
    var p := Pow2(fftLenLog2);
    MulMono(fftLenLog2 + 1, 52, p);
    MulMono(1, fftLenLog2 + 1, p);
    var c := (fftLenLog2 + 1) * p;
    MulMono(nbMods, 5, c);
    MulMono(3, nbMods, c);
  }

  // The estimate of the work that bf_get_fft_size minimizes.
  ghost function Cost(fftLenLog2: nat, nbMods: nat): int {
    (fftLenLog2 + 1) * Pow2(fftLenLog2) * nbMods
  }

  // 3 to 5 moduli, whose products have 186, 247 and 308 bits, hold the coefficients of len limbs in
  // digits of d bits, in a transform of length 2^k.
  ghost predicate LosesNothing(len: nat, k: nat, d: nat, n: nat) {
    3 <= n <= 5 && d >= 1 && k <= 51 && k + 2 * d <= (if n == 3 then 185 else if n == 4 then 246 else 307)
    && len * 64 <= Pow2(k) * d
  }

  ghost predicate Cheapest(len: nat, fftLenLog2: nat, nbMods: nat) {
    forall k: nat, d: nat, n: nat :: LosesNothing(len, k, d, n) ==> Cost(fftLenLog2, nbMods) <= Cost(k, n)
  }

  // With n moduli and digits of bound bits or less, ok tells whether len fits, and then log2 is the
  // least that does.
  ghost predicate Shortest(len: nat, n: nat, bound: int, ok: bool, log2: nat) {
    forall k: nat, d: nat :: LosesNothing(len, k, d, n) && d <= bound ==> ok && log2 <= k
  }

  // No transform for digits of d bits is shorter than the one for the digit count; more bits need none longer.
  lemma LogLeast(len: nat, k: nat, d: nat, dpl: nat)
    requires d >= 1 && len * 64 <= Pow2(k) * d && d <= dpl
    ensures CeilLog2(DigitCount(len, dpl)) <= k
  {
    var p := Pow2(k);
    MulMono(d, dpl, p);
    CountCovers(len, dpl, p);
    assert DigitCount(len, dpl) <= p;
    var c := CeilLog2(DigitCount(len, dpl));
    if c > k {
      Pow2Mono(k, c - 1);
    }
  }

  // The inner loop of bf_get_fft_size: the largest digits that fit, for a number of moduli.
  method DigitsFor(len: nat, nbMods: nat) returns (ok: bool, fftLenLog2: nat, dpl: nat)
    requires 3 <= nbMods <= NB_MODS
    ensures ok ==> SizeOk(len, fftLenLog2, dpl, nbMods)
    ensures nbMods == NB_MODS && len <= LEN_MAX ==> ok
    ensures ok ==> 2 * dpl <= IntBits(nbMods) - 4
    ensures Shortest(len, nbMods, (IntBits(nbMods) - 4) / 2, ok, fftLenLog2)
  {
    hide Pow2;
    hide DigitCount;
    var intBits := IntBits(nbMods);
    ghost var bound := (intBits - 4) / 2;
    dpl := Least((intBits - 4) / 2, DPL_MAX);
    ok, fftLenLog2 := false, 0;
    while true
      invariant 1 <= dpl <= DPL_MAX && dpl <= bound
      invariant nbMods == NB_MODS && len <= LEN_MAX ==> dpl >= 128
      invariant forall k: nat, d: nat :: LosesNothing(len, k, d, nbMods) && d <= bound ==> d <= dpl
      decreases dpl
    {
      LengthFor(len, dpl);
      fftLenLog2 := CeilLog2(DigitCount(len, dpl));
      forall k: nat, d: nat | LosesNothing(len, k, d, nbMods) && d <= dpl ensures fftLenLog2 <= k {
        LogLeast(len, k, d, dpl);
      }
      if dpl >= 128 && len <= LEN_MAX {
        LengthSmall(len, dpl);
      }
      if fftLenLog2 > NTT_PROOT_2EXP {
        return;
      }
      var nBits := fftLenLog2 + 2 * dpl;
      if nBits <= intBits {
        ok := true;
        return;
      }
      dpl := dpl - 1;
      if dpl == 0 {
        return;
      }
    }
  }

  lemma CostMono(k: nat, m: nat, n: nat)
    requires k <= m
    ensures Cost(k, n) <= Cost(m, n)
  {
    Pow2Mono(k, m);
    var p, q := Pow2(k), Pow2(m);
    hide Pow2;
    MulMono(k + 1, m + 1, p);
    MulMono(p, q, m + 1);
    MulMono((k + 1) * p, (m + 1) * q, n);
  }

  // Digits longer than the search starts with save nothing, except for 19 limbs.
  lemma LongDigits(len: nat, k: nat, d: nat, n: nat)
    requires LosesNothing(len, k, d, n) && len != 19
    ensures exists e: nat :: e <= (IntBits(n) - 4) / 2 && LosesNothing(len, k, e, n)
  {
    var e: nat := (IntBits(n) - 4) / 2;
    if d <= e {
      assert LosesNothing(len, k, d, n);
    } else {
      assert k <= 3;
      assert Pow2(0) == 1 && Pow2(1) == 2 && Pow2(2) == 4 && Pow2(3) == 8;
      assert LosesNothing(len, k, e, n);
    }
  }

  // With 3 to n - 1 moduli nothing is cheaper, digits up to the start of the search considered.
  ghost predicate BestSoFar(len: nat, nb: nat, cost: int) {
    forall k: nat, d: nat, n: nat ::
      LosesNothing(len, k, d, n) && n < nb && d <= (IntBits(n) - 4) / 2 ==> cost <= Cost(k, n)
  }

  lemma BestStep(len: nat, nb: nat, cost: int, ok: bool, log2: nat, better: int)
    requires 3 <= nb <= 5 && BestSoFar(len, nb, cost) && Shortest(len, nb, (IntBits(nb) - 4) / 2, ok, log2)
    requires better <= cost && (ok ==> better <= Cost(log2, nb))
    ensures BestSoFar(len, nb + 1, better)
  {
    hide LosesNothing;
    hide Cost;
    forall k: nat, d: nat, n: nat | LosesNothing(len, k, d, n) && n < nb + 1 && d <= (IntBits(n) - 4) / 2
      ensures better <= Cost(k, n)
    {
      if n == nb {
        CostMono(log2, k, n);
      }
    }
  }

  // Three moduli take 19 limbs in 2^4 digits, five could take them in 2^3.
  lemma Nineteen(k: nat, d: nat, n: nat)
    requires SizeOk(19, k, d, n) && 2 * d <= IntBits(n) - 4
    ensures LosesNothing(19, 3, 152, 5) && Cost(k, n) > Cost(3, 5)
  {
    assert Pow2(0) == 1 && Pow2(1) == 2 && Pow2(2) == 4 && Pow2(3) == 8 && Pow2(4) == 16;
    assert k == 0 || k == 1 || k == 2 || k == 3 || k >= 4;
    CostMono(4, k, n);
  }

  lemma WhenCheapest(len: nat, k: nat, d: nat, n: nat)
    requires BestSoFar(len, 6, Cost(k, n)) && SizeOk(len, k, d, n) && 2 * d <= IntBits(n) - 4
    ensures Cheapest(len, k, n) <==> len != 19
  {
    hide Cost;
    hide SizeOk;
    hide LosesNothing;
    if len == 19 {
      Nineteen(k, d, n);
    } else {
      forall k': nat, d': nat, n': nat | LosesNothing(len, k', d', n') ensures Cost(k, n) <= Cost(k', n') {
        LongDigits(len, k', d', n');
        var e: nat :| e <= (IntBits(n') - 4) / 2 && LosesNothing(len, k', e, n');
        AtMostFive(len, k', e, n');
      }
    }
  }

  lemma AtMostFive(len: nat, k: nat, d: nat, n: nat)
    requires LosesNothing(len, k, d, n)
    ensures n < 6
  {
  }

  // bf_get_fft_size. The source aborts when no size is found, which happens exactly above 2^52 limbs.
  // What is found costs least, except for 19 limbs: there it overlooks digits of 152 bits.
  method BfGetFftSize(len: nat) returns (found: bool, fftLenLog2: nat, dpl: nat, nbMods: nat)
    ensures found <==> len <= LEN_MAX
    ensures found ==> SizeOk(len, fftLenLog2, dpl, nbMods)
    ensures found ==> (Cheapest(len, fftLenLog2, nbMods) <==> len != 19)
    ensures found && dpl > 125 ==> 125 * Pow2(fftLenLog2) < len * 64
  {
    hide Pow2;
    hide Shortest;
    hide Cheapest;
    var minCost := B - 1;
    fftLenLog2, dpl, nbMods := 0, 0, 4;
    var nb := 3;
    StartBest(len);
    hide BestSoFar;
    while nb <= NB_MODS
      invariant 3 <= nb <= NB_MODS + 1 && BestSoFar(len, nb, minCost)
      invariant dpl != 0 ==> SizeOk(len, fftLenLog2, dpl, nbMods) && minCost == Cost(fftLenLog2, nbMods)
      invariant dpl != 0 ==> 2 * dpl <= IntBits(nbMods) - 4
      invariant dpl == 0 ==> fftLenLog2 == 0 && minCost == B - 1 && (nb == NB_MODS + 1 ==> len > LEN_MAX)
    {
      var ok, log2, d := DigitsFor(len, nb);
      ghost var was := minCost;
      if ok {
        CostFits(log2, nb);
        var cost := (log2 + 1) * Pow2(log2) * nb;
        if cost < minCost {
          minCost, dpl, nbMods, fftLenLog2 := cost, d, nb, log2;
        }
      }
      BestStep(len, nb, was, ok, log2, minCost);
      nb := nb + 1;
    }
    found := dpl != 0;
    if found {
      SizeLimit(len, fftLenLog2, dpl, nbMods);
      WhenCheapest(len, fftLenLog2, dpl, nbMods);
      // shorter digits that still fit are cheaper to convert
      if dpl > LIMB_BITS + NTT_MOD_LOG2_MIN && (LIMB_BITS + NTT_MOD_LOG2_MIN) * Pow2(fftLenLog2) >= len * LIMB_BITS {
        dpl := LIMB_BITS + NTT_MOD_LOG2_MIN;
      }
    }
  }

  lemma StartBest(len: nat)
    ensures BestSoFar(len, 3, B - 1)
  {
  }

  // ----- The product -----

  lemma DigitFnSeq(v: int, dpl: nat)
    ensures DigitSeq(DigitFn(v, dpl), Pow2(dpl))
  {
    forall i: nat ensures 0 <= DigitFn(v, dpl)(i) < Pow2(dpl) {
      DigitRange(v, dpl, i);
    }
  }

  ghost function ProductCoefficients(a: seq<Limb>, b: seq<Limb>, dpl: nat): nat -> int {
    Conv(DigitFn(Val(a), dpl), DigitFn(Val(b), dpl))
  }

  // Every coefficient of the product is below the product of the moduli.
  lemma CoefficientsBelow(s: NttState, a: seq<Limb>, b: seq<Limb>, fftLenLog2: nat, dpl: nat, nbMods: nat)
    requires |s.mods| == NB_MODS && ProductsWide(s) && SizeOk(|a| + |b|, fftLenLog2, dpl, nbMods)
    ensures Coefficients(ProductCoefficients(a, b, dpl), Pow2(fftLenLog2), Product(s, NB_MODS - nbMods))
    ensures Coefficients(ProductCoefficients(a, b, dpl), Pow2(fftLenLog2), Pow2(IntBits(nbMods)))
  {
    hide Product;
    BitsBelow(a, b, fftLenLog2, dpl, nbMods);
    assert Pow2(IntBits(nbMods)) <= Product(s, NB_MODS - nbMods);
    hide ProductCoefficients;
    hide Pow2;
  }

  lemma BitsBelow(a: seq<Limb>, b: seq<Limb>, fftLenLog2: nat, dpl: nat, nbMods: nat)
    requires fftLenLog2 + 2 * dpl <= IntBits(nbMods)
    ensures Coefficients(ProductCoefficients(a, b, dpl), Pow2(fftLenLog2), Pow2(IntBits(nbMods)))
  {
    hide Val;
    hide Conv;
    Pow2Add(dpl, dpl);
    Pow2Add(fftLenLog2, dpl + dpl);
    Pow2Mono(fftLenLog2 + (dpl + dpl), IntBits(nbMods));
    hide Pow2;
    DigitFnSeq(Val(a), dpl);
    DigitFnSeq(Val(b), dpl);
    forall i: nat | i < Pow2(fftLenLog2) ensures 0 <= ProductCoefficients(a, b, dpl)(i) < Pow2(IntBits(nbMods)) {
      ConvBound(DigitFn(Val(a), dpl), DigitFn(Val(b), dpl), i, Pow2(fftLenLog2), Pow2(dpl));
    }
  }

  lemma BoundFits(nbMods: nat)
    requires 3 <= nbMods <= NB_MODS
    ensures 2 * Pow2(IntBits(nbMods)) <= Pow(nbMods)
  {
    PowPow2(nbMods);
    Pow2Mono(IntBits(nbMods) + 1, LIMB_BITS * nbMods);
    assert Pow2(IntBits(nbMods) + 1) == 2 * Pow2(IntBits(nbMods));
  }

  lemma ResiduesNoOverlap(x: seq<Limb>, y: seq<Limb>, a: seq<Limb>, b: seq<Limb>, dpl: nat, n: nat, m: int)
    requires |x| == |y| == n && dpl >= 1 && (|a| + |b|) * LIMB_BITS <= n * dpl
    requires Residues(x, Val(a), dpl, DigitCount(|a|, dpl), m) && Residues(y, Val(b), dpl, DigitCount(|b|, dpl), m)
    ensures NoOverlap(SeqFn(x), SeqFn(y), n)
  {
    hide ResidueAt;
    FitNoOverlap(SeqFn(x), SeqFn(y), |a|, |b|, dpl, n);
  }

  lemma ResidueBelow(x: seq<Limb>, v: int, dpl: nat, n: nat, m: int)
    requires Residues(x, v, dpl, n, m) && m > 0
    ensures Below(x, 2 * m)
  {
    hide Cong;
    forall i | 0 <= i < |x| ensures x[i] < 2 * m {
      if i < n {
        assert ResidueAt(x[i], v, dpl, i, m);
      }
    }
  }

  lemma ResidueCong(x: seq<Limb>, a: seq<Limb>, dpl: nat, m: int, i: nat)
    requires dpl >= 1 && Residues(x, Val(a), dpl, DigitCount(|a|, dpl), m) && m > 0 && i < |x|
    ensures Cong(SeqFn(x)(i), DigitFn(Val(a), dpl)(i), m)
  {
    hide Cong;
    hide Val;
    hide Digit;
    if i < DigitCount(|a|, dpl) {
      assert ResidueAt(x[i], Val(a), dpl, i, m);
    } else {
      DigitPast(a, dpl, i);
      CongSelf(0, m);
    }
  }

  lemma ConvolvedHolds(x: seq<Limb>, y: seq<Limb>, r: seq<Limb>, a: seq<Limb>, b: seq<Limb>, dpl: nat, s: NttState,
                       k: nat, i: nat)
    requires k < |s.mods| && s.mods[k].m > 0 && dpl >= 1 && i < |r| && Convolved(x, y, r, s.mods[k].m)
    requires Residues(x, Val(a), dpl, DigitCount(|a|, dpl), s.mods[k].m) &&
             Residues(y, Val(b), dpl, DigitCount(|b|, dpl), s.mods[k].m)
    ensures HoldsAt(r[i], ProductCoefficients(a, b, dpl)(i), s, k)
  {
    hide Cong;
    hide Val;
    hide Residues;
    hide SeqFn;
    hide DigitFn;
    hide Conv;
    var m := s.mods[k].m;
    forall q: nat | q <= i ensures Cong(SeqFn(x)(q), DigitFn(Val(a), dpl)(q), m) &&
        Cong(SeqFn(y)(q), DigitFn(Val(b), dpl)(q), m) {
      ResidueCong(x, a, dpl, m, q);
      ResidueCong(y, b, dpl, m, q);
    }
    ConvCong(SeqFn(x), SeqFn(y), DigitFn(Val(a), dpl), DigitFn(Val(b), dpl), i, m);
    CongTrans(r[i], Conv(SeqFn(x), SeqFn(y))(i), ProductCoefficients(a, b, dpl)(i), m);
  }

  // One modulus of fft_mul: convolve the residues of both factors.
  method MulModulus(s: NttState, k: nat, buf1: array<Limb>, buf2: array<Limb>, fftLenLog2: nat, dpl: nat,
                    ghost a: seq<Limb>, ghost b: seq<Limb>)
    requires ValidState(s) && k < NB_MODS && buf1 != buf2 && 1 <= fftLenLog2 <= NTT_PROOT_2EXP && dpl >= 1
    requires buf1.Length == buf2.Length == Pow2(fftLenLog2) && (|a| + |b|) * LIMB_BITS <= Pow2(fftLenLog2) * dpl
    requires Residues(buf1[..], Val(a), dpl, DigitCount(|a|, dpl), s.mods[k].m)
    requires Residues(buf2[..], Val(b), dpl, DigitCount(|b|, dpl), s.mods[k].m)
    modifies buf1, buf2
    ensures forall i: nat :: i < buf1.Length ==> HoldsAt(buf1[i], ProductCoefficients(a, b, dpl)(i), s, k)
  {
    hide Cong;
    hide Val;
    hide Residues;
    hide SeqFn;
    hide Pow2;
    hide NoOverlap;
    hide Convolved;
    hide CyclicOk;
    hide HoldsAt;
    hide ProductCoefficients;
    hide Below;
    hide CrAt;
    assert ValidMod(s.mods[k]);
    hide ValidMod;
    ModFacts(s.mods[k]);
    ghost var x, y, m := buf1[..], buf2[..], s.mods[k].m;
    ResiduesNoOverlap(x, y, a, b, dpl, Pow2(fftLenLog2), m);
    ResidueBelow(x, Val(a), dpl, DigitCount(|a|, dpl), m);
    ResidueBelow(y, Val(b), dpl, DigitCount(|b|, dpl), m);
    assert buf1[0..0 + Pow2(fftLenLog2)] == x && buf2[0..0 + Pow2(fftLenLog2)] == y;
    Convolve(s.mods[k], buf1, 0, buf2, 0, fftLenLog2, fftLenLog2);
    ghost var r := buf1[..];
    assert buf1[0..0 + Pow2(fftLenLog2)] == r;
    CyclicIsConvolution(s.mods[k], fftLenLog2, x, y, r);
    forall i: nat | i < buf1.Length ensures HoldsAt(buf1[i], ProductCoefficients(a, b, dpl)(i), s, k) {
      ConvolvedHolds(x, y, r, a, b, dpl, s, k, i);
    }
  }

  method NewBuffers(n: nat, fftLen: nat) returns (bufs: seq<array<Limb>>)
    ensures |bufs| == n && Distinct(bufs) && forall j :: 0 <= j < n ==> fresh(bufs[j]) && bufs[j].Length == fftLen
  {
    bufs := [];
    while |bufs| < n
      invariant |bufs| <= n && Distinct(bufs)
      invariant forall j :: 0 <= j < |bufs| ==> fresh(bufs[j]) && bufs[j].Length == fftLen
    {
      var buf := new Limb[fftLen];
      bufs := bufs + [buf];
    }
  }

  ghost predicate Separate(bufs1: seq<array<Limb>>, bufs2: seq<array<Limb>>) {
    && Distinct(bufs1) && Distinct(bufs2)
    && forall i, j :: 0 <= i < |bufs1| && 0 <= j < |bufs2| ==> bufs1[i] != bufs2[j]
  }

  ghost predicate ResiduesAt(buf: array<Limb>, s: NttState, k: nat, a: seq<Limb>, dpl: nat)
    requires dpl >= 1
    reads buf
  {
    k < |s.mods| && Residues(buf[..], Val(a), dpl, DigitCount(|a|, dpl), s.mods[k].m)
  }

  ghost predicate AllHold(buf: array<Limb>, c: nat -> int, s: NttState, k: nat)
    reads buf
  {
    forall i: nat :: i < buf.Length ==> HoldsAt(buf[i], c(i), s, k)
  }

  // The residues of the second factor. With reduced memory they are computed again for each modulus,
  // into the same buffer.
  method SecondFactor(s: NttState, first: nat, j: nat, bufs2: seq<array<Limb>>, reducedMem: bool, b: seq<Limb>,
                      fftLen: nat, dpl: nat)
    returns (ptr: array<Limb>)
    requires ValidState(s) && first + j < NB_MODS && Distinct(bufs2) && 1 <= dpl <= DPL_MAX
    requires if reducedMem then |bufs2| == 1 else j < |bufs2| && ResiduesAt(bufs2[j], s, first + j, b, dpl)
    requires forall j :: 0 <= j < |bufs2| ==> bufs2[j].Length == fftLen
    modifies if reducedMem then bufs2 else []
    ensures ptr == bufs2[if reducedMem then 0 else j] && ResiduesAt(ptr, s, first + j, b, dpl)
  {
    hide Residues;
    hide CrAt;
    hide ValidMod;
    if reducedMem {
      LimbToNtt([s.mods[first + j]], bufs2, fftLen, b, dpl);
      ptr := bufs2[0];
    } else {
      ptr := bufs2[j];
    }
  }

  // The loop over the moduli.
  method MulModuli(s: NttState, first: nat, bufs1: seq<array<Limb>>, bufs2: seq<array<Limb>>, reducedMem: bool,
                   a: seq<Limb>, b: seq<Limb>, fftLenLog2: nat, dpl: nat)
    requires ValidState(s) && first + |bufs1| == NB_MODS && Separate(bufs1, bufs2) && 1 <= fftLenLog2 <= NTT_PROOT_2EXP
    requires 1 <= dpl <= DPL_MAX && (|a| + |b|) * LIMB_BITS <= Pow2(fftLenLog2) * dpl
    requires |bufs2| == if reducedMem then 1 else |bufs1|
    requires forall k :: 0 <= k < |bufs1| ==>
             bufs1[k].Length == Pow2(fftLenLog2) && ResiduesAt(bufs1[k], s, first + k, a, dpl)
    requires forall k :: 0 <= k < |bufs2| ==>
             bufs2[k].Length == Pow2(fftLenLog2) && (reducedMem || ResiduesAt(bufs2[k], s, first + k, b, dpl))
    modifies bufs1, bufs2
    ensures forall k :: 0 <= k < |bufs1| ==> AllHold(bufs1[k], ProductCoefficients(a, b, dpl), s, first + k)
  {
    hide ValidState;
    hide Pow2;
    hide ProductCoefficients;
    var j := 0;
    while j < |bufs1|
      invariant 0 <= j <= |bufs1|
      invariant forall k :: j <= k < |bufs1| ==> ResiduesAt(bufs1[k], s, first + k, a, dpl)
      invariant reducedMem || forall k :: j <= k < |bufs2| ==> ResiduesAt(bufs2[k], s, first + k, b, dpl)
      invariant forall k :: 0 <= k < j ==> AllHold(bufs1[k], ProductCoefficients(a, b, dpl), s, first + k)
    {
      var ptr := SecondFactor(s, first, j, bufs2, reducedMem, b, Pow2(fftLenLog2), dpl);
      hide ResiduesAt;
      hide AllHold;
      MulModulus(s, first + j, bufs1[j], ptr, fftLenLog2, dpl, a, b);
      j := j + 1;
    }
  }

  // The work of fft_mul once the sizes are chosen.
  method FftMulSized(s: NttState, a: seq<Limb>, b: seq<Limb>, fftLenLog2: nat, dpl: nat, nbMods: nat)
    returns (res: array<Limb>)
    requires ValidState(s) && ProductsWide(s) && 1 <= fftLenLog2 <= NTT_PROOT_2EXP
    requires SizeOk(|a| + |b|, fftLenLog2, dpl, nbMods)
    ensures fresh(res) && res.Length == |a| + |b| && Val(res[..]) == Val(a) * Val(b)
  {
    hide Val;
    hide ValidState;
    hide Product;
    hide Conv;
    hide Coefficients;
    hide HoldsAt;
    hide Residues;
    hide Pow2;
    StateSize(s);
    var first, fftLen := NB_MODS - nbMods, Pow2(fftLenLog2);
    var reducedMem := fftLenLog2 >= 14;
    var buf1 := NewBuffers(nbMods, fftLen);
    var buf2 := NewBuffers(if reducedMem then 1 else nbMods, fftLen);
    Moduli(s, first);
    LimbToNtt(s.mods[first..], buf1, fftLen, a, dpl);
    if !reducedMem {
      LimbToNtt(s.mods[first..], buf2, fftLen, b, dpl);
    }
    MulModuli(s, first, buf1, buf2, reducedMem, a, b, fftLenLog2, dpl);
    res := new Limb[|a| + |b|];
    ghost var c := ProductCoefficients(a, b, dpl);
    CoefficientsBelow(s, a, b, fftLenLog2, dpl, nbMods);
    BoundFits(nbMods);
    assert Pow2(IntBits(nbMods)) <= Product(s, NB_MODS - nbMods);
    ProductEval(a, b, dpl, fftLen);
    ProductRangeIs(a, b);
    AllHolds(buf1, c, s, first, fftLen);
    hide ProductCoefficients;
    NttToLimb(s, first, res, buf1, fftLen, dpl, c, Pow2(IntBits(nbMods)));
  }

  lemma AllHolds(bufs: seq<array<Limb>>, c: nat -> int, s: NttState, first: nat, fftLen: nat)
    requires forall k :: 0 <= k < |bufs| ==> AllHold(bufs[k], c, s, first + k)
    ensures Holds(bufs, c, s, first, fftLen)
  {
    hide HoldsAt;
    forall j: nat, i: nat | j < |bufs| && i < fftLen &&
        i < bufs[j].Length ensures HoldsAt(bufs[j][i], c(i), s, first + j) {
      assert AllHold(bufs[j], c, s, first + j);
    }
  }

  // fft_mul. The source aborts where done is false.
  method FftMul(s: NttState, a: seq<Limb>, b: seq<Limb>) returns (done: bool, res: array<Limb>)
    requires ValidState(s) && ProductsWide(s) && |a| + |b| >= 3
    ensures done <==> |a| + |b| <= LEN_MAX
    ensures fresh(res) && (done ==> res.Length == |a| + |b| && Val(res[..]) == Val(a) * Val(b))
  {
    hide Val;
    hide ValidState;
    var found, fftLenLog2, dpl, nbMods := BfGetFftSize(|a| + |b|);
    done := found;
    if done {
      LongEnough(|a| + |b|, fftLenLog2, dpl);
      res := FftMulSized(s, a, b, fftLenLog2, dpl, nbMods);
    } else {
      res := new Limb[0];
    }
  }

  lemma LongEnough(len: nat, fftLenLog2: nat, dpl: nat)
    requires len >= 3 && 1 <= dpl <= DPL_MAX && len * LIMB_BITS <= Pow2(fftLenLog2) * dpl
    ensures fftLenLog2 >= 1
  {
    Pow2Small();
  }

  lemma Moduli(s: NttState, first: nat)
    requires ValidState(s) && first <= NB_MODS
    ensures |s.mods[first..]| == NB_MODS - first && forall j :: 0 <= j < NB_MODS - first ==>
            ValidMod(s.mods[first..][j])
    ensures forall k: nat :: first + k < NB_MODS ==> s.mods[first..][k] == s.mods[first + k]
  {
    hide ValidMod;
    hide CrAt;
  }

  lemma ProductRangeIs(a: seq<Limb>, b: seq<Limb>)
    ensures 0 <= Val(a) * Val(b) < Pow(|a| + |b|)
  {
    hide Val;
    hide Pow;
    ValBound(a);
    ValBound(b);
    PowAdd(|a|, |b|);
    var x, y, p, q := Val(a), Val(b), Pow(|a|), Pow(|b|);
    MulPos(x, y);
    MulMono(y, q, x);
    MulStrict(x, p, q);
  }
}
