// ntt_to_limb of quickjs/libbf.c: Chinese remaindering to mixed radix form, conversion to limbs with
// the carry of the previous digit, and writing of dpl bits at a time.

module NttGarner {
  import opened Limbs
  import opened Bits
  import opened NttArith
  import opened NttDft
  import opened NttConv
  import opened NttDigits

  const NB_MODS: int := 5

  // BFNTTState: the moduli and, for J < K, the inverse of modulus J modulo modulus K.
  datatype NttState = NttState(mods: seq<NttMod>, cr: seq<Limb>, crInv: seq<Limb>)

  // Where the pairs (J, K), K > J, start in the table.
  function PairBase(j: nat): int {
    if j == 0 then 0 else PairBase(j - 1) + NB_MODS - j
  }

  ghost predicate CrAt(s: NttState, j: nat, k: nat) {
    var l := PairBase(j) + (k - j - 1);
    && j < k < |s.mods| && 0 <= l < |s.cr| && l < |s.crInv| && s.mods[k].m > 0
    && s.cr[l] < s.mods[k].m && s.crInv[l] == (s.cr[l] * B) / s.mods[k].m
    && Cong(s.cr[l] as int * s.mods[j].m, 1, s.mods[k].m)
  }

  ghost predicate ValidState(s: NttState) {
    && |s.mods| == NB_MODS
    && (forall j :: 0 <= j < NB_MODS ==> ValidMod(s.mods[j]))
    && (forall j, k :: 0 <= j < k < NB_MODS ==> s.mods[j].m < s.mods[k].m && CrAt(s, j, k))
  }

  // ----- Mixed radix -----

  // c divided by the moduli first, ..., first + j - 1.
  ghost function Quot(c: int, s: NttState, first: nat, j: nat): int
    requires first + j <= |s.mods|
  {
    if j == 0 then c
    else if s.mods[first + j - 1].m == 0 then 0
    else Quot(c, s, first, j - 1) / s.mods[first + j - 1].m
  }

  // The product of the moduli from position i on.
  ghost function Product(s: NttState, i: nat): int
    requires i <= |s.mods|
    decreases |s.mods| - i
  {
    if i == |s.mods| then 1 else s.mods[i].m * Product(s, i + 1)
  }

  // The value of the mixed radix digits from digit j on.
  ghost function Mixed(y: seq<Limb>, s: NttState, first: nat, j: nat): int
    requires first + |y| == |s.mods| && j <= |y|
    decreases |y| - j
  {
    if j == |y| then 0 else y[j] + s.mods[first + j].m * Mixed(y, s, first, j + 1)
  }

  ghost predicate MixedDigit(y: Limb, c: int, s: NttState, first: nat, j: nat) {
    first + j < |s.mods| && s.mods[first + j].m > 0 && y == Quot(c, s, first, j) % s.mods[first + j].m
  }

  lemma {:induction false} QuotBound(c: int, s: NttState, first: nat, j: nat)
    requires first + j <= |s.mods| && 0 <= c < Product(s, first) && forall i :: 0 <= i < |s.mods| ==> s.mods[i].m > 0
    ensures 0 <= Quot(c, s, first, j) < Product(s, first + j)
  {
    if j > 0 {
      QuotBound(c, s, first, j - 1);
      QuotientBelow(Quot(c, s, first, j - 1), s.mods[first + j - 1].m, Product(s, first + j));
    }
  }

  lemma QuotientBelow(c: int, m: int, p: int)
    requires m > 0 && 0 <= c < m * p
    ensures 0 <= c / m < p
  {
    assert c == (c / m) * m + c % m;
    MulCancelLess(c / m, p, m);
    MulCancelLess(-1, c / m, m);
  }

  // The mixed radix digits of c add up to c.
  lemma {:induction false} MixedIs(y: seq<Limb>, c: int, s: NttState, first: nat, j: nat)
    requires first + |y| == |s.mods| && j <= |y| && 0 <= c < Product(s, first)
    requires forall k: nat :: k < |y| ==> MixedDigit(y[k], c, s, first, k)
    requires forall i :: 0 <= i < |s.mods| ==> s.mods[i].m > 0
    ensures Mixed(y, s, first, j) == Quot(c, s, first, j)
    decreases |y| - j
  {
    if j == |y| {
      QuotBound(c, s, first, j);
    } else {
      MixedIs(y, c, s, first, j + 1);
      assert MixedDigit(y[j], c, s, first, j);
      var q, m := Quot(c, s, first, j), s.mods[first + j].m;
      assert q == m * (q / m) + q % m;
    }
  }

  // ----- Garner's algorithm -----

  ghost predicate ResidueOf(y: Limb, c: int, s: NttState, first: nat, k: nat, j: nat) {
    && first + k < |s.mods| && first + j <= |s.mods| && s.mods[first + k].m > 0
    && y < s.mods[first + k].m && Cong(y, Quot(c, s, first, j), s.mods[first + k].m)
  }

  // Digit j is done when the residues are those of the quotient j.
  lemma DigitDone(y: Limb, c: int, s: NttState, first: nat, j: nat)
    requires ResidueOf(y, c, s, first, j, j)
    ensures MixedDigit(y, c, s, first, j)
  {
    hide Cong;
    var q, m := Quot(c, s, first, j), s.mods[first + j].m;
    CongMod(q, m);
    CongSym(q % m, q, m);
    CongTrans(y, q, q % m, m);
    CongUnique(y, q % m, m);
  }

  // (y_k - y_j) / m_j modulo m_k.
  method GarnerStep(s: NttState, first: nat, yk: Limb, yj: Limb, j: nat, k: nat, l: nat, ghost c: int) returns (r: Limb)
    requires ValidState(s) && j < k && first + k < NB_MODS && l == PairBase(first + j) + (k - j - 1)
    requires ResidueOf(yk, c, s, first, k, j) && MixedDigit(yj, c, s, first, j)
    ensures ResidueOf(r, c, s, first, k, j + 1)
  {
    assert CrAt(s, first + j, first + k);
    assert ValidMod(s.mods[first + k]) && s.mods[first + j].m < s.mods[first + k].m;
    hide Cong;
    hide ValidMod;
    var m := s.mods[first + k].m;
    var d: Limb := yk as int - yj + m;
    r := MulModFast2(d, s.cr[l], m, s.crInv[l]);
    Divided(Quot(c, s, first, j), s.mods[first + j].m, m, yk, yj, s.cr[l], d, r);
  }

  lemma Divided(q: int, mj: int, m: int, yk: int, yj: int, cr: int, d: int, r: int)
    requires mj > 0 && m > 0 && Cong(yk, q, m) && yj == q % mj && Cong(cr * mj, 1, m) && d == yk - yj + m &&
             Cong(r, d * cr, m)
    ensures Cong(r, q / mj, m)
  {
    CongBy(d, yk - yj, m, 1);
    hide Cong;
    var t := q / mj;
    assert q - yj == t * mj;
    CongSelf(yj, m);
    CongAdd(yk, q, yj, yj, m);
    CongTrans(d, yk - yj, t * mj, m);
    CongSelf(cr, m);
    CongMul(d, t * mj, cr, cr, m);
    CongTrans(r, d * cr, (t * mj) * cr, m);
    assert (t * mj) * cr == t * (cr * mj);
    CongSelf(t, m);
    CongMul(t, t, cr * mj, 1, m);
    CongTrans(r, t * (cr * mj), t * 1, m);
  }

  // The Chinese remainder part of ntt_to_limb.
  method Garner(s: NttState, first: nat, x: seq<Limb>, ghost c: int) returns (y: seq<Limb>)
    requires ValidState(s) && first < NB_MODS && |x| == NB_MODS - first && 0 <= c < Product(s, first)
    requires forall k: nat :: k < |x| ==> ResidueOf(x[k], c, s, first, k, 0)
    ensures |y| == |x| && Mixed(y, s, first, 0) == c
  {
    hide ResidueOf;
    hide ValidMod;
    hide CrAt;
    y := x;
    var l := PairBase(first);
    PairBasePositive(first);
    var j := 0;
    while j < |x| - 1
      invariant 0 <= j < |x| == |y| && l == PairBase(first + j) && l >= 0
      invariant forall k: nat :: k < j ==> MixedDigit(y[k], c, s, first, k)
      invariant forall k: nat :: j <= k < |y| ==> ResidueOf(y[k], c, s, first, k, j)
    {
      DigitDone(y[j], c, s, first, j);
      var k := j + 1;
      while k < |x|
        invariant j < k <= |x| == |y| && l == PairBase(first + j) + (k - j - 1) && l >= 0
        invariant forall i: nat :: i <= j ==> MixedDigit(y[i], c, s, first, i)
        invariant forall i: nat :: j < i < k ==> ResidueOf(y[i], c, s, first, i, j + 1)
        invariant forall i: nat :: k <= i < |y| ==> ResidueOf(y[i], c, s, first, i, j)
      {
        var r := GarnerStep(s, first, y[k], y[j], j, k, l, c);
        y := y[k := r];
        l := l + 1;
        k := k + 1;
      }
      j := j + 1;
    }
    DigitDone(y[j], c, s, first, j);
    assert forall i :: 0 <= i < |s.mods| ==> s.mods[i].m > 0 by {
      forall i | 0 <= i < |s.mods| ensures s.mods[i].m > 0 {
        ModFacts(s.mods[i]);
      }
    }
    MixedIs(y, c, s, first, 0);
  }

  lemma {:induction false} PairBasePositive(j: nat)
    requires j < NB_MODS
    ensures PairBase(j) >= 0
  {
    if j > 0 {
      PairBasePositive(j - 1);
    }
  }

  // ----- Mixed radix to limbs -----

  lemma RowArith(v: int, u: int, m: int, r: int, c: int, t: int, n: int, n': int, w: int, r0: int)
    requires n + r * w == v * m + r0 && t == u * m + r + c && n' == n + (t % B) * w
    ensures n' + (t / B) * (B * w) == (v + u * w) * m + (r0 + c * w)
  {
    assert (t / B) * (B * w) == ((t / B) * B) * w;
    assert t * w == ((t / B) * B) * w + (t % B) * w;
    assert (u * m + r + c) * w == (u * w) * m + r * w + c * w;
    assert (v + u * w) * m == v * m + (u * w) * m;
  }

  lemma RowBound(u: int, m: int, r: int, c: int)
    requires 0 <= u < B && 0 <= m < MOD_MAX && 0 <= r < B && 0 <= c < B
    ensures 0 <= u * m + r + c < B * B && 0 <= (u * m + r + c) / B < B
  {
    MulMono(u, B, m);
    MulPos(u, m);
    QuotientBelow(u * m + r + c, B, B);
  }

  // u * m + r0 + carry
  method MulAddCarry(u: seq<Limb>, m: Limb, r0: Limb, carry: seq<Limb>) returns (w: seq<Limb>, r: Limb)
    requires m < MOD_MAX && |carry| >= |u|
    ensures |w| == |u| && Val(w) + r * Pow(|u|) == Val(u) * m + r0 + Val(carry[..|u|])
  {
    hide Val;
    w, r := [], r0;
    ValZeros([]);
    assert u[..0] == [] && carry[..0] == [];
    assert Pow(0) == 1;
    var k := 0;
    while k < |u|
      invariant 0 <= k <= |u| && |w| == k
      invariant Val(w) + r * Pow(k) == Val(u[..k]) * m + (r0 + Val(carry[..k]))
    {
      RowBound(u[k], m, r, carry[k]);
      var t := u[k] * m + r + carry[k];
      var low: Limb := t % B;
      ValSnoc(w, low);
      assert u[..k + 1] == u[..k] + [u[k]] && carry[..k + 1] == carry[..k] + [carry[k]];
      ValSnoc(u[..k], u[k]);
      ValSnoc(carry[..k], carry[k]);
      assert Pow(k + 1) == B * Pow(k);
      RowArith(Val(u[..k]), u[k], m, r, carry[k], t, Val(w), Val(w + [low]), Pow(k), r0 + Val(carry[..k]));
      w := w + [low];
      r := t / B;
      k := k + 1;
    }
    assert u[..|u|] == u;
  }

  // u * m + r0
  method MulAdd(u: seq<Limb>, m: Limb, r0: Limb) returns (w: seq<Limb>, r: Limb)
    requires m < MOD_MAX
    ensures |w| == |u| && Val(w) + r * Pow(|u|) == Val(u) * m + r0
  {
    hide Val;
    w, r := [], r0;
    ValZeros([]);
    assert u[..0] == [];
    assert Pow(0) == 1;
    var k := 0;
    while k < |u|
      invariant 0 <= k <= |u| && |w| == k
      invariant Val(w) + r * Pow(k) == Val(u[..k]) * m + r0
    {
      RowBound(u[k], m, r, 0);
      var t := u[k] * m + r;
      var low: Limb := t % B;
      ValSnoc(w, low);
      assert u[..k + 1] == u[..k] + [u[k]];
      ValSnoc(u[..k], u[k]);
      assert Pow(k + 1) == B * Pow(k);
      RowArith(Val(u[..k]), u[k], m, r, 0, t, Val(w), Val(w + [low]), Pow(k), r0);
      w := w + [low];
      r := t / B;
      k := k + 1;
    }
    assert u[..|u|] == u;
  }

  // The part of ntt_to_limb that returns to the normal representation and adds the carry.
  method MixedToLimbs(s: NttState, first: nat, y: seq<Limb>, carry: seq<Limb>) returns (u: seq<Limb>)
    requires ValidState(s) && first + 2 <= NB_MODS && |y| == NB_MODS - first && |carry| == NB_MODS
    requires Mixed(y, s, first, 0) + Val(carry) < Pow(|y|) && forall k :: |y| <= k < NB_MODS ==> carry[k] == 0
    ensures |u| == |y| && Val(u) == Mixed(y, s, first, 0) + Val(carry)
  {
    hide Val;
    hide Pow;
    hide ValidMod;
    hide CrAt;
    var n := |y|;
    u := [y[n - 1]];
    ValOne(y[n - 1]);
    assert Mixed(y, s, first, n - 1) == y[n - 1] + s.mods[first + n - 1].m * Mixed(y, s, first, n);
    var j := n - 2;
    while j >= 1
      invariant 0 <= j <= n - 2 && |u| == n - 1 - j && Val(u) == Mixed(y, s, first, j + 1)
    {
      ModFacts(s.mods[first + j]);
      var w, r := MulAdd(u, s.mods[first + j].m, y[j]);
      ValSnoc(w, r);
      assert Mixed(y, s, first, j) == y[j] + s.mods[first + j].m * Mixed(y, s, first, j + 1);
      u := w + [r];
      j := j - 1;
    }
    ModFacts(s.mods[first]);
    var w, r := MulAddCarry(u, s.mods[first].m, y[0], carry);
    assert Mixed(y, s, first, 0) == y[0] + s.mods[first].m * Mixed(y, s, first, 1);
    HighCarry(w, r, carry, n - 1, Mixed(y, s, first, 0));
    u := w + [r as int + carry[n - 1]];
  }

  // The top limb takes its carry without overflow.
  lemma HighCarry(w: seq<Limb>, r: Limb, carry: seq<Limb>, l: nat, v: int)
    requires |w| == l < |carry| && Val(w) + r * Pow(l) == v + Val(carry[..l]) && v + Val(carry) < Pow(l + 1)
    requires forall k :: l < k < |carry| ==> carry[k] == 0
    ensures 0 <= r as int + carry[l] < B && Val(w + [r as int + carry[l]]) == v + Val(carry)
  {
    hide Val;
    hide Pow;
    var up := carry[l + 1..];
    ValAround(carry, l);
    ValZeros(up);
    ValBound(w);
    var x := r as int + carry[l];
    assert x * Pow(l) == r * Pow(l) + carry[l] * Pow(l);
    PowAdd(1, l);
    PowOne();
    MulCancelLess(x, B, Pow(l));
    ValSnoc(w, x);
  }

  // ----- Writing one digit -----

  lemma ModAdd(a: int, b: int, n: int)
    requires n > 0
    ensures (a % n + b) % n == (a + b) % n
  {
    var q := a / n;
    assert a == q * n + a % n;
    var t := a % n + b;
    assert (t / n + q) * n == (t / n) * n + q * n;
    DivIs(a + b, n, t / n + q, t % n);
  }

  // Bits below pos stay below pos + 64 * j when j limbs are put at pos.
  lemma PutRange(t: int, v: int, p: int, w: int, n: int)
    requires 0 <= t < p && 0 <= v < w && n > 0 && p > 0
    ensures 0 <= (t + v * p) % n < p * w
  {
    MulMono(v, w - 1, p);
    MulPos(v, p);
    assert (w - 1) * p == p * w - p;
    ModAtMost(t + v * p, n);
  }

  method WriteDigit(tabr: array<Limb>, pos: nat, u: seq<Limb>, dpl: nat)
    requires Val(tabr[..]) < Pow2(pos) && 1 <= dpl <= LIMB_BITS * |u|
    modifies tabr
    ensures Val(tabr[..]) == (old(Val(tabr[..])) + (Val(u) % Pow2(dpl)) * Pow2(pos)) % Pow(tabr.Length)
  {
    hide Val;
    hide Pow2;
    hide Pow;
    hide MaskLow;
    ghost var t, p, n := Val(tabr[..]), Pow2(pos), Pow(tabr.Length);
    ValBound(tabr[..]);
    DivZero(t, n);
    ValZeros([]);
    assert u[..0] == [];
    var nLimb1 := (dpl - 1) / LIMB_BITS;
    var j := 0;
    while j < nLimb1
      invariant 0 <= j <= nLimb1 && Val(tabr[..]) == (t + Val(u[..j]) * p) % n
    {
      PutNext(t, u, j, pos, n);
      PutBits(tabr, pos + LIMB_BITS * j, u[j]);
      PutSum(t, Val(u[..j]) * p, u[j] * Pow2(pos + LIMB_BITS * j), Val(u[..j + 1]) * p, n);
      j := j + 1;
    }
    PutNext(t, u, nLimb1, pos, n);
    var last := MaskLow(u[nLimb1], dpl);
    PutBits(tabr, pos + LIMB_BITS * nLimb1, last);
    LastPart(u, nLimb1, dpl, last, pos);
    PutSum(t, Val(u[..nLimb1]) * p, last * Pow2(pos + LIMB_BITS * nLimb1), (Val(u) % Pow2(dpl)) * p, n);
  }

  lemma PutSum(t: int, a: int, b: int, c: int, n: int)
    requires n > 0 && c == a + b
    ensures ((t + a) % n + b) % n == (t + c) % n
  {
    ModAdd(t + a, b, n);
  }

  // Where limb j of u goes.
  lemma PutNext(t: int, u: seq<Limb>, j: nat, pos: nat, n: int)
    requires j < |u| && 0 <= t < Pow2(pos) && n > 0
    ensures (t + Val(u[..j]) * Pow2(pos)) % n < Pow2(pos + LIMB_BITS * j)
    ensures Val(u[..j]) * Pow2(pos) + u[j] * Pow2(pos + LIMB_BITS * j) == Val(u[..j + 1]) * Pow2(pos)
  {
    hide Val;
    hide Pow2;
    hide Pow;
    ValBound(u[..j]);
    PowPow2(j);
    Pow2Add(pos, LIMB_BITS * j);
    PutRange(t, Val(u[..j]), Pow2(pos), Pow(j), n);
    assert u[..j + 1] == u[..j] + [u[j]];
    ValSnoc(u[..j], u[j]);
    Shift(Val(u[..j]), u[j], Pow(j), Pow2(pos));
  }

  lemma LastPart(u: seq<Limb>, k: nat, dpl: nat, last: Limb, pos: nat)
    requires k < |u| && LIMB_BITS * k < dpl <= LIMB_BITS * (k + 1) && last == MaskLow(u[k], dpl)
    ensures Val(u[..k]) * Pow2(pos) + last * Pow2(pos + LIMB_BITS * k) == (Val(u) % Pow2(dpl)) * Pow2(pos)
  {
    hide Val;
    hide Pow2;
    hide Pow;
    hide MaskLow;
    ValSplit(u, k);
    var t := u[k..];
    HeadTail(t);
    assert t[0] == u[k];
    ValBound(t);
    ValBound(t[1..]);
    DivIs(Val(t), B, Val(t[1..]), u[k]);
    MaskIs(Val(t), u[k], dpl, k);
    PowPow2(k);
    Pow2Add(LIMB_BITS * k, dpl - LIMB_BITS * k);
    Pow2Add(pos, LIMB_BITS * k);
    ModSplit(Val(u), Pow(k), Pow2(dpl - LIMB_BITS * k), Pow2(dpl));
    DivIs(Val(u), Pow(k), Val(t), Val(u[..k]));
    Shift(Val(u[..k]), last, Pow(k), Pow2(pos));
    assert last * Pow(k) == Pow(k) * last;
  }

  // ----- The next carry -----

  // A number is its limbs.
  lemma {:induction false} ValOfLimbs(t: seq<Limb>, x: int)
    requires x >= 0 && forall k: nat :: k < |t| ==> t[k] == (x / Pow(k)) % B
    ensures Val(t) == x % Pow(|t|)
  {
    hide Pow;
    if t == [] {
      PowOne();
    } else {
      var n := |t| - 1;
      ValOfLimbs(t[..n], x);
      PowAdd(n, 1);
      PowOne();
      ModSplit(x, Pow(n), B, Pow(n + 1));
      assert t[n] * Pow(n) == Pow(n) * t[n];
    }
  }

  // How many limbs of the carry can be nonzero.
  function CarryLimbs(n: nat, dpl: nat): int
    requires dpl >= 1
  {
    n - (dpl - 1) / LIMB_BITS - (if dpl % LIMB_BITS == 0 then 1 else 0)
  }

  ghost predicate CarryOk(carry: seq<Limb>, n: nat, dpl: nat)
    requires dpl >= 1
  {
    |carry| == NB_MODS && forall k :: 0 <= k < NB_MODS && k >= CarryLimbs(n, dpl) ==> carry[k] == 0
  }

  lemma CarryWindow(v: int, dpl: nat, k: nat, d: int, x: int)
    requires d == Pow2(dpl) && x == v / d
    ensures Window(v, dpl + LIMB_BITS * k) == (x / Pow(k)) % B
  {
    hide Pow;
    PowPow2(k);
    Pow2Add(dpl, LIMB_BITS * k);
    hide Pow2;
    ModSplit(v, d, Pow(k), Pow2(dpl + LIMB_BITS * k));
  }

  lemma QuotientSmall(v: int, d: int, n: int)
    requires d >= 1 && 0 <= v < n
    ensures 0 <= v / d < n && (v / d) % n == v / d
  {
    var x := v / d;
    DivNonNeg(v, d);
    assert v == x * d + v % d;
    MulMono(1, d, x);
    DivZero(x, n);
  }

  lemma CarryIs(u: seq<Limb>, dpl: nat, carry: seq<Limb>)
    requires 1 <= dpl && |u| <= |carry| && forall k: nat :: k < |carry| ==> carry[k] == GetBits(u, dpl + LIMB_BITS * k)
    ensures Val(carry) == Val(u) / Pow2(dpl)
  {
    hide Val;
    hide Pow2;
    hide Pow;
    hide Window;
    var v, d := Val(u), Pow2(dpl);
    ValBound(u);
    var x := v / d;
    DivNonNeg(v, d);
    forall k: nat | k < |carry| ensures carry[k] == (x / Pow(k)) % B {
      assert carry[k] == GetBits(u, dpl + LIMB_BITS * k);
      hide GetBits;
      CarryWindow(v, dpl, k, d, x);
    }
    ValOfLimbs(carry, x);
    PowMono(|u|, |carry|);
    QuotientSmall(v, d, Pow(|carry|));
  }

  // (u[j] >> shift) | (u[j + 1] << (LIMB_BITS - shift))
  function Joined(u: seq<Limb>, j: nat, shift: nat): Limb
    requires 0 < shift < LIMB_BITS
  {
    Pow2Split(shift);
    JoinArith(LimbAt(u, j), LimbAt(u, j + 1), Pow2(shift), Pow2(LIMB_BITS - shift));
    LimbAt(u, j) / Pow2(shift) + (LimbAt(u, j + 1) * Pow2(LIMB_BITS - shift)) % B
  }

  // Limb k of the carry as the loops leave it.
  function CarryLimb(u: seq<Limb>, dpl: nat, k: nat): Limb
    requires dpl >= 1
  {
    var shift, nLimb1 := dpl % LIMB_BITS, (dpl - 1) / LIMB_BITS;
    if shift == 0 then LimbAt(u, nLimb1 + 1 + k) else Joined(u, nLimb1 + k, shift)
  }

  lemma CarryLimbIs(u: seq<Limb>, dpl: nat, k: nat)
    requires dpl >= 1
    ensures CarryLimb(u, dpl, k) == GetBits(u, dpl + LIMB_BITS * k)
    ensures k >= CarryLimbs(|u|, dpl) ==> CarryLimb(u, dpl, k) == 0
  {
    hide Pow2;
    var shift, nLimb1, pos := dpl % LIMB_BITS, (dpl - 1) / LIMB_BITS, dpl + LIMB_BITS * k;
    var i := if shift == 0 then nLimb1 + 1 + k else nLimb1 + k;
    assert pos == LIMB_BITS * i + shift;
    assert pos / LIMB_BITS == i && pos % LIMB_BITS == shift;
    if shift != 0 {
      Pow2Split(shift);
      DivZero(0, Pow2(shift));
    }
  }

  // Shifting by dpl bits sets the carry; limbs that are not written stay zero.
  method NextCarry(u: seq<Limb>, dpl: nat, prev: seq<Limb>) returns (carry: seq<Limb>)
    requires 1 <= dpl <= LIMB_BITS * |u| && |u| <= NB_MODS && CarryOk(prev, |u|, dpl)
    ensures CarryOk(carry, |u|, dpl) && Val(carry) == Val(u) / Pow2(dpl)
  {
    hide Val;
    hide Pow2;
    hide GetBits;
    var n, shift, nLimb1 := |u|, dpl % LIMB_BITS, (dpl - 1) / LIMB_BITS;
    carry := prev;
    if shift == 0 {
      var j := nLimb1 + 1;
      while j < n
        invariant nLimb1 + 1 <= j <= n && |carry| == NB_MODS
        invariant forall k: nat :: k < j - (nLimb1 + 1) ==> carry[k] == CarryLimb(u, dpl, k)
        invariant forall k :: j - (nLimb1 + 1) <= k < NB_MODS ==> carry[k] == prev[k]
      {
        carry := carry[j - (nLimb1 + 1) := u[j]];
        j := j + 1;
      }
    } else {
      var j := nLimb1;
      while j < n - 1
        invariant nLimb1 <= j <= n - 1 && |carry| == NB_MODS
        invariant forall k: nat :: k < j - nLimb1 ==> carry[k] == CarryLimb(u, dpl, k)
        invariant forall k :: j - nLimb1 <= k < NB_MODS ==> carry[k] == prev[k]
      {
        carry := carry[j - nLimb1 := Joined(u, j, shift)];
        j := j + 1;
      }
      TopLimb(u, dpl);
      carry := carry[n - 1 - nLimb1 := u[n - 1] / Pow2(shift)];
    }
    forall k: nat | k < NB_MODS ensures carry[k] == CarryLimb(u, dpl, k) &&
        CarryLimb(u, dpl, k) == GetBits(u, dpl + LIMB_BITS * k) {
      CarryLimbIs(u, dpl, k);
    }
    forall k | 0 <= k < NB_MODS && k >= CarryLimbs(n, dpl) ensures carry[k] == 0 {
      CarryLimbIs(u, dpl, k);
    }
    CarryIs(u, dpl, carry);
  }

  lemma TopLimb(u: seq<Limb>, dpl: nat)
    requires 1 <= dpl <= LIMB_BITS * |u| && dpl % LIMB_BITS != 0
    ensures var k := |u| - 1 - (dpl - 1) / LIMB_BITS;
      k >= 0 && CarryLimb(u, dpl, k) == u[|u| - 1] / Pow2(dpl % LIMB_BITS) &&
          0 <= u[|u| - 1] / Pow2(dpl % LIMB_BITS) < B
  {
    hide Pow2;
    Pow2Split(dpl % LIMB_BITS);
    var k := |u| - 1 - (dpl - 1) / LIMB_BITS;
    JoinArith(u[|u| - 1], 0, Pow2(dpl % LIMB_BITS), Pow2(LIMB_BITS - dpl % LIMB_BITS));
  }
}
