// count_cancelled_bits and bf_cmpu of quickjs/libbf.c: how many leading bits a difference loses.

module BfCancel {
  import opened Limbs
  import opened Bits
  import opened BfRound
  import opened BfExact

  // ----- Exclusive or -----

  // x ^ y
  function Xor(x: nat, y: nat): nat {
    Bitwise(LogicOp.XOR, x, y)
  }

  lemma {:induction false} XorZero(x: nat, y: nat)
    ensures Xor(x, y) == 0 <==> x == y
    decreases x + y
  {
    if x != 0 || y != 0 {
      XorZero(x / 2, y / 2);
    }
  }

  // Above the highest bit of the exclusive or the operands agree; there they differ.
  ghost predicate FirstDifference(x: nat, y: nat, k: nat) {
    k >= 1 && x / Pow2(k) == y / Pow2(k) && x / Pow2(k - 1) == y / Pow2(k - 1) + 1
  }

  lemma XorStep(x: nat, y: nat)
    requires x > y
    ensures Xor(x, y) == 2 * Xor(x / 2, y / 2) + (if x % 2 == y % 2 then 0 else 1)
    ensures Xor(x / 2, y / 2) == 0 <==> x / 2 == y / 2
  {
    XorZero(x / 2, y / 2);
  }

  lemma BitLenDouble(m: nat, b: nat)
    requires b <= 1 && m + b > 0
    ensures BitLen(2 * m + b) == 1 + BitLen(m)
  {
    DivIs(2 * m + b, 2, m, b);
  }

  lemma {:induction false} XorTop(x: nat, y: nat)
    requires x > y
    ensures FirstDifference(x, y, BitLen(Xor(x, y)))
    decreases x
  {
    XorStep(x, y);
    hide FirstDifference;
    hide Xor;
    if x / 2 == y / 2 {
      LastDifference(x, y);
      BitLenDouble(0, 1);
    } else {
      XorTop(x / 2, y / 2);
      BitLenDouble(Xor(x / 2, y / 2), if x % 2 == y % 2 then 0 else 1);
      hide BitLen;
      DifferenceUp(x, y, BitLen(Xor(x / 2, y / 2)));
    }
  }

  lemma LastDifference(x: nat, y: nat)
    requires x > y && x / 2 == y / 2
    ensures FirstDifference(x, y, 1) && x % 2 != y % 2
  {
    assert Pow2(0) == 1 && Pow2(1) == 2;
    hide Pow2;
    DivIs(x, 1, x, 0);
    DivIs(y, 1, y, 0);
  }

  lemma DifferenceUp(x: nat, y: nat, k: nat)
    requires FirstDifference(x / 2, y / 2, k)
    ensures FirstDifference(x, y, k + 1)
  {
    HalfDiv(x, k);
    HalfDiv(y, k);
    HalfDiv(x, k - 1);
    HalfDiv(y, k - 1);
  }

  // ----- What is counted -----

  function Max(x: int, y: int): int {
    if x >= y then x else y
  }

  // Among the top n bits of numbers of w bits: a = X1000..0, b = X0111..1, with the difference at bit k.
  ghost predicate Cancelled(a: int, b: int, w: nat, n: int, k: nat) {
    && k < w && a / Pow2(k + 1) == b / Pow2(k + 1) && a / Pow2(k) == b / Pow2(k) + 1
    && a % Pow2(k) >= 0 && Pow2(k) - 1 - b % Pow2(k) >= 0
    && n == w - Max(BitLen(a % Pow2(k)), BitLen(Pow2(k) - 1 - b % Pow2(k)))
  }

  // The difference has at most n and at least n - 1 leading zero bits.
  lemma CancelledBounds(a: int, b: int, w: nat, n: int, k: nat)
    requires Cancelled(a, b, w, n, k)
    ensures 1 <= n <= w && (n < w ==> Pow2(w - n - 1) < a - b) && 0 < a - b < Pow2(w - n + 1)
  {
    var p := Pow2(k);
    var x, y := a % p, p - 1 - b % p;
    hide Pow2;
    DifferenceIs(a, b, p);
    BitLenBound(x, k);
    BitLenBound(y, k);
    BelowMax(x, y, w - n);
  }

  lemma DifferenceIs(a: int, b: int, p: int)
    requires p > 0 && a / p == b / p + 1
    ensures a - b == 1 + a % p + (p - 1 - b % p)
  {
    assert a == (a / p) * p + a % p && b == (b / p) * p + b % p;
    assert (b / p + 1) * p == (b / p) * p + p;
  }

  lemma BelowMax(x: nat, y: nat, m: int)
    requires m == Max(BitLen(x), BitLen(y))
    ensures 0 <= x + y + 1 < Pow2(m + 1) && (m > 0 ==> Pow2(m - 1) < x + y + 1)
  {
    assert Pow2(m + 1) == 2 * Pow2(m);
    hide Pow2;
    Pow2Mono(BitLen(x), m);
    Pow2Mono(BitLen(y), m);
  }

  // The comment in the source promises n leading zero bits; there can be one less.
  lemma OneLess()
    ensures var a, b := HALF + HALF / 2, HALF; Cancelled(a, b, LIMB_BITS, 2, 62) && a - b == Pow2(LIMB_BITS - 2)
  {
    Pow2Limb();
    assert Pow2(63) == 2 * Pow2(62);
    var p := HALF / 2;
    hide Pow2;
    DivIs(HALF + p, HALF, 1, p);
    DivIs(HALF, HALF, 1, 0);
    DivIs(HALF + p, p, 3, 0);
    DivIs(HALF, p, 2, 0);
    assert BitLen(0) == 0;
    AllOnesWidth(62);
  }

  // It keeps that promise exactly if the operands have the same bit right after those counted, and
  // below that bit a is less than b.
  lemma PromiseKept(a: int, b: int, w: nat, n: int, k: nat)
    requires Cancelled(a, b, w, n, k)
    ensures 0 <= w - n && (a - b < Pow2(w - n) <==> n < w && SameBitThenLess(a, b, w - n - 1))
  {
    var p, m := Pow2(k), w - n;
    var x, y := a % p, p - 1 - b % p;
    CountedRest(a, b, w, n, k);
    hide Pow2;
    hide BitLen;
    DifferenceIs(a, b, p);
    if m > 0 {
      Pow2Next(m - 1);
      Pow2Add(m, k - m);
      PromiseArith(a, b, p, Pow2(m - 1), Pow2(k - m));
    } else {
      SmallestDifference(x, y);
    }
  }

  // What is left of the operands below the counted bits.
  lemma CountedRest(a: int, b: int, w: nat, n: int, k: nat)
    requires Cancelled(a, b, w, n, k)
    ensures 0 <= w - n <= k && 0 <= a % Pow2(k) < Pow2(w - n) && 0 <= Pow2(k) - 1 - b % Pow2(k) < Pow2(w - n)
    ensures w - n > 0 ==> a % Pow2(k) >= Pow2(w - n - 1) || Pow2(k) - 1 - b % Pow2(k) >= Pow2(w - n - 1)
  {
    hide Pow2;
    hide BitLen;
    Widths(a % Pow2(k), Pow2(k) - 1 - b % Pow2(k), w - n, k);
  }

  lemma Widths(x: nat, y: nat, m: int, k: nat)
    requires x < Pow2(k) && y < Pow2(k) && m == Max(BitLen(x), BitLen(y))
    ensures 0 <= m <= k && x < Pow2(m) && y < Pow2(m)
    ensures m > 0 ==> x >= Pow2(m - 1) || y >= Pow2(m - 1)
  {
    hide Pow2;
    BitLenBound(x, k);
    BitLenBound(y, k);
    Pow2Mono(BitLen(x), m);
    Pow2Mono(BitLen(y), m);
  }

  ghost predicate SameBitThenLess(a: int, b: int, m: int) {
    m >= 0 && Bit(a, m) == Bit(b, m) && a % Pow2(m) < b % Pow2(m)
  }

  lemma SmallestDifference(x: nat, y: nat)
    requires x < Pow2(0) && y < Pow2(0)
    ensures x == 0 && y == 0 && Pow2(0) == 1
  {
  }

  lemma PromiseArith(a: int, b: int, p: int, q: int, t: int)
    requires q > 0 && t > 0 && p == 2 * q * t && a % p < 2 * q && p - 1 - b % p < 2 * q
    requires a % p >= q || p - 1 - b % p >= q
    ensures (a % p) + (p - 1 - b % p) + 1 < 2 * q <==> (a / q) % 2 == (b / q) % 2 && a % q < b % q
  {
    var x, c := a % p, b % p - (p - 2 * q);
    TopOfRest(a, p, q, t, x, 0);
    TopOfRest(b, p, q, t, c, t - 1);
  }

  // The bits of v below p are s times 2q and r.
  lemma TopOfRest(v: int, p: int, q: int, t: int, r: int, s: int)
    requires q > 0 && t > 0 && p == 2 * q * t && v % p == s * (2 * q) + r && 0 <= r < 2 * q
    ensures (v / q) % 2 == r / q == (if r >= q then 1 else 0) && v % q == (if r >= q then r - q else r)
  {
    var u := 2 * (t * (v / p) + s) + (if r >= q then 1 else 0);
    var z := if r >= q then r - q else r;
    assert v == (v / p) * p + v % p;
    Collect(v / p, q, t, s);
    DivIs(v, q, u, z);
    DivIs(r, q, if r >= q then 1 else 0, z);
  }

  lemma Collect(d: int, q: int, t: int, s: int)
    ensures d * (2 * q * t) + s * (2 * q) == (2 * (t * d + s)) * q
  {
  }

  lemma Pow2Next(k: nat)
    ensures Pow2(k + 1) == 2 * Pow2(k)
  {
  }

  lemma AllOnesWidth(k: nat)
    requires k >= 1
    ensures BitLen(Pow2(k) - 1) == k
  {
    hide Pow2;
    hide BitLen;
    Pow2Next(k - 1);
    BitLenIs(Pow2(k) - 1, k);
  }

  // ----- Aligned limbs -----

  // Limb j of a mantissa of tot limbs that starts with the limbs of a.
  function ALimb(a: seq<Limb>, tot: nat, j: int): Limb {
    LimbAt(a, j - (tot - |a|))
  }

  // Limb j of the limbs of b shifted right by d bits.
  function BLimb(b: seq<Limb>, tot: nat, d: nat, j: int): Limb {
    GetBits(b, LIMB_BITS * (j - (tot - |b|)) + d)
  }

  ghost function AValue(a: seq<Limb>, tot: nat): int
    requires tot >= |a|
  {
    Val(a) * Pow2(LIMB_BITS * (tot - |a|))
  }

  ghost function BValue(b: seq<Limb>, tot: nat, d: nat): int
    requires LIMB_BITS * (tot - |b|) >= d
  {
    Val(b) * Pow2(LIMB_BITS * (tot - |b|) - d)
  }

  // Windows move with the value.
  lemma WindowShift(v: int, s: nat, pos: nat)
    requires v >= 0
    ensures Window(v, pos - s) == (v * Pow2(s)) / Pow2(pos) % B
  {
    hide Pow2;
    hide Window;
    var x := (v * Pow2(s)) / Pow2(pos);
    if pos >= s {
      Pow2Add(pos - s, s);
      SplitProduct(v, Pow2(pos - s), Pow2(s), Pow2(pos));
    } else {
      Pow2Add(s - pos, pos);
      JoinProduct(v, Pow2(s - pos), Pow2(pos), Pow2(s));
    }
    WindowValue(v, pos - s, x);
  }

  lemma WindowValue(v: int, pos: int, x: int)
    requires x == if pos >= 0 then v / Pow2(pos) else v * Pow2(-pos)
    ensures Window(v, pos) == x % B
  {
  }

  lemma JoinProduct(v: int, p: int, q: int, d: int)
    requires q > 0 && d == p * q
    ensures (v * d) / q == v * p
  {
    assert v * d == (v * p) * q;
    DivIs(v * d, q, v * p, 0);
  }

  lemma SplitProduct(v: int, p: int, q: int, d: int)
    requires p > 0 && q > 0 && d == p * q
    ensures (v * q) / d == v / p
  {
    var x, m := v / p, v % p;
    assert v == x * p + m;
    assert (x * p + m) * q == x * (p * q) + m * q;
    MulMono(m + 1, p, q);
    assert (m + 1) * q == m * q + q;
    MulPos(m, q);
    DivIs(v * q, d, x, m * q);
  }

  lemma ALimbIs(a: seq<Limb>, tot: nat, j: nat)
    requires tot >= |a|
    ensures ALimb(a, tot, j) == AValue(a, tot) / Pow(j) % B
  {
    hide Val;
    ValBound(a);
    PowPow2(j);
    hide Pow2;
    hide Pow;
    var i := j - (tot - |a|);
    assert GetBits(a, LIMB_BITS * i) == LimbAt(a, i) by {
      assert (LIMB_BITS * i) / LIMB_BITS == i && (LIMB_BITS * i) % LIMB_BITS == 0;
    }
    WindowShift(Val(a), LIMB_BITS * (tot - |a|), LIMB_BITS * j);
  }

  lemma BLimbIs(b: seq<Limb>, tot: nat, d: nat, j: nat)
    requires LIMB_BITS * (tot - |b|) >= d
    ensures BLimb(b, tot, d, j) == BValue(b, tot, d) / Pow(j) % B
  {
    hide Val;
    ValBound(b);
    PowPow2(j);
    hide Pow2;
    hide Pow;
    WindowShift(Val(b), LIMB_BITS * (tot - |b|) - d, LIMB_BITS * j);
  }

  // One more limb.
  lemma ModNext(v: int, j: nat, x: int)
    requires x == v / Pow(j) % B
    ensures v % Pow(j + 1) == v % Pow(j) + Pow(j) * x
  {
    PowAdd(j, 1);
    PowOne();
    hide Pow;
    ModSplit(v, Pow(j), B, Pow(j + 1));
  }

  lemma LimbDown(v: int, j: nat)
    requires v >= 0
    ensures v / Pow(j) == (v / Pow(j + 1)) * B + v / Pow(j) % B
  {
    PowAdd(j, 1);
    PowOne();
    hide Pow;
    ModSplit(v, Pow(j), B, Pow(j + 1));
  }

  // The operands of the search: a > b, both of tot limbs.
  ghost predicate Aligned(a: seq<Limb>, b: seq<Limb>, d: nat, tot: nat) {
    && tot >= |a| && LIMB_BITS * (tot - |b|) >= d
    && 0 <= BValue(b, tot, d) < AValue(a, tot) < Pow(tot)
  }

  ghost predicate EqualAbove(x: int, y: int, j: nat) {
    x / Pow(j) == y / Pow(j)
  }

  lemma EqualStart(x: int, y: int, tot: nat)
    requires 0 <= y < x < Pow(tot)
    ensures EqualAbove(x, y, tot)
  {
    DivZero(x, Pow(tot));
    DivZero(y, Pow(tot));
  }

  lemma NotAllEqual(x: int, y: int)
    requires EqualAbove(x, y, 0)
    ensures x == y
  {
    PowOne();
    DivIs(x, 1, x, 0);
    DivIs(y, 1, y, 0);
  }

  // Comparing limb j.
  lemma EqualDown(x: int, y: int, j: nat, v1: Limb, v2: Limb)
    requires 0 <= y < x && EqualAbove(x, y, j + 1) && v1 == x / Pow(j) % B && v2 == y / Pow(j) % B
    ensures v1 >= v2 && (v1 == v2 ==> EqualAbove(x, y, j))
  {
    LimbDown(x, j);
    LimbDown(y, j);
    hide Pow;
    DivMono(y, x, Pow(j));
  }

  lemma DivMono(y: int, x: int, d: int)
    requires 0 <= y <= x && d > 0
    ensures y / d <= x / d
  {
    assert x == (x / d) * d + x % d && y == (y / d) * d + y % d;
    assert (x / d + 1) * d == (x / d) * d + d;
    MulCancelLess(y / d, x / d + 1, d);
  }

  // The first different bit, within limb j.
  lemma DifferenceAt(x: int, y: int, j: nat, v1: Limb, v2: Limb, k: nat)
    requires 0 <= y < x && EqualAbove(x, y, j + 1) && v1 == x / Pow(j) % B && v2 == y / Pow(j) % B
    requires FirstDifference(v1, v2, k) && k <= LIMB_BITS
    ensures x / Pow2(LIMB_BITS * j + k) == y / Pow2(LIMB_BITS * j + k)
    ensures x / Pow2(LIMB_BITS * j + k - 1) == y / Pow2(LIMB_BITS * j + k - 1) + 1
  {
    BitsOfLimb(x, j, v1, k);
    BitsOfLimb(y, j, v2, k);
    BitsOfLimb(x, j, v1, k - 1);
    BitsOfLimb(y, j, v2, k - 1);
  }

  lemma BitsOfLimb(x: int, j: nat, v: Limb, k: nat)
    requires x >= 0 && v == x / Pow(j) % B && k <= LIMB_BITS
    ensures x / Pow2(LIMB_BITS * j + k) == (x / Pow(j + 1)) * Pow2(LIMB_BITS - k) + v / Pow2(k)
    ensures x % Pow2(LIMB_BITS * j + k) == x % Pow(j) + Pow(j) * (v % Pow2(k))
  {
    LimbDown(x, j);
    PowPow2(j);
    Pow2Add(LIMB_BITS * j, k);
    Pow2Split(k);
    hide Pow;
    hide Pow2;
    var u := x / Pow(j);
    DivNonNeg(x, Pow(j));
    ModSplit(x, Pow(j), Pow2(k), Pow2(LIMB_BITS * j + k));
    ModMod(u, Pow2(k), Pow2(LIMB_BITS - k), B);
    TopBits(u, x / Pow(j + 1), v, Pow2(k), Pow2(LIMB_BITS - k));
  }

  lemma TopBits(u: int, top: int, v: int, p: int, q: int)
    requires u == top * B + v && p > 0 && p * q == B && v >= 0
    ensures u / p == top * q + v / p
  {
    var x := v / p;
    assert v == x * p + v % p;
    assert top * B == (top * q) * p;
    assert (top * q + x) * p == (top * q) * p + x * p;
    DivIs(u, p, top * q + x, v % p);
  }

  // The low bits of the complement are the complement of the low bits.
  lemma ComplementLow(v: Limb, k: nat)
    requires k <= LIMB_BITS
    ensures (B - 1 - v) % Pow2(k) == Pow2(k) - 1 - v % Pow2(k)
  {
    Pow2Split(k);
    hide Pow2;
    ComplementArith(v, Pow2(k), Pow2(LIMB_BITS - k));
  }

  lemma ComplementArith(v: int, p: int, q: int)
    requires p > 0 && p * q == B
    ensures (B - 1 - v) % p == p - 1 - v % p
  {
    var x, m := v / p, v % p;
    assert v == x * p + m;
    assert (q - 1 - x) * p == p * q - p - x * p;
    DivIs(B - 1 - v, p, q - 1 - x, p - 1 - m);
  }

  // ----- The common leading zeros of two remainders -----

  lemma BitLenJoin(lo: nat, h: nat, j: nat, v: nat)
    requires lo < Pow(j) && h > 0 && v == lo + Pow(j) * h
    ensures BitLen(v) == LIMB_BITS * j + BitLen(h)
  {
    var k := BitLen(h);
    assert Pow2(0) == 1;
    hide Pow2;
    hide Pow;
    hide BitLen;
    PowPow2(j);
    Pow2Add(LIMB_BITS * j, k);
    Pow2Add(LIMB_BITS * j, k - 1);
    JoinBounds(lo, h, Pow(j), v, Pow2(k - 1), Pow2(k));
    BitLenIs(v, LIMB_BITS * j + k);
  }

  lemma JoinBounds(lo: int, h: int, w: int, v: int, a: int, b: int)
    requires 0 <= lo < w && v == lo + w * h && a <= h < b
    ensures w * a <= v < w * b
  {
    MulMono(h + 1, b, w);
    MulMono(a, h, w);
    assert w * (h + 1) == w * h + w;
  }

  ghost function CommonWidth(x: nat, y: nat): int {
    Max(BitLen(x), BitLen(y))
  }

  lemma WidthJoin(lo: nat, h: nat, j: nat, x: nat)
    requires lo < Pow(j) && x == lo + Pow(j) * h
    ensures BitLen(lo) <= LIMB_BITS * j && BitLen(x) == if h == 0 then BitLen(lo) else LIMB_BITS * j + BitLen(h)
  {
    PowPow2(j);
    BitLenBound(lo, LIMB_BITS * j);
    hide Pow;
    hide Pow2;
    if h > 0 {
      BitLenJoin(lo, h, j, x);
    } else {
      assert x == lo;
    }
  }

  lemma CommonJoin(lo1: nat, lo2: nat, h1: nat, h2: nat, j: nat, x: nat, y: nat)
    requires lo1 < Pow(j) && lo2 < Pow(j) && x == lo1 + Pow(j) * h1 && y == lo2 + Pow(j) * h2
    ensures CommonWidth(x, y) == if h1 == 0 && h2 == 0 then CommonWidth(lo1, lo2)
                                 else LIMB_BITS * j + CommonWidth(h1, h2)
  {
    assert BitLen(0) == 0;
    WidthJoin(lo1, h1, j, x);
    WidthJoin(lo2, h2, j, y);
    hide BitLen;
    hide Pow;
    hide Pow2;
  }

  // What is left of the first operand and of the complement of the second below limb j.
  ghost function Rest(x: int, j: nat): nat {
    x % Pow(j)
  }

  ghost function RestComplement(y: int, j: nat): nat {
    Pow(j) - 1 - y % Pow(j)
  }

  // min(clz(v1), clz(~v2)) for a limb of the operands.
  lemma CommonLimb(x: int, y: int, j: nat, v1: Limb, v2: Limb)
    requires 0 <= x && 0 <= y && v1 == x / Pow(j) % B && v2 == y / Pow(j) % B
    ensures CommonWidth(Rest(x, j + 1), RestComplement(y, j + 1))
         == if v1 == 0 && v2 == B - 1 then CommonWidth(Rest(x, j), RestComplement(y, j))
            else LIMB_BITS * j + CommonWidth(v1, B - 1 - v2)
  {
    ModNext(x, j, v1);
    ModNext(y, j, v2);
    assert Pow(j + 1) == B * Pow(j);
    hide Pow;
    var w := Pow(j);
    assert w * (B - 1 - v2) == B * w - w - w * v2;
    CommonJoin(Rest(x, j), RestComplement(y, j), v1, B - 1 - v2, j, Rest(x, j + 1), RestComplement(y, j + 1));
  }

  // The same for the low p bits of limb j.
  lemma CommonPart(x: int, y: int, j: nat, v1: Limb, v2: Limb, p: nat)
    requires 0 <= x && 0 <= y && v1 == x / Pow(j) % B && v2 == y / Pow(j) % B && p <= LIMB_BITS
    ensures var k := LIMB_BITS * j + p; x % Pow2(k) >= 0 && Pow2(k) - 1 - y % Pow2(k) >= 0
    ensures var k := LIMB_BITS * j + p; var w1, w2: nat := v1 % Pow2(p), (B - 1 - v2) % Pow2(p);
      CommonWidth(x % Pow2(k), Pow2(k) - 1 - y % Pow2(k))
         == if w1 == 0 && w2 == 0 then CommonWidth(Rest(x, j), RestComplement(y, j))
            else LIMB_BITS * j + CommonWidth(w1, w2)
  {
    hide Pow;
    hide Pow2;
    hide CommonWidth;
    BitsOfLimb(x, j, v1, p);
    BitsOfLimb(y, j, v2, p);
    ComplementLow(v2, p);
    PowPow2(j);
    Pow2Add(LIMB_BITS * j, p);
    var k := LIMB_BITS * j + p;
    var h1, h2 := v1 % Pow2(p), v2 % Pow2(p);
    PartParts(Pow(j), Pow2(p), Pow2(k), y % Pow2(k), y % Pow(j), h2);
    CommonJoin(Rest(x, j), RestComplement(y, j), h1, Pow2(p) - 1 - h2, j, x % Pow2(k), Pow2(k) - 1 - y % Pow2(k));
  }

  lemma PartParts(w: int, q: int, u: int, y: int, lo: int, h: int)
    requires u == w * q && y == lo + w * h
    ensures u - 1 - y == (w - 1 - lo) + w * (q - 1 - h)
  {
    assert w * (q - 1 - h) == w * q - w - w * h;
  }

  // ----- The method -----

  // Above limb 0 there is nothing left to compare.
  lemma BelowLast(a: seq<Limb>, b: seq<Limb>, d: nat, tot: nat)
    requires tot >= |a| && LIMB_BITS * (tot - |b|) >= d
    ensures ALimb(a, tot, -1) == 0 && BLimb(b, tot, d, -1) == 0
  {
    hide Val;
    var pos := LIMB_BITS * (-1 - (tot - |b|)) + d;
    assert pos <= -LIMB_BITS;
    Pow2Limb();
    Pow2Add(-pos - LIMB_BITS, LIMB_BITS);
    hide Pow2;
    var e := Pow2(-pos - LIMB_BITS);
    assert Val(b) * (e * B) == (Val(b) * e) * B;
    DivIs(Val(b) * Pow2(-pos), B, Val(b) * e, 0);
  }

  lemma RestEmpty(x: int, y: int)
    ensures CommonWidth(Rest(x, 0), RestComplement(y, 0)) == 0
  {
    PowOne();
    DivIs(x, 1, x, 0);
    DivIs(y, 1, y, 0);
  }

  // The first loop and the first different bit: limb j holds it, kk bits of that limb are compared
  // from the top down to it.
  method FirstDifferent(a: seq<Limb>, b: seq<Limb>, d: nat, ghost tot: nat)
    returns (n: nat, i: int, v1: Limb, v2: Limb, p: nat)
    requires Aligned(a, b, d, tot)
    ensures var j := i + tot - |a|; 0 <= j < tot && v1 == ALimb(a, tot, j) && v2 == BLimb(b, tot, d, j)
    ensures p < LIMB_BITS && n + p == LIMB_BITS * (tot - (i + tot - |a|))
    ensures var k := LIMB_BITS * (i + tot - |a|) + p;
      k >= 0 && AValue(a, tot) / Pow2(k + 1) == BValue(b, tot, d) / Pow2(k + 1)
    ensures var k := LIMB_BITS * (i + tot - |a|) + p;
      k >= 0 && AValue(a, tot) / Pow2(k) == BValue(b, tot, d) / Pow2(k) + 1
  {
    hide AValue;
    hide BValue;
    hide Pow2;
    hide Pow;
    hide EqualAbove;
    hide ALimb;
    hide BLimb;
    hide Xor;
    hide BitLen;
    ghost var x, y := AValue(a, tot), BValue(b, tot, d);
    n, i := 0, |a| - 1;
    EqualStart(x, y, tot);
    v1, v2 := ALimbIndex(a, i), BLimbIndex(a, b, d, i);
    LimbIndex(a, b, d, tot, i);
    NotYet(x, y, i + 1 + tot - |a|);
    while v1 == v2
      invariant 0 <= i + tot - |a| < tot && n == LIMB_BITS * (|a| - 1 - i) && i <= |a| - 1
      invariant EqualAbove(x, y, i + 1 + tot - |a|)
      invariant v1 == ALimb(a, tot, i + tot - |a|) && v2 == BLimb(b, tot, d, i + tot - |a|)
      decreases i + tot - |a|
    {
      ALimbIs(a, tot, i + tot - |a|);
      BLimbIs(b, tot, d, i + tot - |a|);
      EqualDown(x, y, i + tot - |a|, v1, v2);
      NotYet(x, y, i + tot - |a|);
      n := n + LIMB_BITS;
      i := i - 1;
      v1, v2 := ALimbIndex(a, i), BLimbIndex(a, b, d, i);
      LimbIndex(a, b, d, tot, i);
    }
    ghost var j := i + tot - |a|;
    ALimbIs(a, tot, j);
    BLimbIs(b, tot, d, j);
    EqualDown(x, y, j, v1, v2);
    XorTop(v1, v2);
    XorLimb(v1, v2);
    var q := Clz(Xor(v1, v2)) + 1;
    n := n + q;
    p := LIMB_BITS - q;
    DifferenceAt(x, y, j, v1, v2, p + 1);
  }

  lemma XorLimb(v1: Limb, v2: Limb)
    requires v1 > v2
    ensures 0 < Xor(v1, v2) < B && 1 <= BitLen(Xor(v1, v2)) <= LIMB_BITS
  {
    Pow2Limb();
    hide Pow2;
    BitwiseBelow(LogicOp.XOR, v1, v2, LIMB_BITS);
    XorZero(v1, v2);
    BitLenBound(Xor(v1, v2), LIMB_BITS);
  }

  lemma NotYet(x: int, y: int, j: int)
    requires 0 <= y < x && j >= 0 && EqualAbove(x, y, j)
    ensures j > 0
  {
    if j == 0 {
      NotAllEqual(x, y);
    }
  }

  // get_limbz(a, bit_offset >> LIMB_LOG2_BITS)
  function ALimbIndex(a: seq<Limb>, i: int): Limb {
    LimbAt(a, i)
  }

  // get_bits(b->tab, b->len, bit_offset + b_offset)
  function BLimbIndex(a: seq<Limb>, b: seq<Limb>, d: nat, i: int): Limb {
    var bitOffset := LIMB_BITS * i + LIMB_BITS - 1;
    var bOffset := (|b| - |a|) * LIMB_BITS - (LIMB_BITS - 1) + d;
    GetBits(b, bitOffset + bOffset)
  }

  lemma LimbIndex(a: seq<Limb>, b: seq<Limb>, d: nat, tot: nat, i: int)
    ensures ALimbIndex(a, i) == ALimb(a, tot, i + tot - |a|) &&
            BLimbIndex(a, b, d, i) == BLimb(b, tot, d, i + tot - |a|)
  {
  }

  // The last loop of count_cancelled_bits: zeros in a against ones in b, from limb i of a down.
  method MatchingBits(a: seq<Limb>, b: seq<Limb>, d: nat, i0: int, n0: nat, ghost tot: nat) returns (n: nat)
    requires Aligned(a, b, d, tot) && -1 <= i0 + tot - |a| < tot && n0 == LIMB_BITS * (|a| - 1 - i0)
    ensures n == LIMB_BITS * tot - CommonWidth(Rest(AValue(a, tot), i0 + tot - |a| + 1),
                                               RestComplement(BValue(b, tot, d), i0 + tot - |a| + 1))
  {
    hide AValue;
    hide BValue;
    hide Pow;
    hide ALimb;
    hide BLimb;
    hide BitLen;
    hide Rest;
    hide RestComplement;

    ghost var x, y, top := AValue(a, tot), BValue(b, tot, d), i0 + tot - |a| + 1;
    var i := i0;
    n := n0;
    var v1, v2 := ALimbIndex(a, i), BLimbIndex(a, b, d, i);
    LimbIndex(a, b, d, tot, i);
    BelowLast(a, b, d, tot);
    RestEmpty(x, y);
    while v1 == 0 && v2 == B - 1
      invariant -1 <= i + tot - |a| < top && n == LIMB_BITS * (|a| - 1 - i)
      invariant v1 == ALimb(a, tot, i + tot - |a|) && v2 == BLimb(b, tot, d, i + tot - |a|)
      invariant CommonWidth(Rest(x, top), RestComplement(y, top))
                  == CommonWidth(Rest(x, i + tot - |a| + 1), RestComplement(y, i + tot - |a| + 1))
      decreases i + tot - |a|
    {
      ALimbIs(a, tot, i + tot - |a|);
      BLimbIs(b, tot, d, i + tot - |a|);
      CommonLimb(x, y, i + tot - |a|, v1, v2);
      n := n + LIMB_BITS;
      i := i - 1;
      v1, v2 := ALimbIndex(a, i), BLimbIndex(a, b, d, i);
      LimbIndex(a, b, d, tot, i);
    }
    // this limb ends the run
    if i + tot - |a| >= 0 {
      ALimbIs(a, tot, i + tot - |a|);
      BLimbIs(b, tot, d, i + tot - |a|);
      CommonLimb(x, y, i + tot - |a|, v1, v2);
    }
    AllOnesLimb();
    var p1 := if Clz(v1) <= Clz(B - 1 - v2) then Clz(v1) else Clz(B - 1 - v2);
    n := n + p1;
  }

  // count_cancelled_bits, with d the difference of the exponents
  method CountCancelledBits(a: seq<Limb>, b: seq<Limb>, d: nat, ghost tot: nat) returns (n: nat, ghost k: nat)
    requires Aligned(a, b, d, tot)
    ensures Cancelled(AValue(a, tot), BValue(b, tot, d), LIMB_BITS * tot, n, k)
  {
    hide AValue;
    hide BValue;
    hide Pow2;
    hide Pow;
    hide ALimb;
    hide BLimb;
    hide BitLen;
    ghost var x, y := AValue(a, tot), BValue(b, tot, d);
    var i: int, v1: Limb, v2: Limb, p: nat;
    n, i, v1, v2, p := FirstDifferent(a, b, d, tot);
    ghost var j := i + tot - |a|;
    k := LIMB_BITS * j + p;
    ALimbIs(a, tot, j);
    BLimbIs(b, tot, d, j);
    CommonPart(x, y, j, v1, v2, p);
    MaskedLimbs(v1, v2, p);
    if p > 0 {
      // the run may end within the bits of the same limb
      var w1: Limb, w2: Limb := v1 % Pow2(p), (B - 1 - v2) % Pow2(p);
      var p1 := (if Clz(w1) <= Clz(w2) then Clz(w1) else Clz(w2)) - (LIMB_BITS - p);
      n := n + p1;
      WidthZero(w1, w2);
      if p1 != p {
        return;
      }
    }
    n := MatchingBits(a, b, d, i - 1, n, tot);
  }

  lemma AllOnesLimb()
    ensures BitLen(B - 1) == LIMB_BITS && BitLen(0) == 0
  {
    Pow2Limb();
    AllOnesWidth(LIMB_BITS);
  }

  lemma WidthZero(w1: nat, w2: nat)
    ensures CommonWidth(w1, w2) == 0 <==> w1 == 0 && w2 == 0
  {
    assert Pow2(0) == 1;
  }

  lemma MaskedLimbs(v1: Limb, v2: Limb, p: nat)
    requires p < LIMB_BITS
    ensures 0 <= v1 % Pow2(p) < B && 0 <= (B - 1 - v2) % Pow2(p) < B
    ensures BitLen(v1 % Pow2(p)) <= p && BitLen((B - 1 - v2) % Pow2(p)) <= p
    ensures p == 0 ==> v1 % Pow2(p) == 0 && (B - 1 - v2) % Pow2(p) == 0
  {
    BitTop(p);
    assert Pow2(0) == 1;
    hide Pow2;
    BitLenBound(v1 % Pow2(p), p);
    BitLenBound((B - 1 - v2) % Pow2(p), p);
  }

  // ----- Comparison of absolute values -----

  // bf_cmpu: the sign of |a| - |b|
  method Cmpu(a: Num, b: Num) returns (res: int)
    ensures a.expn != b.expn ==> res == if a.expn < b.expn then -1 else 1
    ensures a.expn == b.expn ==> var len := Max(|a.tab|, |b.tab|); var x, y := AValue(a.tab, len), AValue(b.tab, len);
      res == if x < y then -1 else if x > y then 1 else 0
  {
    if a.expn != b.expn {
      return if a.expn < b.expn then -1 else 1;
    }
    var len := Max(|a.tab|, |b.tab|);
    hide AValue;
    hide Pow;
    hide ALimb;
    hide EqualAbove;
    ghost var x, y := AValue(a.tab, len), AValue(b.tab, len);
    ValueRange(a.tab, len);
    ValueRange(b.tab, len);
    BothTop(x, y, len);
    var i := len - 1;
    while i >= 0
      invariant -1 <= i < len && EqualAbove(x, y, i + 1)
    {
      var v1, v2 := LimbAt(a.tab, |a.tab| - len + i), LimbAt(b.tab, |b.tab| - len + i);
      assert v1 == ALimb(a.tab, len, i) && v2 == ALimb(b.tab, len, i) by {
        IndexIs(a.tab, len, i);
        IndexIs(b.tab, len, i);
      }
      ALimbIs(a.tab, len, i);
      ALimbIs(b.tab, len, i);
      Decide(x, y, i, v1, v2);
      if v1 != v2 {
        return if v1 < v2 then -1 else 1;
      }
      i := i - 1;
    }
    NotAllEqual(x, y);
    return 0;
  }

  lemma IndexIs(a: seq<Limb>, tot: nat, j: int)
    ensures ALimb(a, tot, j) == LimbAt(a, |a| - tot + j)
  {
  }

  lemma ValueRange(a: seq<Limb>, tot: nat)
    requires tot >= |a|
    ensures 0 <= AValue(a, tot) < Pow(tot)
  {
    hide Val;
    ValBound(a);
    PowPow2(tot - |a|);
    PowAdd(|a|, tot - |a|);
    hide Pow2;
    hide Pow;
    MulStrict(Val(a), Pow(|a|), Pow(tot - |a|));
    MulPos(Val(a), Pow(tot - |a|));
  }

  lemma BothTop(x: int, y: int, tot: nat)
    requires 0 <= x < Pow(tot) && 0 <= y < Pow(tot)
    ensures EqualAbove(x, y, tot)
  {
    DivZero(x, Pow(tot));
    DivZero(y, Pow(tot));
  }

  // The first different limb decides.
  lemma Decide(x: int, y: int, j: nat, v1: Limb, v2: Limb)
    requires 0 <= x && 0 <= y && EqualAbove(x, y, j + 1) && v1 == x / Pow(j) % B && v2 == y / Pow(j) % B
    ensures (v1 == v2 ==> EqualAbove(x, y, j)) && (v1 < v2 ==> x < y) && (v1 > v2 ==> x > y)
  {
    LimbDown(x, j);
    LimbDown(y, j);
    hide Pow;
    if x <= y {
      DivMono(x, y, Pow(j));
    } else {
      DivMono(y, x, Pow(j));
    }
  }
}
