// Modular arithmetic with precomputed quotients, as the number theoretic transform of
// quickjs/libbf.c uses it: products are reduced lazily, to [0, m) or only to [0, 2 * m).

module NttArith {
  import opened Limbs

  const NTT_MOD_LOG2_MIN: int := 61
  const MOD_MIN: int := 0x2000_0000_0000_0000
  const MOD_MAX: int := 0x4000_0000_0000_0000
  // 2^(LIMB_BITS + NTT_MOD_LOG2_MIN)
  const WIDE: int := 0x2000_0000_0000_0000 * B

  // A modulus of the transform: above 2^61, so that 2^125 / m is a limb.
  predicate Modulus(m: int) {
    MOD_MIN < m < MOD_MAX
  }

  // ----- Congruence -----

  ghost predicate Cong(a: int, b: int, m: int)
    requires m > 0
  {
    (a - b) % m == 0
  }

  lemma CongBy(a: int, b: int, m: int, k: int)
    requires m > 0 && a == b + k * m
    ensures Cong(a, b, m)
  {
    DivUnique(m, k, 0, (a - b) / m, (a - b) % m);
  }

  lemma CongWitness(a: int, b: int, m: int) returns (k: int)
    requires m > 0 && Cong(a, b, m)
    ensures a == b + k * m
  {
    k := (a - b) / m;
  }

  lemma CongSelf(a: int, m: int)
    requires m > 0
    ensures Cong(a, a, m)
  {
    CongBy(a, a, m, 0);
  }

  lemma CongSym(a: int, b: int, m: int)
    requires m > 0 && Cong(a, b, m)
    ensures Cong(b, a, m)
  {
    var k := CongWitness(a, b, m);
    assert (-k) * m == -(k * m);
    CongBy(b, a, m, -k);
  }

  lemma CongTrans(a: int, b: int, c: int, m: int)
    requires m > 0 && Cong(a, b, m) && Cong(b, c, m)
    ensures Cong(a, c, m)
  {
    var k := CongWitness(a, b, m);
    var l := CongWitness(b, c, m);
    assert (k + l) * m == k * m + l * m;
    CongBy(a, c, m, k + l);
  }

  lemma CongAdd(a: int, b: int, c: int, d: int, m: int)
    requires m > 0 && Cong(a, b, m) && Cong(c, d, m)
    ensures Cong(a + c, b + d, m) && Cong(a - c, b - d, m)
  {
    var k := CongWitness(a, b, m);
    var l := CongWitness(c, d, m);
    assert (k + l) * m == k * m + l * m && (k - l) * m == k * m - l * m;
    CongBy(a + c, b + d, m, k + l);
    CongBy(a - c, b - d, m, k - l);
  }

  lemma CongMul(a: int, b: int, c: int, d: int, m: int)
    requires m > 0 && Cong(a, b, m) && Cong(c, d, m)
    ensures Cong(a * c, b * d, m)
  {
    var k := CongWitness(a, b, m);
    var l := CongWitness(c, d, m);
    ProductShift(b, d, k, l, m);
    CongBy(a * c, b * d, m, b * l + k * d + k * l * m);
  }

  lemma ProductShift(b: int, d: int, k: int, l: int, m: int)
    ensures (b + k * m) * (d + l * m) == b * d + (b * l + k * d + k * l * m) * m
  {
    assert b * (l * m) == (b * l) * m && (k * m) * d == (k * d) * m && (k * m) * (l * m) == (k * l * m) * m;
  }

  // Reducing modulo m.
  lemma CongMod(a: int, m: int)
    requires m > 0
    ensures Cong(a % m, a, m) && 0 <= a % m < m
  {
    assert a == (a / m) * m + a % m;
    assert (-(a / m)) * m == -((a / m) * m);
    CongBy(a % m, a, m, -(a / m));
  }

  lemma CongUnique(a: int, b: int, m: int)
    requires m > 0 && Cong(a, b, m) && 0 <= a < m && 0 <= b < m
    ensures a == b
  {
    var k := CongWitness(a, b, m);
    DivUnique(m, 0, a, k, b);
  }

  // ----- Sums -----

  // add_mod, for a modulus of up to 63 bits
  function AddMod(a: Limb, b: Limb, m: Limb): (r: Limb)
    requires a < m && b < m && m <= HALF
    ensures r < m && (r == a + b || r == a + b - m)
  {
    var r := Wrap(a + b);
    if r >= m then r - m else r
  }

  // sub_mod
  function SubMod(a: Limb, b: Limb, m: Limb): (r: Limb)
    requires a < m && b < m
    ensures r < m && (r == a - b || r == a - b + m)
  {
    var r := Wrap(a - b);
    if r > a then Wrap(r + m) else r
  }

  // ----- Products with a constant multiplier -----

  // init_mul_mod_fast2
  function InitMulModFast2(b: Limb, m: Limb): (bInv: Limb)
    requires b < m
    ensures bInv == (b * B) / m
  {
    ScaledBelow(b, m);
    (b * B) / m
  }

  lemma ScaledBelow(b: int, m: int)
    requires 0 <= b < m
    ensures 0 <= (b * B) / m < B && (b * B) == ((b * B) / m) * m + (b * B) % m && 0 <= (b * B) % m < m
  {
    MulStrict(b, m, B);
    MulCancelLess((b * B) / m, B, m);
    MulCancelLess(-1, (b * B) / m, m);
  }

  // The product less q * m is in [0, 2 * m).
  lemma Fast3Arith(a: int, b: int, m: int, bInv: int, e: int, q: int, f: int)
    requires b * B == bInv * m + e && 0 <= e < m && a * bInv == q * B + f && 0 <= f < B && 0 <= a < B
    ensures 0 <= a * b - q * m < 2 * m
  {
    var r := a * b - q * m;
    assert B * r == a * e + f * m by {
      assert a * (b * B) == a * (bInv * m) + a * e;
      assert a * (bInv * m) == (a * bInv) * m;
      assert (q * B + f) * m == B * (q * m) + f * m;
    }
    MulPos(a, e);
    MulPos(f, m);
    MulMono(a, B, e);
    MulMono(f, B - 1, m);
  }

  // mul_mod_fast3: a * b modulo m, up to one m too large.
  function MulModFast3(a: Limb, b: Limb, m: Limb, bInv: Limb): (r: Limb)
    requires Modulus(m) && b < m && bInv == (b * B) / m
    ensures r < 2 * m && Cong(r, a * b, m)
  {
    ScaledBelow(b, m);
    var q := a as int * bInv / B;
    Fast3Arith(a, b, m, bInv, (b * B) % m, q, a as int * bInv % B);
    Fast3Cong(a, b, m, q);
    Wrap(a as int * b - q * m)
  }

  lemma Fast3Cong(a: int, b: int, m: int, q: int)
    requires m > 0
    ensures Cong(a * b - q * m, a * b, m)
  {
    assert (-q) * m == -(q * m);
    CongBy(a * b - q * m, a * b, m, -q);
  }

  // mul_mod_fast2: a * b modulo m.
  function MulModFast2(a: Limb, b: Limb, m: Limb, bInv: Limb): (r: Limb)
    requires Modulus(m) && b < m && bInv == (b * B) / m
    ensures r < m && Cong(r, a * b, m)
  {
    var r := MulModFast3(a, b, m, bInv);
    LessOne(r, a as int * b, m);
    if r >= m then r - m else r
  }

  lemma LessOne(r: int, x: int, m: int)
    requires m > 0 && Cong(r, x, m)
    ensures Cong(r - m, x, m)
  {
    var k := CongWitness(r, x, m);
    assert (k - 1) * m == k * m - m;
    CongBy(r - m, x, m, k - 1);
  }

  // ----- Reduction of double limbs -----

  // init_mul_mod_fast: the last multiple of m up to 2^125
  function InitMulModFast(m: Limb): (mInv: Limb)
    requires Modulus(m)
    ensures mInv as int * m <= WIDE < (mInv as int + 1) * m
  {
    InverseRange(m);
    WIDE / m
  }

  lemma InverseRange(m: int)
    requires Modulus(m)
    ensures 0 <= WIDE / m < B && WIDE == (WIDE / m) * m + WIDE % m && 0 <= WIDE % m < m
  {
    var q := WIDE / m;
    assert WIDE == q * m + WIDE % m;
    MulStrict(MOD_MIN, m, B);
    MulCancelLess(q, B, m);
    MulCancelLess(-1, q, m);
  }

  // The assertion in the source also admits 2^61, the one modulus whose quotient is not a limb.
  lemma InverseFitsIff(m: int)
    requires MOD_MIN <= m < MOD_MAX
    ensures WIDE / m < B <==> Modulus(m)
  {
    if m > MOD_MIN {
      InverseRange(m);
    } else {
      assert WIDE / MOD_MIN == B;
    }
  }

  // The quotient estimate of mod_fast is at most 3 too small.
  lemma QuotientEstimate(r: int, m: int, v: int, e: int, a1: int, l: int, q: int, f: int)
    requires Modulus(m) && v * m == WIDE - e && 0 <= e < m
    requires r == a1 * MOD_MIN + l && 0 <= l < MOD_MIN && 0 <= a1 < B && a1 * v == q * B + f && 0 <= f < B
    ensures 0 <= r - q * m < 3 * m
  {
    // B * (r - q * m) = B * l + a1 * e + f * m
    assert a1 * (v * m) == (a1 * v) * m;
    assert a1 * (WIDE - e) == a1 * WIDE - a1 * e;
    assert a1 * WIDE == B * (a1 * MOD_MIN);
    assert (q * B + f) * m == B * (q * m) + f * m;
    var x := r - q * m;
    assert B * x == B * l + a1 * e + f * m;
    MulPos(a1, e);
    MulPos(f, m);
    MulMono(a1, B, e);
    MulMono(f, B - 1, m);
  }

  // m & t, where t is the sign of x spread over the limb.
  function AddIfNegative(x: int, m: int): int {
    if x < 0 then x + m else x
  }

  // mod_fast: r mod m for 0 <= r < 2^125. The two masked additions of the source act on the sign
  // of the 128-bit difference, which never leaves [-2 * m, m).
  function ModFast(r: int, m: Limb, mInv: Limb): (x: Limb)
    requires Modulus(m) && mInv == WIDE / m && 0 <= r < WIDE
    ensures x < m && Cong(x, r, m)
  {
    var a1 := r / MOD_MIN;
    var q := a1 * mInv / B;
    InverseRange(m);
    QuotientEstimate(r, m, mInv, WIDE % m, a1, r % MOD_MIN, q, a1 * mInv % B);
    ModFastCong(r, m, q);
    AddIfNegative(AddIfNegative(r - q * m - 2 * m, m), m)
  }

  lemma ModFastCong(r: int, m: int, q: int)
    requires m > 0
    ensures Cong(r - q * m, r, m) && Cong(r - q * m - m, r, m) && Cong(r - q * m - 2 * m, r, m)
  {
    assert (-q) * m == -(q * m) && (-q - 1) * m == -(q * m) - m && (-q - 2) * m == -(q * m) - 2 * m;
    CongBy(r - q * m, r, m, -q);
    CongBy(r - q * m - m, r, m, -q - 1);
    CongBy(r - q * m - 2 * m, r, m, -q - 2);
  }

  // mul_mod_fast
  function MulModFast(a: Limb, b: Limb, m: Limb, mInv: Limb): (x: Limb)
    requires Modulus(m) && mInv == WIDE / m && a as int * b < WIDE
    ensures x < m && Cong(x, a * b, m)
  {
    MulPos(a, b);
    ModFast(a as int * b, m, mInv)
  }

  lemma ProductRange(a: int, b: int, m: int)
    requires Modulus(m) && 0 <= a < m && 0 <= b < 2 * m
    ensures 0 <= a * b < WIDE
  {
    MulMono(a, m, b);
    MulMono(b, 2 * m, m);
    MulMono(m, 0x4000_0000_0000_0000, 2 * m);
    MulMono(0, a, b);
    assert m * b == b * m;
  }
}
