// Square root with remainder in quickjs/libbf.c: a table for 8 bits, then Karatsuba steps for 16,
// 32, 64 and finally any number of limbs.

module LimbSqrt {
  import opened Limbs
  import opened LimbOps
  import opened LimbDiv
  import opened LimbRecip
  import opened LimbDivLarge

  const QUARTER: int := 0x4000_0000_0000_0000

  // s is the integer square root of a and r what remains.
  ghost predicate Root(a: int, s: int, r: int) {
    0 <= s && s * s + r == a && 0 <= r <= 2 * s
  }

  // That is, s is the floor of the square root.
  lemma RootIsFloor(a: int, s: int, r: int)
    requires Root(a, s, r)
    ensures s * s <= a < (s + 1) * (s + 1)
  {
    assert (s + 1) * (s + 1) == s * s + 2 * s + 1;
  }

  // ----- One Karatsuba step, for any digit size beta -----

  // a = a1 * beta^2 + c1 * beta + c0 has the root estimate s1 * beta + q.
  lemma KaratsubaIdentity(a1: int, s1: int, r1: int, beta: int, c1: int, c0: int, q: int, u: int)
    requires s1 * s1 + r1 == a1 && r1 * beta + c1 == q * (2 * s1) + u
    ensures (s1 * beta + q) * (s1 * beta + q) + (u * beta + c0 - q * q) == a1 * (beta * beta) + c1 * beta + c0
  {
    assert (s1 * beta + q) * (s1 * beta + q) == (s1 * s1) * (beta * beta) + (q * (2 * s1)) * beta + q * q by {
      assert (s1 * beta) * (s1 * beta) == (s1 * s1) * (beta * beta);
      assert 2 * ((s1 * beta) * q) == (q * (2 * s1)) * beta;
    }
    assert (r1 * beta + c1 - u) * beta == r1 * (beta * beta) + c1 * beta - u * beta;
    assert (q * (2 * s1)) * beta == (r1 * beta + c1 - u) * beta;
    assert (s1 * s1 + r1) * (beta * beta) == (s1 * s1) * (beta * beta) + r1 * (beta * beta);
  }

  lemma QuotientRange(s1: int, r1: int, beta: int, c1: int, q: int, u: int)
    requires 0 <= r1 <= 2 * s1 && 0 < beta <= 2 * s1 && 0 <= c1 < beta
    requires r1 * beta + c1 == q * (2 * s1) + u && 0 <= u < 2 * s1
    ensures 0 <= q <= beta
  {
    MulPos(r1, beta);
    MulMono(r1, 2 * s1, beta);
    assert (q + 1) * (2 * s1) == q * (2 * s1) + 2 * s1;
    MulCancelLess(0, q + 1, 2 * s1);
    assert (beta + 1) * (2 * s1) == (2 * s1) * beta + 2 * s1;
    MulCancelLess(q, beta + 1, 2 * s1);
  }

  // w stands for s1 * beta, v for u * beta.
  lemma RemainderRange(w: int, v: int, beta: int, c0: int, q: int, square: int)
    requires 0 <= v <= 2 * w - beta && 0 <= c0 < beta && 0 <= q && 0 <= square
    requires square <= 2 * w && (q == 0 ==> square == 0)
    ensures var s, r := w + q, v + c0 - square; r <= 2 * s && (r < 0 ==> 0 <= r + 2 * s - 1)
  {
  }

  // The estimate is the root or one above it.
  lemma KaratsubaBounds(s1: int, r1: int, beta: int, c1: int, c0: int, q: int, u: int)
    requires 0 <= r1 <= 2 * s1 && 0 < beta <= 2 * s1 && 0 <= c1 < beta && 0 <= c0 < beta
    requires r1 * beta + c1 == q * (2 * s1) + u && 0 <= u < 2 * s1
    ensures 0 <= q <= beta
    ensures var s, r := s1 * beta + q, u * beta + c0 - q * q;
      && r <= 2 * s
      && (r < 0 ==> 0 <= r + 2 * s - 1)
  {
    QuotientRange(s1, r1, beta, c1, q, u);
    RestRange(u, s1, beta);
    SquareRange(q, beta, s1);
    RemainderRange(s1 * beta, u * beta, beta, c0, q, q * q);
  }

  lemma RestRange(u: int, s1: int, beta: int)
    requires 0 <= u < 2 * s1 && 0 < beta
    ensures 0 <= u * beta <= 2 * (s1 * beta) - beta
  {
    MulMono(u + 1, 2 * s1, beta);
    MulPos(u, beta);
    assert (u + 1) * beta == u * beta + beta && (2 * s1) * beta == 2 * (s1 * beta);
  }

  lemma SquareRange(q: int, beta: int, s1: int)
    requires 0 <= q <= beta <= 2 * s1
    ensures 0 <= q * q <= 2 * (s1 * beta) && (q == 0 ==> q * q == 0)
  {
    MulPos(q, q);
    MulMono(q, beta, q);
    MulMono(q, beta, beta);
    MulMono(beta, 2 * s1, beta);
    assert (2 * s1) * beta == 2 * (s1 * beta);
  }

  lemma KaratsubaStep(a1: int, s1: int, r1: int, beta: int, c1: int, c0: int, q: int, u: int)
    requires Root(a1, s1, r1) && 0 < beta <= 2 * s1 && 0 <= c1 < beta && 0 <= c0 < beta
    requires r1 * beta + c1 == q * (2 * s1) + u && 0 <= u < 2 * s1
    ensures 0 <= q <= beta && 0 <= s1
    ensures var a, s, r := a1 * (beta * beta) + c1 * beta + c0, s1 * beta + q, u * beta + c0 - q * q;
      && (r >= 0 ==> Root(a, s, r))
      && (r < 0 ==> Root(a, s - 1, r + 2 * (s - 1) + 1))
  {
    KaratsubaIdentity(a1, s1, r1, beta, c1, c0, q, u);
    KaratsubaBounds(s1, r1, beta, c1, c0, q, u);
    var s := s1 * beta + q;
    MulPos(s1, beta);
    assert (s - 1) * (s - 1) == s * s - 2 * s + 1;
    if s == 0 {
      assert u * beta + c0 - q * q <= 0;
    }
  }

  // A normalized number has a normalized root.
  lemma RootNormalized(a: int, s: int, r: int, half: int)
    requires Root(a, s, r) && half * half <= a && 0 <= half
    ensures s >= half
  {
    RootIsFloor(a, s, r);
    SquareLess(half, s + 1);
  }

  lemma SquareLess(a: int, b: int)
    requires a * a < b * b && 0 <= b
    ensures a < b
  {
    if 0 <= a {
      MulMono(a, a, a);
      if b <= a {
        MulMono(b, a, b);
        MulMono(b, a, a);
      }
    }
  }

  // A root of a number below limit^2 is below limit.
  lemma RootBelow(a: int, s: int, r: int, limit: int)
    requires Root(a, s, r) && a < limit * limit && 0 <= limit
    ensures s < limit
  {
    SquareLess(s, limit);
  }

  // ----- The table -----

  // The entry for the high byte i is the floor of the root of 256 * i.
  predicate EntryOk(s: int, i: int) {
    128 <= s <= 255 && s * s <= 256 * i < (s + 1) * (s + 1)
  }

  predicate RowOk(row: seq<int>, base: int) {
    |row| == 16 && forall k :: 0 <= k < 16 ==> EntryOk(row[k], base + k)
  }

  // The rows of sqrt_table, 16 entries each.
  function SqrtRows0(j: int): (row: seq<int>)
    requires 0 <= j < 2
    ensures RowOk(row, 16 * (j + 4))
  {
    if j == 0 then [128, 128, 129, 130, 131, 132, 133, 134, 135, 136, 137, 138, 139, 140, 141, 142]
    else [143, 144, 144, 145, 146, 147, 148, 149, 150, 150, 151, 152, 153, 154, 155, 155]
  }

  function SqrtRows2(j: int): (row: seq<int>)
    requires 2 <= j < 4
    ensures RowOk(row, 16 * (j + 4))
  {
    if j == 2 then [156, 157, 158, 159, 160, 160, 161, 162, 163, 163, 164, 165, 166, 167, 167, 168]
    else [169, 170, 170, 171, 172, 173, 173, 174, 175, 176, 176, 177, 178, 178, 179, 180]
  }

  function SqrtRows4(j: int): (row: seq<int>)
    requires 4 <= j < 6
    ensures RowOk(row, 16 * (j + 4))
  {
    if j == 4 then [181, 181, 182, 183, 183, 184, 185, 185, 186, 187, 187, 188, 189, 189, 190, 191]
    else [192, 192, 193, 193, 194, 195, 195, 196, 197, 197, 198, 199, 199, 200, 201, 201]
  }

  function SqrtRows6(j: int): (row: seq<int>)
    requires 6 <= j < 8
    ensures RowOk(row, 16 * (j + 4))
  {
    if j == 6 then [202, 203, 203, 204, 204, 205, 206, 206, 207, 208, 208, 209, 209, 210, 211, 211]
    else [212, 212, 213, 214, 214, 215, 215, 216, 217, 217, 218, 218, 219, 219, 220, 221]
  }

  function SqrtRows8(j: int): (row: seq<int>)
    requires 8 <= j < 10
    ensures RowOk(row, 16 * (j + 4))
  {
    if j == 8 then [221, 222, 222, 223, 224, 224, 225, 225, 226, 226, 227, 227, 228, 229, 229, 230]
    else [230, 231, 231, 232, 232, 233, 234, 234, 235, 235, 236, 236, 237, 237, 238, 238]
  }

  function SqrtRows10(j: int): (row: seq<int>)
    requires 10 <= j < 12
    ensures RowOk(row, 16 * (j + 4))
  {
    if j == 10 then [239, 240, 240, 241, 241, 242, 242, 243, 243, 244, 244, 245, 245, 246, 246, 247]
    else [247, 248, 248, 249, 249, 250, 250, 251, 251, 252, 252, 253, 253, 254, 254, 255]
  }

  // sqrt_table[i]
  function SqrtTable(i: int): (s: int)
    requires 0 <= i < 192
    ensures EntryOk(s, i + 64)
  {
    var j := i / 16;
    var row :=
      if j < 2 then SqrtRows0(j) else if j < 4 then SqrtRows2(j) else if j < 6 then SqrtRows4(j)
      else if j < 8 then SqrtRows6(j) else if j < 10 then SqrtRows8(j) else SqrtRows10(j);
    row[i % 16]
  }

  // ----- One and two limbs -----

  // A limb read as a signed number is negative.
  predicate Negative(r: Limb) {
    r >= HALF
  }

  // Small signed numbers survive wrapping.
  lemma SmallSigned(x: int, y: int)
    requires -HALF <= x < HALF && 0 <= y && 0 <= x + y < B
    ensures Negative(Wrap(x)) <==> x < 0
    ensures x >= 0 ==> Wrap(x) == x
    ensures Wrap(Wrap(x) as int + y) == x + y
  {
  }

  // For the numbers with that high byte this is the root, or one less.
  lemma TableStep(a16: int, s1: int)
    requires 0 <= a16 && EntryOk(s1, a16 / 0x100)
    ensures var r1 := a16 - s1 * s1;
      0 <= r1 < 0x1_0000 && if r1 > 2 * s1 then Root(a16, s1 + 1, r1 - (2 * s1 + 1)) else Root(a16, s1, r1)
  {
    assert (s1 + 2) * (s1 + 2) == s1 * s1 + 4 * s1 + 4;
    assert (s1 + 1) * (s1 + 1) == s1 * s1 + 2 * s1 + 1;
  }

  // From the 16 high bits by way of the table.
  method SqrtByTable(a16: Limb) returns (s1: Limb, r1: Limb)
    requires 0x4000 <= a16 < 0x1_0000
    ensures Root(a16, s1, r1) && 128 <= s1 < 0x100
  {
    hide Root;
    s1 := SqrtTable(a16 / 0x100 - 64);
    TableStep(a16, s1);
    var r: int := a16 - s1 * s1;
    if r > 2 * s1 {
      r := r - (2 * s1 + 1);
      s1 := s1 + 1;
    }
    r1 := r;
    RootBelow(a16, s1, r1, 0x100);
  }

  lemma StepFits(s1: int, r1: int, beta: int, c1: int, c0: int)
    requires 0 <= r1 <= 2 * s1 && 0 < beta <= 2 * s1 && beta <= 0x1_0000_0000 && s1 < 0x1_0000_0000
    requires 0 <= c1 < beta && 0 <= c0 < beta
    ensures var num := r1 * beta + c1;
      var q, u := num / (2 * s1), num % (2 * s1);
      && 0 <= num < B * B && num == q * (2 * s1) + u && 0 <= u < 2 * s1 && 0 <= q <= beta
      && 0 <= u * beta + c0 < 2 * B && 0 <= q * q <= beta * beta && 0 <= s1 * beta + q <= B
  {
    var num := r1 * beta + c1;
    var q, u := num / (2 * s1), num % (2 * s1);
    DivMod(num, 2 * s1);
    QuotientRange(s1, r1, beta, c1, q, u);
    ProductBelow(r1, 2 * s1, beta);
    ProductBelow(u, 2 * s1, beta);
    ProductBelow(s1, 0xFFFF_FFFF, beta);
    ProductBelow(q, beta, q);
    ProductBelow(q, beta, beta);
  }

  lemma DivMod(a: int, d: int)
    requires d > 0
    ensures a == (a / d) * d + a % d && 0 <= a % d < d
  {
  }

  lemma ProductBelow(x: int, y: int, beta: int)
    requires 0 <= x <= y && 0 <= beta
    ensures 0 <= x * beta <= y * beta && (beta <= 0x1_0000_0000 ==> y * beta <= y * 0x1_0000_0000)
  {
    MulPos(x, beta);
    MulMono(x, y, beta);
    if beta <= 0x1_0000_0000 {
      MulMono(beta, 0x1_0000_0000, y);
    }
  }

  // One iteration of mp_sqrtrem1.
  method SqrtIterate(s1: Limb, r1: Limb, beta: Limb, c1: Limb, c0: Limb, ghost a1: int) returns (s: Limb, r: Limb)
    requires Root(a1, s1, r1) && 0 < beta <= 2 * (s1 as int) && beta <= 0x1_0000 && s1 < 0x1_0000 && c1 < beta &&
             c0 < beta
    ensures Root(a1 * (beta * beta) + c1 * beta + c0, s, r)
  {
    StepFits(s1, r1, beta, c1, c0);
    var num: int := r1 * beta + c1;
    var q: int, u: int := num / (2 * s1), num % (2 * s1);
    SmallStep(s1, beta, q, u, c0);
    KaratsubaStep(a1, s1, r1, beta, c1, c0, q, u);
    hide Root;
    ghost var a := a1 * (beta * beta) + c1 * beta + c0;
    s := s1 * beta + q;
    var d: int := u * beta + c0 - q * q;
    r := Wrap(d);
    SmallSigned(d, if d < 0 then 2 * (s - 1) + 1 else 0);
    if Negative(r) {
      s := s - 1;
      r := Wrap(r as int + (2 * s + 1));
    }
  }

  lemma SmallStep(s1: int, beta: int, q: int, u: int, c0: int)
    requires 0 <= q <= beta <= 0x1_0000 && 0 <= s1 < 0x1_0000 && 0 <= u < 2 * s1 && 0 <= c0 < beta
    ensures 0 <= q * q <= 0x1_0000_0000 && 0 <= u * beta + c0 < 0x2_0000_0000
    ensures 0 <= s1 * beta + q <= 0x1_0000_0000 && (q > 0 ==> s1 * beta + q > 0)
  {
    MulMono(q, 0x1_0000, q);
    MulPos(q, q);
    MulPos(u, beta);
    MulPos(s1, beta);
    MulMono(u, 0x1_FFFE, beta);
    MulMono(s1, 0xFFFF, beta);
  }

  // The digits that the shifts and masks of mp_sqrtrem1 pick out.
  lemma Bytes(a: Limb)
    ensures var x := a / 0x1_0000_0000;
      && a / 0x1_0000_0000_0000 == x / 0x1_0000
      && x == (x / 0x1_0000) * 0x1_0000 + (a / 0x100_0000_0000) % 0x100 * 0x100 + x % 0x100
      && a == x * 0x1_0000_0000 + (a / 0x1_0000) % 0x1_0000 * 0x1_0000 + a % 0x1_0000
  {
    var x := a / 0x1_0000_0000;
    DivDiv(a, 0x1_0000_0000, 0x100);
    DivDiv(a, 0x1_0000_0000, 0x1_0000);
    DivDiv(a, 0x1_0000, 0x1_0000);
    DivDiv(x, 0x100, 0x100);
    TwoDigits(x, 0x100);
    TwoDigits(a, 0x1_0000);
  }

  // The two low digits of a number.
  lemma TwoDigits(a: int, d: int)
    requires d > 0
    ensures a == ((a / d) / d) * (d * d) + (a / d) % d * d + a % d
  {
    assert a == (a / d) * d + a % d;
    assert a / d == ((a / d) / d) * d + (a / d) % d;
    assert (((a / d) / d) * d) * d == ((a / d) / d) * (d * d);
    assert (((a / d) / d) * d + (a / d) % d) * d == (((a / d) / d) * d) * d + (a / d) % d * d;
  }

  lemma DivDiv(a: int, d: int, e: int)
    requires d > 0 && e > 0
    ensures d * e > 0 && a / (d * e) == (a / d) / e
  {
    MulStrict(0, d, e);
    var x, y := a / d, (a / d) / e;
    assert a == x * d + a % d && x == y * e + x % e;
    MulMono(x % e, e - 1, d);
    MulPos(x % e, d);
    assert (e - 1) * d == d * e - d;
    assert (y * e + x % e) * d == y * (d * e) + (x % e) * d;
    DivIs(a, d * e, y, (x % e) * d + a % d);
  }

  // mp_sqrtrem1
  method MpSqrtrem1(a: Limb) returns (s: Limb, r: Limb)
    requires a >= QUARTER
    ensures Root(a, s, r) && 0x8000_0000 <= s < 0x1_0000_0000
  {
    hide Root;
    Bytes(a);
    var s1, r1 := SqrtByTable(a / 0x1_0000_0000_0000);
    s, r := SqrtIterate(s1, r1, 0x100, (a / 0x100_0000_0000) % 0x100, (a / 0x1_0000_0000) % 0x100,
                        a / 0x1_0000_0000_0000);
    ghost var x := a / 0x1_0000_0000;
    RootNormalized(x, s, r, 0x8000);
    RootBelow(x, s, r, 0x1_0000);
    s1 := s;
    r1 := r;
    s, r := SqrtIterate(s1, r1, 0x1_0000, (a / 0x1_0000) % 0x1_0000, a % 0x1_0000, x);
    RootNormalized(a, s, r, 0x8000_0000);
    RootBelow(a, s, r, 0x1_0000_0000);
  }

  // A difference above -B, in double-limb arithmetic: its sign, and its value once y is added.
  lemma DoubleSigned(x: int, y: int)
    requires -B <= x < B * HALF && 0 <= y && 0 <= x + y < B * B
    ensures Negative(WrapTwice(x) / B) <==> x < 0
    ensures x >= 0 ==> WrapTwice(x) == x
    ensures WrapTwice(WrapTwice(x) + y) == x + y
  {
    if x < 0 {
      assert WrapTwice(x) == x + B * B;
      assert WrapTwice(x) + y == (x + y) + B * B;
    }
  }

  lemma RootFacts(a: int, s: int, r: int)
    requires Root(a, s, r)
    ensures 0 <= s && 0 <= r <= 2 * s
  {
  }

  // The step for beta = 2^32, with every intermediate result in its range.
  lemma TwoLimbStep(a1: int, s1: int, r1: int, c1: int, c0: int, q: int, u: int)
    requires 0 <= a1 < B && Root(a1, s1, r1) && 0x8000_0000 <= s1 < 0x1_0000_0000
    requires 0 <= c1 < 0x1_0000_0000 && 0 <= c0 < 0x1_0000_0000
    requires q == (r1 * 0x1_0000_0000 + c1) / (2 * s1) && u == (r1 * 0x1_0000_0000 + c1) % (2 * s1)
    ensures 0 <= q <= 0x1_0000_0000 && 0 <= u < B
    ensures var s, d := s1 * 0x1_0000_0000 + q, u * 0x1_0000_0000 + c0 - q * q;
      var a := a1 * B + c1 * 0x1_0000_0000 + c0;
      && -B <= d < B * HALF && 0 <= s <= B
      && (d >= 0 ==> s < B && Root(a, s, d))
      && (d < 0 ==> 0 < s && Root(a, s - 1, d + 2 * (s - 1) + 1) && d + 2 * (s - 1) + 1 < 2 * B)
  {
    RootFacts(a1, s1, r1);
    StepFits(s1, r1, 0x1_0000_0000, c1, c0);
    KaratsubaStep(a1, s1, r1, 0x1_0000_0000, c1, c0, q, u);
    hide Root;
    var s, d := s1 * 0x1_0000_0000 + q, u * 0x1_0000_0000 + c0 - q * q;
    var a := a1 * B + c1 * 0x1_0000_0000 + c0;
    if d >= 0 {
      RootBelow(a, s, d, B);
    } else {
      var r := d + 2 * (s - 1) + 1;
      RootBelow(a, s - 1, r, B);
      RootFacts(a, s - 1, r);
    }
  }

  lemma SquareHigh(q: int)
    requires 0 <= q <= 0x1_0000_0000
    ensures q / 0x1_0000_0000 != 0 ==> q * q == B
  {
  }

  // mp_sqrtrem2: the root of two limbs; the remainder has two limbs, the high one returned.
  method MpSqrtrem2(tabs: array<Limb>, so: nat, taba: array<Limb>, ao: nat) returns (rh: Limb)
    requires tabs != taba && so < tabs.Length && ao + 2 <= taba.Length && taba[ao + 1] >= QUARTER
    modifies tabs, taba
    ensures Outside(old(tabs[..]), tabs[..], so, 1) && Outside(old(taba[..]), taba[..], ao, 1)
    ensures Root(old(taba[ao + 1]) * B + old(taba[ao]), tabs[so], rh * B + taba[ao]) && rh <= 1
  {
    hide Root;
    hide WrapTwice;
    hide Negative;
    var a0: int, a1: int := taba[ao], taba[ao + 1];
    var s1, r1 := MpSqrtrem1(a1);
    var num: int := r1 as int * 0x1_0000_0000 + a0 / 0x1_0000_0000;
    var q: int, u: int := num / (2 * s1 as int), num % (2 * s1 as int);
    var s, r := TwoLimbRoot(a1, s1, r1, a0, q, u);
    RemainderHigh(a1 * B + a0, s, r);
    tabs[so] := s;
    taba[ao] := r % B;
    rh := r / B;
  }

  // Root and remainder estimates s0 and d in limb arithmetic, repaired when d is negative.
  method Repair(s0: int, d: int) returns (s: Limb, r: int)
    requires -B <= d < B * HALF && 0 <= s0 <= B
    requires d >= 0 ==> s0 < B
    requires d < 0 ==> 0 < s0 && 0 <= d + 2 * (s0 - 1) + 1 < 2 * B
    ensures if d >= 0 then s == s0 && r == d else s == s0 - 1 && r == d + 2 * (s0 - 1) + 1
  {
    hide WrapTwice;
    hide Negative;
    DoubleSigned(d, if d < 0 then 2 * (s0 - 1) + 1 else 0);
    s := Wrap(s0);
    r := WrapTwice(d);
    HighHalf(r);
    if Negative(r / B) {
      s := Wrap(s as int - 1);
      r := WrapTwice(r + (2 * s as int + 1));
    }
  }

  method TwoLimbRoot(ghost a1: int, s1: int, r1: int, a0: int, q: int, u: int) returns (s: Limb, r: int)
    requires 0 <= a1 < B && Root(a1, s1, r1) && 0x8000_0000 <= s1 < 0x1_0000_0000 && 0 <= a0 < B
    requires q == (r1 * 0x1_0000_0000 + a0 / 0x1_0000_0000) / (2 * s1)
    requires u == (r1 * 0x1_0000_0000 + a0 / 0x1_0000_0000) % (2 * s1)
    ensures Root(a1 * B + a0, s, r)
  {
    hide Root;
    var c0 := a0 % 0x1_0000_0000;
    TwoLimbStep(a1, s1, r1, a0 / 0x1_0000_0000, c0, q, u);
    SquareHigh(q);
    var square := if q / 0x1_0000_0000 != 0 then B else q * q;
    s, r := Repair(s1 * 0x1_0000_0000 + q, u * 0x1_0000_0000 + c0 - square);
  }

  lemma HighHalf(r: int)
    requires 0 <= r < B * B
    ensures 0 <= r / B < B
  {
  }

  lemma RemainderHigh(a: int, s: Limb, r: int)
    requires Root(a, s, r)
    ensures 0 <= r < 2 * B && 0 <= r / B <= 1 && r == (r / B) * B + r % B
  {
  }
}
