// mp_divnorm_large of quickjs/libbf.c: division by multiplication with an approximate inverse, and
// the dispatch between it and schoolbook division.

module LimbDivLarge {
  import opened Limbs
  import opened LimbOps
  import opened LimbDiv
  import opened LimbRecip

  const DIVNORM_LARGE_THRESHOLD: int := 50

  // ----- The quotient estimate never exceeds the quotient and is less than 4 below it -----

  // x is an inverse of d, not too large.
  ghost predicate Approx(x: int, d: int, square: int) {
    x * d <= square < (x + 2) * d
  }

  lemma RecipApprox(x: int, d: int, square: int)
    requires IsRecip(x, d, square)
    ensures Approx(x, d, square)
  {
  }

  // q is the truncated product of x and the top limbs at of a.
  ghost predicate Estimated(q: int, x: int, at: int, s: int, a: int, e: int) {
    && q * s <= x * at < (q + 1) * s && 0 <= q && 0 < s && 0 < e
    && at * e <= a < (at + 1) * e && 0 <= at && 0 <= x
  }

  lemma Mul4(a: int, b: int, c: int, d: int)
    ensures (a * b) * (c * d) == (a * c) * (b * d) && (a * b) * (c * d) == (a * d) * (b * c)
  {
    assert (a * b) * (c * d) == ((a * b) * c) * d;
    assert (a * b) * c == (a * c) * b;
    assert ((a * c) * b) * d == (a * c) * (b * d);
    assert (a * b) * (c * d) == (a * b) * (d * c);
    assert (a * b) * d == (a * d) * b;
    assert (a * b) * (d * c) == ((a * b) * d) * c;
    assert ((a * d) * b) * c == (a * d) * (b * c);
  }

  lemma MulNotAbove(a: int, b: int, c: int)
    requires a * c <= b * c && 0 < c
    ensures a <= b
  {
    assert (b + 1) * c == b * c + c;
    MulCancelLess(a, b + 1, c);
  }

  // q * d does not exceed a, at the scale of the computation.
  lemma NotAboveScaled(q: int, x: int, at: int, s: int, a: int, e: int, d: int, square: int)
    requires Estimated(q, x, at, s, a, e) && Approx(x, d, square) && 0 <= d && 0 <= square
    ensures (q * d) * (s * e) <= a * square
  {
    Mul4(q, d, s, e);
    MulPos(d, e);
    MulMono(q * s, x * at, d * e);
    Mul4(x, at, d, e);
    MulPos(at, e);
    MulMono(x * d, square, at * e);
    MulMono(at * e, a, square);
  }

  lemma Spread2(at: int, x: int)
    ensures (x + 2) * (at + 1) == x * at + 2 * at + x + 2
  {
  }

  // a is below (q + c) * d, where c covers the truncations.
  lemma BelowScaled(q: int, x: int, at: int, s: int, a: int, e: int, d: int, square: int, c: int)
    requires Estimated(q, x, at, s, a, e) && Approx(x, d, square) && 0 < d && 0 < square
    requires 2 * at + x + 1 <= (c - 1) * s
    ensures a * square < ((q + c) * d) * (s * e)
  {
    MulStrict(a, (at + 1) * e, square);
    MulStrict(0, at + 1, e);
    MulStrict(square, (x + 2) * d, (at + 1) * e);
    Mul4(x + 2, d, at + 1, e);
    Spread2(at, x);
    assert (q + c) * s == (q + 1) * s + (c - 1) * s;
    MulStrict(0, d, e);
    MulMono((x + 2) * (at + 1), (q + c) * s, d * e);
    Mul4(q + c, d, s, e);
  }

  lemma Assoc(a: int, b: int, c: int)
    ensures (a * b) * c == a * (b * c) && (a * b) * c == (a * c) * b
  {
  }

  lemma UnscaleUp(m: int, b: int, z: int, a: int, u: int, square: int)
    requires 0 < u && 0 < z && square == u * z
    ensures (m * (b * z)) * u <= a * square ==> m * b <= a
    ensures a * square < (m * (b * z)) * u ==> a < m * b
  {
    Assoc(a, u, z);
    Assoc(m, b, z);
    if (m * (b * z)) * u <= a * square {
      MulNotAbove((m * b) * z, a * z, u);
      MulNotAbove(m * b, a, z);
    }
    if a * square < (m * (b * z)) * u {
      MulCancelLess(a * z, (m * b) * z, u);
      MulCancelLess(a, m * b, z);
    }
  }

  lemma UnscaleDown(m: int, d: int, z: int, a: int, u: int, square: int)
    requires 0 < square && u == square * z
    ensures (m * d) * u <= a * square ==> m * (d * z) <= a
    ensures a * square < (m * d) * u ==> a < m * (d * z)
  {
    Assoc(m * d, square, z);
    Assoc(m, d, z);
    if (m * d) * u <= a * square {
      MulNotAbove((m * d) * z, a, square);
    }
    if a * square < (m * d) * u {
      MulCancelLess(a, (m * d) * z, square);
    }
  }

  // A divisor b scaled up to n limbs by z = B^(n - nb): the inverse is that of d = b * z.
  lemma EstimateExact(q: int, x: int, at: int, s: int, a: int, e: int, b: int, z: int, square: int)
    requires Estimated(q, x, at, s, a, e) && Approx(x, b * z, square) && 0 < b && 0 < z && square == (s * e) * z
    requires 2 * at + x + 1 <= 3 * s
    ensures 0 <= a - q * b < 4 * b
  {
    MulStrict(0, b, z);
    MulStrict(0, s, e);
    MulStrict(0, s * e, z);
    NotAboveScaled(q, x, at, s, a, e, b * z, square);
    BelowScaled(q, x, at, s, a, e, b * z, square, 4);
    UnscaleUp(q, b, z, a, s * e, square);
    UnscaleUp(q + 4, b, z, a, s * e, square);
    assert (q + 4) * b == q * b + 4 * b;
  }

  lemma CutSlack(q: int, d: int, z: int, b: int)
    requires (d - 1) * z <= b && q + 4 <= 2 * d && 0 < z && 0 <= q
    ensures (q + 2) * (d * z) <= (q + 4) * b
  {
    assert (q + 4) * (d - 1) == (q + 2) * d + 2 * d - (q + 4);
    MulMono((q + 2) * d, (q + 4) * (d - 1), z);
    Assoc(q + 4, d - 1, z);
    Assoc(q + 2, d, z);
    MulMono((d - 1) * z, b, q + 4);
  }

  // A divisor cut to its top limbs and incremented: d * z is above b, (d - 1) * z is not.
  lemma EstimateCut(q: int, x: int, at: int, s: int, a: int, e: int, b: int, d: int, z: int, square: int)
    requires Estimated(q, x, at, s, a, e) && Approx(x, d, square) && 0 < d && 0 < z && square * z == s * e && 0 < square
    requires 2 * at + x + 1 <= s && (d - 1) * z <= b <= d * z && q + 4 <= 2 * d
    ensures 0 <= a - q * b < 4 * b
  {
    NotAboveScaled(q, x, at, s, a, e, d, square);
    BelowScaled(q, x, at, s, a, e, d, square, 2);
    UnscaleDown(q, d, z, a, s * e, square);
    UnscaleDown(q + 2, d, z, a, s * e, square);
    MulMono(b, d * z, q);
    CutSlack(q, d, z, b);
    assert (q + 4) * b == q * b + 4 * b;
  }

  // ----- The inverse -----

  // A limb array whose value is at least half of B^n starts with its top bit set.
  lemma TopHalf(a: array<Limb>, o: nat, n: nat)
    requires n >= 1 && o + n <= a.Length && At(a, o, n) >= HALF * Pow(n - 1)
    ensures a[o + (n - 1)] >= HALF
  {
    hide Val;
    hide Pow;
    AtSnoc(a, o, n - 1);
    AtBound(a, o, n - 1);
    var top, p := a[o + (n - 1)], Pow(n - 1);
    assert (top as int + 1) * p == top * p + p;
    MulCancelLess(HALF, top as int + 1, p);
  }

  // What the inverse is an inverse of: b scaled up, or b cut to n limbs and incremented.
  ghost predicate Divisor(d: int, b: int, n: nat, nb: nat) {
    && 0 < d && Pow(n) <= 2 * d
    && (n >= nb ==> d == b * Pow(n - nb))
    && (n < nb ==> (d - 1) * Pow(nb - n) <= b <= d * Pow(nb - n))
  }

  method ScaledInverse(inv: array<Limb>, tabt: array<Limb>, tabb: array<Limb>, bo: nat, nb: nat, n: nat)
    returns (ghost d: int)
    requires inv != tabt && inv != tabb && tabt != tabb && n >= nb >= 1 && inv.Length == n + 1 && tabt.Length >= n
    requires bo + nb <= tabb.Length && tabb[bo + nb - 1] >= HALF
    modifies inv, tabt
    ensures Divisor(d, At(tabb, bo, nb), n, nb)
    ensures Approx(At(inv, 0, n + 1), d, Pow(n) * Pow(n)) && At(inv, 0, n + 1) < 2 * Pow(n)
  {
    hide Val;
    hide Pow;
    hide IsRecip;
    var i := 0;
    while i < n - nb
      invariant 0 <= i <= n - nb && forall j :: 0 <= j < i ==> tabt[j] == 0
      modifies tabt
    {
      tabt[i] := 0;
      i := i + 1;
    }
    ghost var zeros := tabt[0..n - nb];
    CopyLimbs(tabt, n - nb, tabb, bo, nb);
    assert tabt[0..n - nb] == zeros;
    ValZeros(zeros);
    AtConcat(tabt, 0, n - nb, nb);
    d := At(tabt, 0, n);
    Normalized(tabb, bo, nb);
    PowAdd(n - nb, nb);
    ScaledHalf(At(tabb, bo, nb), Pow(n - nb), Pow(nb), Pow(n));
    HalfOf(n, d);
    TopHalf(tabt, 0, n);
    MpRecip(inv, 0, tabt, 0, n);
    RecipApprox(At(inv, 0, n + 1), d, Pow(n) * Pow(n));
    TopIsOne(inv, 0, n);
  }

  lemma ScaledHalf(b: int, z: int, p: int, pz: int)
    requires 2 * b >= p && pz == z * p && z > 0
    ensures 2 * (b * z) >= pz
  {
    MulMono(p, 2 * b, z);
  }

  lemma HalfOf(n: nat, d: int)
    requires n >= 1 && Pow(n) <= 2 * d
    ensures d >= HALF * Pow(n - 1)
  {
    PowStep(n - 1);
  }

  // Truncate b and increment it, so that the inverse is not too large.
  method CutInverse(inv: array<Limb>, tabt: array<Limb>, tabb: array<Limb>, bo: nat, nb: nat, n: nat)
    returns (ghost d: int)
    requires inv != tabt && inv != tabb && tabt != tabb && nb > n >= 1 && inv.Length == n + 1 && tabt.Length >= n
    requires bo + nb <= tabb.Length && tabb[bo + nb - 1] >= HALF
    modifies inv, tabt
    ensures Divisor(d, At(tabb, bo, nb), n, nb)
    ensures Approx(At(inv, 0, n + 1), d, Pow(n) * Pow(n)) && At(inv, 0, n + 1) < 2 * Pow(n)
  {
    hide Val;
    hide Pow;
    hide IsRecip;
    CopyLimbs(tabt, 0, tabb, bo + (nb - n), n);
    ghost var top := At(tabt, 0, n);
    AtConcat(tabb, bo, nb - n, n);
    AtBound(tabb, bo, nb - n);
    Normalized(tabb, bo + (nb - n), n);
    var carry := MpAddUi(tabt, 0, 1, n);
    d := top + 1;
    Incremented(top, Pow(nb - n), At(tabb, bo, nb), At(tabb, bo, nb - n));
    AtBound(tabb, bo + (nb - n), n);
    if carry != 0 {
      AtBound(tabt, 0, n);
      OneAndZeros(inv, n);
      OwnInverse(Pow(n));
    } else {
      HalfOf(n, d);
      TopHalf(tabt, 0, n);
      MpRecip(inv, 0, tabt, 0, n);
      RecipApprox(At(inv, 0, n + 1), d, Pow(n) * Pow(n));
      TopIsOne(inv, 0, n);
    }
  }

  lemma Incremented(top: int, z: int, b: int, low: int)
    requires b == low + top * z && 0 <= low < z
    ensures (top + 1 - 1) * z <= b <= (top + 1) * z
  {
    assert (top + 1) * z == top * z + z;
  }

  lemma OwnInverse(p: int)
    requires p > 0
    ensures Approx(p, p, p * p)
  {
    assert (p + 2) * p == p * p + 2 * p;
  }

  // ----- The estimate -----

  // The n limbs above the lowest m.
  lemma TopLimbs(a: array<Limb>, o: nat, m: nat, n: nat)
    requires o + m + n <= a.Length
    ensures At(a, o + m, n) >= 0 && Pow(m) > 0
    ensures At(a, o + m, n) * Pow(m) <= At(a, o, m + n) < (At(a, o + m, n) + 1) * Pow(m)
  {
    hide Val;
    hide Pow;
    AtConcat(a, o, m, n);
    AtBound(a, o, m);
    AtBound(a, o + m, n);
    assert (At(a, o + m, n) + 1) * Pow(m) == At(a, o + m, n) * Pow(m) + Pow(m);
  }

  // tabq := the top limbs of the product of the inverse and the top n + 1 limbs of taba.
  method EstimateQuotient(tabq: array<Limb>, qo: nat, taba: array<Limb>, ao: nat, na: nat, inv: array<Limb>,
                          tabt: array<Limb>, n: nat, nq: nat)
    requires tabq != taba && tabq != inv && tabq != tabt && taba != tabt && inv != tabt
    requires nq <= n <= nq + 1 && n + 1 <= na && inv.Length == n + 1 && tabt.Length == 2 * (n + 1)
    requires qo + nq + 1 <= tabq.Length && ao + na <= taba.Length
    modifies tabq, tabt
    ensures Outside(old(tabq[..]), tabq[..], qo, nq + 1)
    ensures var e := na - (n + 1);
      Estimated(At(tabq, qo, nq + 1), At(inv, 0, n + 1), At(taba, ao + e, n + 1), Pow(2 * n + 1 - nq),
                At(taba, ao, na), Pow(e))
  {
    hide Val;
    hide Pow;
    var e, s := na - (n + 1), 2 * (n + 1) - (nq + 1);
    MpMul(tabt, 0, inv, 0, n + 1, taba, ao + e, n + 1);
    CopyLimbs(tabq, qo, tabt, s, nq + 1);
    TopLimbs(tabt, 0, s, nq + 1);
    TopLimbs(taba, ao, e, n + 1);
    AtBound(inv, 0, n + 1);
  }

  // How far off the estimate can be.
  lemma EstimateGood(q: int, x: int, at: int, a: int, b: int, d: int, n: nat, nb: nat, nq: nat)
    requires 1 <= nq <= n <= nq + 1 && nb >= 1 && nq + nb >= n + 1 && (n == nq + 1 || n >= nb)
    requires Estimated(q, x, at, Pow(2 * n + 1 - nq), a, Pow(nq + nb - (n + 1)))
    requires Approx(x, d, Pow(n) * Pow(n)) && x < 2 * Pow(n) && at < Pow(n + 1) && Divisor(d, b, n, nb) && 0 < b
    ensures 0 <= a - q * b < 4 * b
  {
    var s, e := 2 * n + 1 - nq, nq + nb - (n + 1);
    PowAdd(n, n);
    PowAdd(s, e);
    PowStep(n);
    PowMono(n + 1, s);
    if n >= nb {
      PowAdd(s + e, n - nb);
      hide Pow;
      EstimateExact(q, x, at, Pow(s), a, Pow(e), b, Pow(n - nb), Pow(n) * Pow(n));
    } else {
      PowAdd(2 * n, nb - n);
      PowStep(n + 1);
      hide Pow;
      SmallQuotient(q, x, at, n, d);
      EstimateCut(q, x, at, Pow(s), a, Pow(e), b, d, Pow(nb - n), Pow(n) * Pow(n));
    }
  }

  lemma SmallQuotient(q: int, x: int, at: int, n: nat, d: int)
    requires n >= 1 && q * Pow(n + 2) <= x * at && 0 <= x < 2 * Pow(n) && 0 <= at < Pow(n + 1) && Pow(n) <= 2 * d
    ensures q + 4 <= 2 * d
  {
    PowStep(n - 1);
    PowStep(n + 1);
    var p := Pow(n - 1);
    hide Pow;
    MulMono(x, 2 * Pow(n), at);
    MulStrict(at, Pow(n + 1), 2 * Pow(n));
    assert Pow(n + 1) * (2 * (B * p)) == (2 * p) * (B * Pow(n + 1));
    MulCancelLess(q, 2 * p, Pow(n + 2));
  }

  // ----- Remainder and corrections -----

  lemma LowDifference(alo: int, ahi: int, tlo: int, thi: int, p: int, r: int, k: int)
    requires r - k * p == alo - tlo && 0 <= (alo + ahi * p) - (tlo + thi * p) < p && 0 <= r < p
    ensures r == (alo + ahi * p) - (tlo + thi * p)
  {
    var m := (alo + ahi * p) - (tlo + thi * p);
    var u := ahi - thi - k;
    assert u * p == ahi * p - thi * p - k * p;
    DivUnique(p, 0, m, u, r);
  }

  // taba := taba - tabq * tabb, on nb + 1 limbs, which is all the difference needs.
  method SubtractProduct(tabq: array<Limb>, qo: nat, taba: array<Limb>, ao: nat, tabb: array<Limb>, bo: nat, nb: nat,
                         nq: nat)
    requires tabq != taba && taba != tabb && nb >= 1 && nq >= 1
    requires qo + nq + 1 <= tabq.Length && ao + nq + nb <= taba.Length && bo + nb <= tabb.Length
    requires 0 <= At(taba, ao, nq + nb) - At(tabq, qo, nq + 1) * At(tabb, bo, nb) < 4 * At(tabb, bo, nb)
    modifies taba
    ensures Outside(old(taba[..]), taba[..], ao, nq + nb)
    ensures At(taba, ao, nb + 1) == old(At(taba, ao, nq + nb)) - At(tabq, qo, nq + 1) * At(tabb, bo, nb)
  {
    hide Val;
    PowStep(nb);
    hide Pow;
    var tabt := new Limb[nq + 1 + nb];
    MpMul(tabt, 0, tabq, qo, nq + 1, tabb, bo, nb);
    AtConcat(taba, ao, nb + 1, nq - 1);
    AtConcat(tabt, 0, nb + 1, nq);
    AtBound(tabb, bo, nb);
    ghost var alo, ahi, tlo, thi := At(taba, ao, nb + 1), At(taba, ao + nb + 1, nq - 1), At(tabt, 0, nb + 1),
        At(tabt, nb + 1, nq);
    var k := MpSub(taba, ao, taba, ao, tabt, 0, nb + 1, 0);
    AtBound(taba, ao, nb + 1);
    LowDifference(alo, ahi, tlo, thi, Pow(nb + 1), At(taba, ao, nb + 1), k);
  }

  lemma NextQuotient(q: int, b: int, r: int, a: int, q': int, k: int, p: int)
    requires q * b + r == a && r >= b && q' + k * p == q + 1 && (k == 0 || k == 1) && 0 <= q'
    requires a < p * b && 0 < b
    ensures q' == q + 1 && q' * b + (r - b) == a
  {
    assert (q + 1) * b == q * b + b;
    MulCancelLess(q + 1, p, b);
  }

  // The last loop: count the quotient up while the remainder is not below b.
  method CountUp(tabq: array<Limb>, qo: nat, taba: array<Limb>, ao: nat, tabb: array<Limb>, bo: nat, nb: nat, nq: nat,
                 ghost a: int)
    returns (ghost tries: nat)
    requires tabq != taba && tabq != tabb && taba != tabb && nb >= 1
    requires qo + nq + 1 <= tabq.Length && ao + nb + 1 <= taba.Length && bo + nb <= tabb.Length && At(tabb, bo, nb) > 0
    requires At(tabq, qo, nq + 1) * At(tabb, bo, nb) + At(taba, ao, nb + 1) == a
    requires At(taba, ao, nb + 1) < 4 * At(tabb, bo, nb) && a < Pow(nq + 1) * At(tabb, bo, nb)
    modifies tabq, taba
    ensures Outside(old(taba[..]), taba[..], ao, nb + 1) && Outside(old(tabq[..]), tabq[..], qo, nq + 1)
    ensures At(tabq, qo, nq + 1) * At(tabb, bo, nb) + At(taba, ao, nb) == a && At(taba, ao, nb) < At(tabb, bo, nb)
    ensures tries <= 3
  {
    hide Val;
    hide Pow;
    ghost var b := At(tabb, bo, nb);
    tries := 0;
    AtBound(tabb, bo, nb);
    while true
      invariant forall j :: 0 <= j < taba.Length && (j < ao || ao + nb + 1 <= j) ==> taba[j] == old(taba[j])
      invariant forall j :: 0 <= j < tabq.Length && (j < qo || qo + nq + 1 <= j) ==> tabq[j] == old(tabq[j])
      invariant At(tabq, qo, nq + 1) * b + At(taba, ao, nb + 1) == a
      invariant tries <= 3 && At(taba, ao, nb + 1) < (4 - tries) * b
      decreases 4 - tries
    {
      AtSnoc(taba, ao, nb);
      AtBound(taba, ao, nb);
      if taba[ao + nb] == 0 {
        var c := MpCmp(taba, ao, tabb, bo, nb);
        if c < 0 {
          break;
        }
      } else {
        MulMono(1, taba[ao + nb], Pow(nb));
      }
      ghost var q := At(tabq, qo, nq + 1);
      ghost var r := At(taba, ao, nb + 1);
      SubLong(taba, ao, nb, 1, tabb, bo);
      var k := MpAddUi(tabq, qo, 1, nq + 1);
      AtBound(tabq, qo, nq + 1);
      NextQuotient(q, b, r, a, At(tabq, qo, nq + 1), k, Pow(nq + 1));
      tries := tries + 1;
      AtBound(taba, ao, nb + 1);
    }
  }

  lemma QuotientBound(q: int, b: int, r: int, a: int, nq: nat, nb: nat)
    requires q * b + r == a && 0 <= r && a < Pow(nq + nb) && Pow(nb) <= 2 * b
    ensures q < 2 * Pow(nq) && a < Pow(nq + 1) * b
  {
    PowAdd(nq, nb);
    PowStep(nq);
    hide Pow;
    QuotientArith(q, b, r, a, Pow(nq), Pow(nb));
  }

  lemma QuotientArith(q: int, b: int, r: int, a: int, p: int, pn: int)
    requires q * b + r == a && 0 <= r && a < p * pn && pn <= 2 * b && 0 < p && 0 < pn
    ensures q < 2 * p && a < (B * p) * b
  {
    MulMono(pn, 2 * b, p);
    assert p * (2 * b) == (2 * p) * b && p * pn == pn * p && (2 * b) * p == p * (2 * b);
    MulCancelLess(q, 2 * p, b);
    MulMono(2 * p, B * p, b);
  }

  // The top digit of a quotient by a normalized divisor is 0 or 1.
  lemma TopQuotientDigit(tabq: array<Limb>, qo: nat, nq: nat)
    requires qo + nq + 1 <= tabq.Length && At(tabq, qo, nq + 1) < 2 * Pow(nq)
    ensures tabq[qo + nq] <= 1
  {
    hide Val;
    hide Pow;
    AtSnoc(tabq, qo, nq);
    AtBound(tabq, qo, nq);
    MulCancelLess(tabq[qo + nq], 2, Pow(nq));
  }

  // mp_divnorm_large
  method MpDivnormLarge(tabq: array<Limb>, qo: nat, taba: array<Limb>, ao: nat, na: nat, tabb: array<Limb>, bo: nat,
                        nb: nat)
    requires tabq != taba && tabq != tabb && taba != tabb && na > nb >= 1
    requires qo + (na - nb) + 1 <= tabq.Length && ao + na <= taba.Length && bo + nb <= tabb.Length
    requires tabb[bo + nb - 1] >= HALF
    modifies tabq, taba
    ensures Outside(old(taba[..]), taba[..], ao, na) && Outside(old(tabq[..]), tabq[..], qo, na - nb + 1)
    ensures At(tabq, qo, na - nb + 1) * At(tabb, bo, nb) + At(taba, ao, nb) == old(At(taba, ao, na))
    ensures At(taba, ao, nb) < At(tabb, bo, nb) && tabq[qo + (na - nb)] <= 1
  {
    hide Val;
    hide Pow;
    hide Approx;
    hide Divisor;
    hide Estimated;
    var nq := na - nb;
    var n := nq;
    if nq < nb {
      n := n + 1;
    }
    ghost var a, b := At(taba, ao, na), At(tabb, bo, nb);
    var tabbInv, tabt := new Limb[n + 1], new Limb[2 * (n + 1)];
    ghost var d;
    if n >= nb {
      d := ScaledInverse(tabbInv, tabt, tabb, bo, nb, n);
    } else {
      d := CutInverse(tabbInv, tabt, tabb, bo, nb, n);
    }
    EstimateQuotient(tabq, qo, taba, ao, na, tabbInv, tabt, n, nq);
    ghost var e := na - (n + 1);
    ghost var q := At(tabq, qo, nq + 1);
    AtBound(taba, ao + e, n + 1);
    AtBound(taba, ao, na);
    Normalized(tabb, bo, nb);
    EstimateGood(q, At(tabbInv, 0, n + 1), At(taba, ao + e, n + 1), a, b, d, n, nb, nq);
    SubtractProduct(tabq, qo, taba, ao, tabb, bo, nb, nq);
    QuotientBound(q, b, At(taba, ao, nb + 1), a, nq, nb);
    ghost var tries := CountUp(tabq, qo, taba, ao, tabb, bo, nb, nq, a);
    AtBound(taba, ao, nb);
    QuotientBound(At(tabq, qo, nq + 1), b, At(taba, ao, nb), a, nq, nb);
    TopQuotientDigit(tabq, qo, nq);
  }

  // mp_divnorm: quotient and remainder of na limbs by nb normalized limbs.
  method MpDivnorm(tabq: array<Limb>, qo: nat, taba: array<Limb>, ao: nat, na: nat, tabb: array<Limb>, bo: nat, nb: nat)
    requires tabq != taba && tabq != tabb && taba != tabb && na >= nb >= 1
    requires qo + (na - nb) + 1 <= tabq.Length && ao + na <= taba.Length && bo + nb <= tabb.Length
    requires tabb[bo + nb - 1] >= HALF
    modifies tabq, taba
    ensures Outside(old(taba[..]), taba[..], ao, na) && Outside(old(tabq[..]), tabq[..], qo, na - nb + 1)
    ensures At(tabq, qo, na - nb + 1) * At(tabb, bo, nb) + At(taba, ao, nb) == old(At(taba, ao, na))
    ensures At(taba, ao, nb) < At(tabb, bo, nb) && tabq[qo + (na - nb)] <= 1
  {
    var n := na - nb;
    if nb > 1 && (if n < nb then n else nb) >= DIVNORM_LARGE_THRESHOLD {
      MpDivnormLarge(tabq, qo, taba, ao, na, tabb, bo, nb);
    } else {
      MpDivnormBase(tabq, qo, taba, ao, na, tabb, bo, nb);
    }
  }
}
