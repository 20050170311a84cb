// The rounding modes of quickjs/libbf.h as functions on quotients, against the definitions of
// section 4.3 of IEEE 754-2008.

module Rounding {
  import opened Limbs
  import opened Bits

  // BF_RNDF, faithful rounding, leaves the result open and is not given a meaning here.
  datatype RndMode = RNDN | RNDZ | RNDD | RNDU | RNDNA | RNDA | RNDF

  // Whether the magnitude goes to the larger multiple: rem is the remainder modulo den, odd tells
  // whether the quotient is odd.
  predicate RoundsUp(rem: int, den: int, odd: bool, neg: bool, mode: RndMode) {
    match mode
    case RNDN => 2 * rem > den || (2 * rem == den && odd)
    case RNDZ => false
    case RNDD => neg && rem != 0
    case RNDU => !neg && rem != 0
    case RNDNA => 2 * rem >= den
    case RNDA => rem != 0
    case RNDF => 2 * rem >= den
  }

  // num / den, with the sign neg, rounded to an integer magnitude.
  function RoundQ(num: int, den: int, neg: bool, mode: RndMode): int
    requires den > 0
  {
    num / den + if RoundsUp(num % den, den, (num / den) % 2 == 1, neg, mode) then 1 else 0
  }

  function Dist(a: int, b: int): int {
    if a >= b then a - b else b - a
  }

  // Section 4.3: r * den is the multiple of den selected for num.
  ghost predicate CorrectlyRounded(r: int, num: int, den: int, neg: bool, mode: RndMode) {
    match mode
    case RNDZ => r * den <= num && forall k: int :: k * den <= num ==> k <= r
    case RNDA => num <= r * den && forall k: int :: num <= k * den ==> r <= k
    case RNDD => Below(r, num, den, neg)
    case RNDU => Below(r, num, den, !neg)
    case RNDN => Nearest(r, num, den) && ((exists k: int :: k != r && Dist(k * den, num) == Dist(r * den, num)) ==>
                                          r % 2 == 0)
    case RNDNA => Nearest(r, num, den) && ((exists k: int :: k != r && Dist(k * den, num) == Dist(r * den, num)) ==>
                                           r * den >= num)
    case RNDF => true
  }

  ghost predicate Nearest(r: int, num: int, den: int) {
    forall k: int :: Dist(r * den, num) <= Dist(k * den, num)
  }

  // Toward minus infinity: the largest multiple not above the signed value. Toward plus infinity is
  // the same for the opposite sign.
  ghost predicate Below(r: int, num: int, den: int, neg: bool) {
    if neg then -r * den <= -num && forall k: int :: k * den <= -num ==> k <= -r
    else r * den <= num && forall k: int :: k * den <= num ==> k <= r
  }

  // ----- The function meets the definition, and only it does -----

  // A multiple is at most num exactly up to the quotient.
  lemma FloorIs(k: int, num: int, den: int)
    requires den > 0
    ensures k * den <= num <==> k <= num / den
  {
    var q := num / den;
    assert num == q * den + num % den;
    assert (q + 1) * den == q * den + den;
    if k <= q {
      MulMono(k, q, den);
    } else {
      MulMono(q + 1, k, den);
    }
  }

  // A multiple is at least num exactly from the quotient rounded up on.
  lemma CeilIs(k: int, num: int, den: int)
    requires den > 0
    ensures num <= k * den <==> num / den + (if num % den != 0 then 1 else 0) <= k
  {
    var q := num / den;
    assert num == q * den + num % den;
    assert (q + 1) * den == q * den + den;
    if k <= q {
      MulMono(k, q, den);
      if k < q {
        MulMono(k + 1, q, den);
        assert (k + 1) * den == k * den + den;
      }
    } else {
      MulMono(q + 1, k, den);
    }
  }

  // The distance from num grows away from the two neighbouring multiples.
  lemma Distances(k: int, num: int, den: int)
    requires den > 0
    ensures k <= num / den ==> Dist(k * den, num) == num % den + (num / den - k) * den
    ensures k > num / den ==> Dist(k * den, num) == den - num % den + (k - num / den - 1) * den
    ensures k < num / den ==> (num / den - k) * den >= den
    ensures k > num / den + 1 ==> (k - num / den - 1) * den >= den
  {
    var q := num / den;
    assert num == q * den + num % den;
    assert (q - k) * den == q * den - k * den;
    assert (k - q - 1) * den == k * den - q * den - den;
    if k < q {
      MulMono(1, q - k, den);
    } else if k == q {
      assert (q - k) * den == 0;
    } else if k > q + 1 {
      MulMono(1, k - q - 1, den);
    } else {
      assert (k - q - 1) * den == 0;
    }
  }

  // The nearest multiples.
  lemma NearestIs(r: int, num: int, den: int)
    requires den > 0
    ensures Nearest(r, num, den) <==>
            (r == num / den && 2 * (num % den) <= den) || (r == num / den + 1 && 2 * (num % den) >= den)
  {
    var q, m := num / den, num % den;
    Distances(q, num, den);
    Distances(q + 1, num, den);
    Distances(r, num, den);
    assert (q - q) * den == 0 && (q + 1 - q - 1) * den == 0;
    if (r == q && 2 * m <= den) || (r == q + 1 && 2 * m >= den) {
      forall k: int ensures Dist(r * den, num) <= Dist(k * den, num) {
        Distances(k, num, den);
      }
    } else {
      assert Dist(r * den, num) > Dist(q * den, num) || Dist(r * den, num) > Dist((q + 1) * den, num);
    }
  }

  // There is a second nearest multiple exactly half way.
  lemma TieIs(r: int, num: int, den: int)
    requires den > 0 && Nearest(r, num, den)
    ensures (exists k: int :: k != r && Dist(k * den, num) == Dist(r * den, num)) <==> 2 * (num % den) == den
  {
    NearestIs(r, num, den);
    var q := num / den;
    Distances(q, num, den);
    Distances(q + 1, num, den);
    assert (q - q) * den == 0 && (q + 1 - q - 1) * den == 0;
    forall k: int | k != r && Dist(k * den, num) == Dist(r * den, num) ensures 2 * (num % den) == den {
      Distances(k, num, den);
    }
    if 2 * (num % den) == den {
      var other := if r == q then q + 1 else q;
      assert other != r && Dist(other * den, num) == Dist(r * den, num);
    }
  }

  lemma DirectedIs(r: int, num: int, den: int)
    requires den > 0
    ensures (r * den <= num && forall k: int :: k * den <= num ==> k <= r) <==> r == num / den
    ensures (num <= r * den && forall k: int :: num <= k * den ==> r <= k) <==>
            r == num / den + (if num % den != 0 then 1 else 0)
    ensures Below(r, num, den, true) <==> r == num / den + (if num % den != 0 then 1 else 0)
    ensures Below(r, num, den, false) <==> r == num / den
  {
    var q, c := num / den, num / den + (if num % den != 0 then 1 else 0);
    forall k: int ensures (k * den <= num <==> k <= q) && (num <= k * den <==> c <= k) &&
        (k * den <= -num <==> c <= -k) {
      FloorIs(k, num, den);
      CeilIs(k, num, den);
      CeilIs(-k, num, den);
      assert (-k) * den == -(k * den);
    }
    assert -r * den == (-r) * den;
    assert q * den <= num && num <= c * den && (-c) * den <= -num;
  }

  // Main result: the rounding function is the one the standard defines.
  lemma RoundQIs(r: int, num: int, den: int, neg: bool, mode: RndMode)
    requires den > 0 && mode != RNDF
    ensures CorrectlyRounded(r, num, den, neg, mode) <==> r == RoundQ(num, den, neg, mode)
  {
    NearestIs(r, num, den);
    if Nearest(r, num, den) {
      TieIs(r, num, den);
    }
    DirectedIs(r, num, den);
  }

  // ----- The sticky bit -----

  // t | sticky, for a bit that is set when the part that was cut off is not zero.
  function Sticky(t: int, cut: bool): int {
    if cut && t % 2 == 0 then t + 1 else t
  }

  // num = q * d + (m * den + f)
  lemma CutQuotient(num: int, den: int, u: int, d: int, t: int, f: int, q: int, m: int)
    requires den > 0 && u > 0 && d == den * u && num == t * den + f && 0 <= f < den && t == q * u + m && 0 <= m < u
    ensures num / d == q && num % d == m * den + f && d > 0
  {
    MulStrict(0, den, u);
    assert (q * u + m) * den == q * (den * u) + m * den;
    MulMono(m, u - 1, den);
    assert (u - 1) * den == den * u - den;
    MulPos(m, den);
    DivIs(num, d, q, m * den + f);
  }

  lemma Parity(t: int, z: int, m: int)
    requires t == 4 * z + m
    ensures t % 2 == m % 2
  {
    DivIs(t, 2, 2 * z + m / 2, m % 2);
  }

  // With a unit of 4 * g, setting the last bit of the cut quotient stays below the unit.
  lemma StickyQuotient(t: int, q: int, u: int, m: int, g: int, h: int)
    requires t == q * u + m && 0 <= m < u && u == 4 * g && (m == 2 * h || m == 2 * h + 1)
    ensures Sticky(t, true) == q * u + (2 * h + 1) && 2 * h + 1 < u
  {
    assert q * (4 * g) == 4 * (q * g);
    Parity(t, q * g, m);
    DivIs(m, 2, h, m - 2 * h);
  }

  // A quotient cut to an integer with a sticky bit rounds like the quotient itself, when at least
  // two bits are cut off or nothing was lost.
  lemma StickyRounds(num: int, den: int, t: int, cut: bool, u: int, d: int, neg: bool, mode: RndMode)
    requires den > 0 && u > 0 && t == num / den && (cut <==> num % den != 0) && (u % 4 == 0 || !cut) && d == den * u
    ensures d > 0 && RoundQ(Sticky(t, cut), u, neg, mode) == RoundQ(num, d, neg, mode)
    ensures (Sticky(t, cut) % u != 0) <==> (num % d != 0)
  {
    var f, q, m := num % den, t / u, t % u;
    CutQuotient(num, den, u, d, t, f, q, m);
    if cut {
      var h := m / 2;
      StickyQuotient(t, q, u, m, u / 4, h);
      HalfKept(m, f, den, u, u / 4, h);
      SameRounding(num, d, Sticky(t, cut), u, q, m * den + f, 2 * h + 1, neg, mode);
    } else {
      WholeKept(m, den, u);
      SameRounding(num, d, Sticky(t, cut), u, q, m * den, m, neg, mode);
    }
  }

  // Equal quotients and remainders that compare alike with one half and with zero.
  lemma SameRounding(num: int, d: int, s: int, u: int, q: int, rem: int, m: int, neg: bool, mode: RndMode)
    requires d > 0 && u > 0 && num / d == q && num % d == rem && s == q * u + m && 0 <= m < u
    requires (2 * m > u <==> 2 * rem > d) && (2 * m == u <==> 2 * rem == d) && (m != 0 <==> rem != 0)
    ensures RoundQ(s, u, neg, mode) == RoundQ(num, d, neg, mode) && ((s % u != 0) <==> (num % d != 0))
  {
    DivIs(s, u, q, m);
  }

  lemma WholeKept(m: int, den: int, u: int)
    requires den > 0 && u > 0 && 0 <= m < u
    ensures (2 * m > u <==> 2 * (m * den) > den * u) && (2 * m == u <==> 2 * (m * den) == den * u) &&
            (m != 0 <==> m * den != 0)
  {
    assert 2 * (m * den) == (2 * m) * den;
    if 2 * m > u {
      MulStrict(u, 2 * m, den);
    } else if 2 * m < u {
      MulStrict(2 * m, u, den);
    }
    if m != 0 {
      MulMono(1, m, den);
    }
  }

  // Comparing with one half gives the same answer: m = 2 * h or 2 * h + 1 of a unit 4 * g.
  lemma HalfKept(m: int, f: int, den: int, u: int, g: int, h: int)
    requires den > 0 && u == 4 * g && 0 <= m < u && 0 < f < den && (m == 2 * h || m == 2 * h + 1)
    ensures (2 * (2 * h + 1) > u <==> 2 * (m * den + f) > den * u) && 2 * (2 * h + 1) != u
    ensures 2 * (m * den + f) != den * u && m * den + f != 0
  {
    MulPos(m, den);
    assert 2 * (m * den) == (2 * m) * den && den * u == u * den;
    if h >= g {
      MulMono(u, 2 * m, den);
    } else {
      MulMono(2 * m, u - 2, den);
      assert (u - 2) * den == u * den - 2 * den;
    }
  }

  // Scaling both sides changes nothing.
  lemma RoundScale(num: int, den: int, k: int, neg: bool, mode: RndMode)
    requires den > 0 && k > 0
    ensures den * k > 0 && RoundQ(num * k, den * k, neg, mode) == RoundQ(num, den, neg, mode)
    ensures (num * k) % (den * k) == (num % den) * k
  {
    var q, m := num / den, num % den;
    assert num == q * den + m;
    assert (q * den + m) * k == q * (den * k) + m * k;
    MulStrict(0, den, k);
    MulStrict(m, den, k);
    MulPos(m, k);
    DivIs(num * k, den * k, q, m * k);
    assert 2 * (m * k) == (2 * m) * k;
    if 2 * m > den {
      MulStrict(den, 2 * m, k);
    } else if 2 * m < den {
      MulStrict(2 * m, den, k);
    }
    if m != 0 {
      MulMono(1, m, k);
    }
  }

  // Values that need no rounding.
  lemma RoundExact(num: int, den: int, q: int, neg: bool, mode: RndMode)
    requires den > 0 && num == q * den
    ensures RoundQ(num, den, neg, mode) == q && num % den == 0
  {
    DivIs(num, den, q, 0);
  }
}
