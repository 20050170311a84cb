// Radix conversion of quickjs/libbf.c by divide and conquer: bf_integer_to_radix_rec and
// bf_integer_from_radix_rec. Numbers of unlimited precision are their values here; the quotient the
// conversion starts from is an estimate about which nothing is assumed.

module BfRadix {
  import opened Limbs
  import opened Bits

  // ----- Digits -----

  // radix^n
  function RadixPow(radix: nat, n: nat): nat {
    if n == 0 then 1 else radix * RadixPow(radix, n - 1)
  }

  lemma {:induction false} RadixPowAdd(radix: nat, m: nat, n: nat)
    ensures RadixPow(radix, m + n) == RadixPow(radix, m) * RadixPow(radix, n)
  {
    if m > 0 {
      RadixPowAdd(radix, m - 1, n);
      assert radix * (RadixPow(radix, m - 1) * RadixPow(radix, n))
            == (radix * RadixPow(radix, m - 1)) * RadixPow(radix, n);
    }
  }

  lemma {:induction false} RadixPowPositive(radix: nat, n: nat)
    requires radix >= 1
    ensures RadixPow(radix, n) >= 1
  {
    if n > 0 {
      RadixPowPositive(radix, n - 1);
      MulMono(1, radix, RadixPow(radix, n - 1));
    }
  }

  // The number with the given digits, least significant first.
  ghost function Number(digits: seq<Limb>, radix: nat): nat {
    if digits == [] then 0 else digits[0] + radix * Number(digits[1..], radix)
  }

  ghost predicate Digits(digits: seq<Limb>, radix: nat) {
    forall i :: 0 <= i < |digits| ==> digits[i] < radix
  }

  lemma {:induction false} NumberConcat(low: seq<Limb>, high: seq<Limb>, radix: nat)
    ensures Number(low + high, radix) == Number(low, radix) + RadixPow(radix, |low|) * Number(high, radix)
  {
    if low == [] {
      assert low + high == high;
    } else {
      assert (low + high)[1..] == low[1..] + high;
      NumberConcat(low[1..], high, radix);
      Distribute(radix, Number(low[1..], radix), RadixPow(radix, |low| - 1), Number(high, radix));
    }
  }

  lemma Distribute(r: int, a: int, p: int, b: int)
    ensures r * (a + p * b) == r * a + (r * p) * b
  {
    assert r * (p * b) == (r * p) * b;
  }

  // The digits of a number are determined by it.
  lemma {:induction false} DigitsDetermined(x: seq<Limb>, y: seq<Limb>, radix: nat)
    requires radix >= 1 && |x| == |y| && Digits(x, radix) && Digits(y, radix) && Number(x, radix) == Number(y, radix)
    ensures x == y
  {
    if x != [] {
      assert radix * Number(x[1..], radix) == Number(x[1..], radix) * radix;
      assert radix * Number(y[1..], radix) == Number(y[1..], radix) * radix;
      DivUnique(radix, Number(x[1..], radix), x[0], Number(y[1..], radix), y[0]);
      DigitsDetermined(x[1..], y[1..], radix);
      assert x == [x[0]] + x[1..] && y == [y[0]] + y[1..];
    }
  }

  lemma {:induction false} NumberBelow(x: seq<Limb>, radix: nat)
    requires radix >= 1 && Digits(x, radix)
    ensures Number(x, radix) < RadixPow(radix, |x|)
  {
    if x != [] {
      NumberBelow(x[1..], radix);
      MulMono(Number(x[1..], radix) + 1, RadixPow(radix, |x| - 1), radix);
      assert (Number(x[1..], radix) + 1) * radix == radix * Number(x[1..], radix) + radix;
      assert RadixPow(radix, |x| - 1) * radix == RadixPow(radix, |x|);
    }
  }

  // ----- The splits -----

  // The low part of the split at a level, for n0 digits in all: n2 in the source.
  function LowLen(n0: nat, level: nat): nat {
    ((n0 * 2) / Pow2(level + 1) + 1) / 2
  }

  // At a level there are n0 / 2^level digits, rounded down or up.
  ghost predicate LevelLen(n: nat, n0: nat, level: nat) {
    n == n0 / Pow2(level) || (n == n0 / Pow2(level) + 1 && n0 % Pow2(level) != 0)
  }

  lemma HalfLen(n0: nat, level: nat)
    ensures (n0 * 2) / Pow2(level + 1) == n0 / Pow2(level)
    ensures n0 / Pow2(level + 1) == (n0 / Pow2(level)) / 2
    ensures n0 % Pow2(level + 1) == n0 % Pow2(level) + Pow2(level) * ((n0 / Pow2(level)) % 2)
  {
    var p := Pow2(level);
    assert Pow2(level + 1) == 2 * p;
    hide Pow2;
    var q, m := n0 / p, n0 % p;
    assert n0 == q * p + m;
    assert q * (2 * p) == 2 * (q * p);
    DivIs(n0 * 2, 2 * p, q, 2 * m);
    ModSplit(n0, p, 2, 2 * p);
  }

  // Both parts of a split have at least one digit and the lengths of the next level.
  lemma SplitLens(n: nat, n0: nat, level: nat)
    requires n >= 2 && LevelLen(n, n0, level)
    ensures var n2 := LowLen(n0, level); 1 <= n2 < n && LevelLen(n2, n0, level + 1) && LevelLen(n - n2, n0, level + 1)
  {
    HalfLen(n0, level);
    var p, q := Pow2(level), n0 / Pow2(level);
    hide Pow2;
    LensArith(n, q, n0 % p, p, n0 / Pow2(level + 1), n0 % Pow2(level + 1), q % 2, LowLen(n0, level));
  }

  lemma LensArith(n: int, q: int, m: int, p: int, q': int, m': int, odd: int, n2: int)
    requires n >= 2 && (n == q || (n == q + 1 && m != 0)) && q >= 0 && 0 <= m && p > 0 && odd == q % 2 &&
             q' == q / 2 && m' == m + p * odd && n2 == (q + 1) / 2
    ensures 1 <= n2 < n && (n2 == q' || (n2 == q' + 1 && m' != 0)) && (n - n2 == q' || (n - n2 == q' + 1 && m' != 0))
  {
    assert odd == 0 || odd == 1;
    if odd == 1 {
      assert p * odd == p;
    } else {
      assert p * odd == 0;
    }
  }

  // A level that splits is below the number of entries allocated for the powers.
  lemma LevelBound(n: nat, n0: nat, level: nat)
    requires n >= 2 && LevelLen(n, n0, level)
    ensures level < CeilLog2(n0)
  {
    var p, k := Pow2(level), CeilLog2(n0);
    assert n0 > p by {
      hide Pow2;
      assert n0 == (n0 / p) * p + n0 % p;
      MulMono(1, n0 / p, p);
      if n0 / p >= 2 {
        MulMono(2, n0 / p, p);
      }
    }
    hide Pow2;
    PowerLess(level, k);
  }

  // The table of powers: entry k is empty or holds the power that splits level k.
  ghost predicate PowTab(tab: seq<nat>, n0: nat, radix: nat) {
    |tab| == CeilLog2(n0) + 2 && forall k: nat :: k < |tab| ==> tab[k] == 0 || tab[k] == RadixPow(radix, LowLen(n0, k))
  }

  // ----- From digits -----

  lemma JoinParts(x: seq<Limb>, n2: nat, radix: nat)
    requires n2 <= |x|
    ensures Number(x, radix) == Number(x[n2..], radix) * RadixPow(radix, n2) + Number(x[..n2], radix)
  {
    assert x == x[..n2] + x[n2..];
    NumberConcat(x[..n2], x[n2..], radix);
    assert Number(x[n2..], radix) * RadixPow(radix, n2) == RadixPow(radix, n2) * Number(x[n2..], radix);
  }

  // The power for a level, computed when the level is first used.
  method LevelPower(powTab: array<nat>, level: nat, n0: nat, radix: nat) returns (b: nat)
    requires radix >= 2 && PowTab(powTab[..], n0, radix) && level < CeilLog2(n0)
    modifies powTab
    ensures PowTab(powTab[..], n0, radix) && b == RadixPow(radix, LowLen(n0, level)) && b >= 1
  {
    hide CeilLog2;
    hide LowLen;
    hide RadixPow;
    RadixPowPositive(radix, LowLen(n0, level));
    if powTab[level] == 0 {
      powTab[level] := RadixPow(radix, LowLen(n0, level));
    }
    b := powTab[level];
    assert powTab[..][level] == b;
  }

  // bf_integer_from_radix_rec, on digits tab
  method FromRadixRec(tab: seq<Limb>, level: nat, n0: nat, radix: nat, powTab: array<nat>) returns (r: nat)
    requires radix >= 2 && |tab| >= 1 && LevelLen(|tab|, n0, level) && PowTab(powTab[..], n0, radix)
    modifies powTab
    ensures r == Number(tab, radix) && PowTab(powTab[..], n0, radix)
    decreases |tab|
  {
    hide PowTab;
    hide LevelLen;
    hide RadixPow;
    hide LowLen;
    var n := |tab|;
    if n == 1 {
      assert Number(tab[1..], radix) == 0;
      return tab[0];
    }
    SplitLens(n, n0, level);
    LevelBound(n, n0, level);
    var n2 := LowLen(n0, level);
    var b := LevelPower(powTab, level, n0, radix);
    r := FromRadixRec(tab[n2..], level + 1, n0, radix, powTab);
    r := r * b;
    var t := FromRadixRec(tab[..n2], level + 1, n0, radix, powTab);
    JoinParts(tab, n2, radix);
    r := r + t;
  }

  // bf_integer_from_radix: the value of the digits
  method FromRadix(tab: seq<Limb>, radix: nat) returns (r: nat)
    requires radix >= 2 && |tab| >= 1
    ensures r == Number(tab, radix)
  {
    var powTab := new nat[CeilLog2(|tab|) + 2](_ => 0);
    FirstLevel(|tab|);
    r := FromRadixRec(tab, 0, |tab|, radix, powTab);
  }

  lemma FirstLevel(n: nat)
    ensures LevelLen(n, n, 0)
  {
    assert Pow2(0) == 1;
    DivIs(n, 1, n, 0);
  }

  // ----- To digits -----

  // The estimate q is repaired until the remainder is in range: the exact quotient and remainder.
  method Adjust(a: nat, b: nat, q0: int) returns (q: nat, r: nat)
    requires b >= 1
    ensures a == q * b + r && r < b
  {
    var rem := a - q0 * b;
    var qAdd := 0;
    while rem < 0
      invariant rem == a - (q0 + qAdd) * b && (rem < b || qAdd == 0)
      decreases -rem
    {
      rem := rem + b;
      Repair(a, b, q0 + qAdd, 1);
      qAdd := qAdd - 1;
      Repair(a, b, q0 + qAdd + 1, -1);
    }
    while rem >= b
      invariant rem == a - (q0 + qAdd) * b && rem >= 0
      decreases rem
    {
      rem := rem - b;
      Repair(a, b, q0 + qAdd, 1);
      qAdd := qAdd + 1;
    }
    QuotientSign(a, b, q0 + qAdd, rem);
    q, r := q0 + qAdd, rem;
  }

  lemma Repair(a: int, b: int, q: int, d: int)
    ensures (q + d) * b == q * b + d * b
  {
  }

  lemma QuotientSign(a: int, b: int, q: int, r: int)
    requires a >= 0 && b >= 1 && r == a - q * b && r < b
    ensures q >= 0
  {
    assert (q + 1) * b == q * b + b;
    MulCancelLess(0, q + 1, b);
  }

  // The quotient has the digits of the high part.
  lemma QuotientFits(a: nat, q: nat, r: nat, radix: nat, n: nat, n2: nat)
    requires radix >= 1 && n2 <= n && a < RadixPow(radix, n) && a == q * RadixPow(radix, n2) + r
    ensures q < RadixPow(radix, n - n2)
  {
    RadixPowAdd(radix, n - n2, n2);
    RadixPowPositive(radix, n2);
    MulCancelLess(q, RadixPow(radix, n - n2), RadixPow(radix, n2));
  }

  // out holds the n digits of a from offset o on.
  ghost predicate Holds(out: seq<Limb>, o: nat, n: nat, a: nat, radix: nat) {
    o + n <= |out| && Digits(out[o..o + n], radix) && Number(out[o..o + n], radix) == a
  }

  lemma HoldsBoth(out: seq<Limb>, o: nat, n2: nat, n: nat, a: nat, q: nat, r: nat, radix: nat)
    requires n2 <= n && Holds(out, o, n2, r, radix) && Holds(out, o + n2, n - n2, q, radix) &&
             a == q * RadixPow(radix, n2) + r
    ensures Holds(out, o, n, a, radix)
  {
    var x := out[o..o + n];
    assert x[..n2] == out[o..o + n2] && x[n2..] == out[o + n2..o + n2 + (n - n2)];
    JoinParts(x, n2, radix);
    forall i | 0 <= i < n ensures x[i] < radix {
      if i < n2 {
        assert x[i] == x[..n2][i];
      } else {
        assert x[i] == x[n2..][i - n2];
      }
    }
  }

  lemma HoldsStill(was: seq<Limb>, now: seq<Limb>, o: nat, n: nat, a: nat, radix: nat, o': nat, n': nat)
    requires Holds(was, o, n, a, radix) && Outside(was, now, o', n') && (o + n <= o' || o' + n' <= o)
    ensures Holds(now, o, n, a, radix)
  {
    assert was[o..o + n] == now[o..o + n];
  }

  // One and two digits are written at once.
  method FewDigits(out: array<Limb>, o: nat, a: nat, n: nat, radix: nat)
    requires 2 <= radix < B && 1 <= n <= 2 && o + n <= out.Length && a < RadixPow(radix, n)
    modifies out
    ensures Holds(out[..], o, n, a, radix) && Outside(old(out[..]), out[..], o, n)
  {
    hide RadixPow;
    hide Number;
    if n == 1 {
      OneDigit(a, radix);
      out[o] := a;
      assert out[o..o + 1] == [out[o]];
    } else {
      TwoDigits(a, radix);
      out[o] := a % radix;
      out[o + 1] := a / radix;
      assert out[o..o + 2] == [out[o], out[o + 1]];
    }
  }

  lemma OneDigit(a: nat, radix: nat)
    requires 2 <= radix < B && a < RadixPow(radix, 1)
    ensures a < radix && Number([a], radix) == a
  {
    assert RadixPow(radix, 1) == radix * RadixPow(radix, 0);
    assert [a as Limb][1..] == [];
    assert Number([a], radix) == a + radix * Number([a as Limb][1..], radix);
  }

  lemma TwoDigits(a: nat, radix: nat)
    requires 2 <= radix < B && a < RadixPow(radix, 2)
    ensures 0 <= a % radix < radix && 0 <= a / radix < radix && Number([a % radix, a / radix], radix) == a
  {
    assert RadixPow(radix, 1) == radix * RadixPow(radix, 0) && RadixPow(radix, 2) == radix * RadixPow(radix, 1);
    hide RadixPow;
    TwoParts(a, radix);
    PairNumber(a % radix, a / radix, radix);
  }

  lemma TwoParts(a: nat, radix: nat)
    requires radix >= 2 && a < radix * radix
    ensures 0 <= a % radix < radix && 0 <= a / radix < radix && a == a % radix + radix * (a / radix)
  {
    assert a == (a / radix) * radix + a % radix;
    MulCancelLess(a / radix, radix, radix);
    DivNonNeg(a, radix);
  }

  lemma PairNumber(low: Limb, high: Limb, radix: nat)
    ensures Number([low, high], radix) == low + radix * high
  {
    assert [low, high][1..] == [high] && [high][1..] == [];
    assert Number([high], radix) == high + radix * Number([], radix);
    assert radix * 0 == 0;
  }

  // bf_integer_to_radix_rec; estimate stands for the rounded product with an approximate inverse
  method ToRadixRec(powTab: array<nat>, out: array<Limb>, o: nat, a: nat, n: nat, level: nat, n0: nat, radix: nat,
                    estimate: (nat, nat, nat) -> int)
    requires 2 <= radix < B && n >= 1 && LevelLen(n, n0, level) && PowTab(powTab[..], n0, radix)
    requires o + n <= out.Length && a < RadixPow(radix, n) && powTab as object != out as object
    modifies powTab, out
    ensures PowTab(powTab[..], n0, radix) && Holds(out[..], o, n, a, radix) && Outside(old(out[..]), out[..], o, n)
    decreases n
  {
    hide PowTab;
    hide LevelLen;
    hide RadixPow;
    hide LowLen;
    hide Holds;
    ghost var was := out[..];
    if n <= 2 {
      FewDigits(out, o, a, n, radix);
      return;
    }
    SplitLens(n, n0, level);
    LevelBound(n, n0, level);
    var n2 := LowLen(n0, level);
    var b := LevelPower(powTab, level, n0, radix);
    var q, r := Adjust(a, b, estimate(a, b, n - n2));
    QuotientFits(a, q, r, radix, n, n2);
    ToRadixRec(powTab, out, o + n2, q, n - n2, level + 1, n0, radix, estimate);
    ghost var mid := out[..];
    ToRadixRec(powTab, out, o, r, n2, level + 1, n0, radix, estimate);
    HoldsStill(mid, out[..], o + n2, n - n2, q, radix, o, n2);
    HoldsBoth(out[..], o, n2, n, a, q, r, radix);
  }

  // bf_integer_to_radix: the n digits of a, whatever the estimates are
  method ToRadix(out: array<Limb>, a: nat, radix: nat, estimate: (nat, nat, nat) -> int)
    requires 2 <= radix < B && out.Length >= 1 && a < RadixPow(radix, out.Length)
    modifies out
    ensures Digits(out[..], radix) && Number(out[..], radix) == a
  {
    var n := out.Length;
    var powTab := new nat[CeilLog2(n) + 2](_ => 0);
    FirstLevel(n);
    ToRadixRec(powTab, out, 0, a, n, 0, n, radix, estimate);
    assert out[0..0 + n] == out[..];
  }

  // Converting to digits and back gives the number.
  method RoundTrip(a: nat, n: nat, radix: nat, estimate: (nat, nat, nat) -> int) returns (r: nat)
    requires 2 <= radix < B && n >= 1 && a < RadixPow(radix, n)
    ensures r == a
  {
    var out := new Limb[n];
    ToRadix(out, a, radix, estimate);
    r := FromRadix(out[..], radix);
  }
}
