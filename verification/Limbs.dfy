// Little-endian numbers in base B = 2^64, as quickjs/libbf.c keeps them in limb arrays.

module Limbs {

  const LIMB_BITS: int := 64
  const B: int := 0x1_0000_0000_0000_0000
  const HALF: int := 0x8000_0000_0000_0000

  type Limb = x: int | 0 <= x < B

  // B^n
  function Pow(n: nat): (p: int)
    ensures p >= 1
  {
    if n == 0 then 1 else B * Pow(n - 1)
  }

  // Value of the limbs, least significant first.
  function Val(s: seq<Limb>): int {
    if s == [] then 0 else Val(s[..|s| - 1]) + s[|s| - 1] * Pow(|s| - 1)
  }

  // limb_t arithmetic wraps.
  function Wrap(x: int): Limb {
    x % B
  }

  // 2^n
  function Pow2(n: nat): (p: int)
    ensures p >= 1
  {
    if n == 0 then 1 else 2 * Pow2(n - 1)
  }

  lemma {:induction false} Pow2Add(m: nat, n: nat)
    ensures Pow2(m + n) == Pow2(m) * Pow2(n)
  {
    if m > 0 {
      Pow2Add(m - 1, n);
    }
  }

  lemma Pow2Small()
    ensures Pow2(0) == 1 && Pow2(1) == 2 && Pow2(8) == 0x100
  {
    assert Pow2(4) == 2 * Pow2(3) && Pow2(3) == 2 * Pow2(2) && Pow2(2) == 2 * Pow2(1) && Pow2(1) == 2 * Pow2(0);
    Pow2Add(4, 4);
  }

  lemma Pow2Limb()
    ensures Pow2(LIMB_BITS) == B && Pow2(LIMB_BITS - 1) == HALF
  {
    Pow2Small();
    Pow2Add(8, 8);
    Pow2Add(16, 16);
    Pow2Add(32, 32);
    Pow2Add(1, 63);
    hide Pow2;
    assert Pow2(16) == 0x100 * 0x100 && Pow2(32) == 0x1_0000 * 0x1_0000;
  }

  // A shift count splits the limb.
  lemma Pow2Split(n: nat)
    requires n <= LIMB_BITS
    ensures Pow2(n) * Pow2(LIMB_BITS - n) == B
  {
    Pow2Limb();
    Pow2Add(n, LIMB_BITS - n);
  }

  // ----- Products -----

  lemma MulMono(a: int, b: int, c: int)
    requires a <= b && 0 <= c
    ensures a * c <= b * c && c * a <= c * b
  {
  }

  lemma MulStrict(a: int, b: int, c: int)
    requires a < b && 0 < c
    ensures a * c < b * c && c * a < c * b
  {
  }

  lemma MulPos(a: int, b: int)
    requires 0 <= a && 0 <= b
    ensures 0 <= a * b
  {
  }

  // Comparing multiples compares the factors.
  lemma MulCancelLess(a: int, b: int, c: int)
    requires a * c < b * c && 0 < c
    ensures a < b
  {
    if b <= a {
      MulMono(b, a, c);
    }
  }

  lemma {:induction false} PowAdd(m: nat, n: nat)
    ensures Pow(m + n) == Pow(m) * Pow(n)
  {
    if m > 0 {
      PowAdd(m - 1, n);
      assert B * (Pow(m - 1) * Pow(n)) == (B * Pow(m - 1)) * Pow(n);
    }
  }

  lemma {:induction false} PowMono(m: nat, n: nat)
    requires m <= n
    ensures Pow(m) <= Pow(n)
  {
    if m < n {
      PowMono(m, n - 1);
    }
  }

  lemma PowOne()
    ensures Pow(0) == 1 && Pow(1) == B
  {
    assert Pow(1) == B * Pow(0);
  }

  // ----- Values -----

  lemma {:induction false} ValBound(s: seq<Limb>)
    ensures 0 <= Val(s) < Pow(|s|)
  {
    if s != [] {
      var n, x := |s| - 1, s[|s| - 1];
      ValBound(s[..n]);
      MulMono(x + 1, B, Pow(n));
      MulPos(x, Pow(n));
      assert (x + 1) * Pow(n) == x * Pow(n) + Pow(n);
    }
  }

  lemma ValSnoc(s: seq<Limb>, x: Limb)
    ensures Val(s + [x]) == Val(s) + x * Pow(|s|)
  {
    assert (s + [x])[..|s|] == s;
  }

  lemma ValOne(x: Limb)
    ensures Val([x]) == x
  {
    assert [x] == [] + [x];
    ValSnoc([], x);
  }

  lemma {:induction false} ValConcat(s: seq<Limb>, t: seq<Limb>)
    ensures Val(s + t) == Val(s) + Val(t) * Pow(|s|)
  {
    if t == [] {
      assert s + t == s;
    } else {
      var n := |t| - 1;
      ValConcat(s, t[..n]);
      assert (s + t)[..|s + t| - 1] == s + t[..n];
      PowAdd(|s|, n);
      Shift(Val(t[..n]), t[n], Pow(n), Pow(|s|));
    }
  }

  lemma Shift(v: int, x: int, w: int, p: int)
    ensures (v + x * w) * p == v * p + x * (p * w)
  {
    assert (x * w) * p == x * (p * w);
  }

  lemma ValCons(x: Limb, t: seq<Limb>)
    ensures Val([x] + t) == x + Val(t) * B
  {
    ValOne(x);
    PowOne();
    ValConcat([x], t);
  }

  // Splitting at limb k.
  lemma ValSplit(s: seq<Limb>, k: nat)
    requires k <= |s|
    ensures Val(s) == Val(s[..k]) + Val(s[k..]) * Pow(k)
    ensures 0 <= Val(s[..k]) < Pow(k) && 0 <= Val(s[k..]) < Pow(|s| - k)
  {
    assert s == s[..k] + s[k..];
    ValConcat(s[..k], s[k..]);
    ValBound(s[..k]);
    ValBound(s[k..]);
  }

  lemma {:induction false} ValZeros(s: seq<Limb>)
    requires forall k :: 0 <= k < |s| ==> s[k] == 0
    ensures Val(s) == 0
  {
    if s != [] {
      ValZeros(s[..|s| - 1]);
    }
  }

  lemma {:induction false} ValPositive(s: seq<Limb>, i: nat)
    requires i < |s| && s[i] > 0
    ensures Val(s) > 0
  {
    var n := |s| - 1;
    ValBound(s[..n]);
    MulPos(s[n], Pow(n));
    if i < n {
      ValPositive(s[..n], i);
    } else {
      MulMono(1, s[n], Pow(n));
    }
  }

  // Quotient and remainder are determined by their defining inequalities.
  lemma DivUnique(b: int, q: int, r: int, q': int, r': int)
    requires q * b + r == q' * b + r' && 0 <= r < b && 0 <= r' < b
    ensures q == q' && r == r'
  {
    assert (q + 1) * b == q * b + b && (q' + 1) * b == q' * b + b;
    MulCancelLess(q, q' + 1, b);
    MulCancelLess(q', q + 1, b);
  }

  // The limbs are determined by the value.
  lemma {:induction false} ValUnique(s: seq<Limb>, t: seq<Limb>)
    requires |s| == |t| && Val(s) == Val(t)
    ensures s == t
  {
    if s != [] {
      var n := |s| - 1;
      ValBound(s[..n]);
      ValBound(t[..n]);
      DivUnique(Pow(n), s[n], Val(s[..n]), t[n], Val(t[..n]));
      ValUnique(s[..n], t[..n]);
      assert s == s[..n] + [s[n]] && t == t[..n] + [t[n]];
    }
  }

  // ----- Stretches of an array -----

  // Value of the n limbs from offset o.
  ghost function At(a: array<Limb>, o: nat, n: nat): int
    requires o + n <= a.Length
    reads a
  {
    Val(a[o..o + n])
  }

  lemma AtBound(a: array<Limb>, o: nat, n: nat)
    requires o + n <= a.Length
    ensures 0 <= At(a, o, n) < Pow(n)
  {
    ValBound(a[o..o + n]);
  }

  lemma AtSnoc(a: array<Limb>, o: nat, n: nat)
    requires o + n + 1 <= a.Length
    ensures At(a, o, n + 1) == At(a, o, n) + a[o + n] * Pow(n)
  {
    assert a[o..o + n + 1] == a[o..o + n] + [a[o + n]];
    ValSnoc(a[o..o + n], a[o + n]);
  }

  lemma AtCons(a: array<Limb>, o: nat, n: nat)
    requires o + n + 1 <= a.Length
    ensures At(a, o, n + 1) == a[o] + At(a, o + 1, n) * B
  {
    assert a[o..o + n + 1] == [a[o]] + a[o + 1..o + 1 + n];
    ValCons(a[o], a[o + 1..o + 1 + n]);
  }

  lemma AtConcat(a: array<Limb>, o: nat, m: nat, n: nat)
    requires o + m + n <= a.Length
    ensures At(a, o, m + n) == At(a, o, m) + At(a, o + m, n) * Pow(m)
  {
    assert a[o..o + m + n] == a[o..o + m] + a[o + m..o + m + n];
    ValConcat(a[o..o + m], a[o + m..o + m + n]);
  }

  // Only the n limbs from offset o have changed.
  ghost predicate Outside(was: seq<Limb>, now: seq<Limb>, o: nat, n: nat) {
    |was| == |now| && forall j :: 0 <= j < |now| && (j < o || o + n <= j) ==> now[j] == was[j]
  }
}
