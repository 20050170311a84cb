// get_bits, put_bits and ceil_log2 of quickjs/libbf.c: limbs at bit positions that need not be
// multiples of the limb size.

module Bits {
  import opened Limbs

  // ----- Division -----

  lemma DivIs(v: int, d: int, q: int, r: int)
    requires v == q * d + r && 0 <= r < d
    ensures v / d == q && v % d == r
  {
    DivUnique(d, v / d, v % d, q, r);
  }

  lemma DivZero(v: int, d: int)
    requires 0 <= v < d
    ensures v / d == 0 && v % d == v
  {
    DivIs(v, d, 0, v);
  }

  lemma ModSplit(u: int, p: int, q: int, d: int)
    requires p > 0 && q > 0 && d == p * q
    ensures u % d == u % p + p * ((u / p) % q)
    ensures (u / p) / q == u / d
    ensures 0 <= u % d < d
  {
    var x, y := u / p, u % p;
    var c, e := x / q, x % q;
    assert u == x * p + y && x == c * q + e;
    assert (c * q + e) * p == c * d + p * e;
    MulMono(e, q - 1, p);
    assert (q - 1) * p == d - p;
    MulPos(e, p);
    DivIs(u, d, c, y + p * e);
  }

  // The low bits of a remainder.
  lemma ModMod(u: int, p: int, q: int, d: int)
    requires p > 0 && q > 0 && d == p * q
    ensures (u % d) % p == u % p
  {
    ModSplit(u, p, q, d);
    var y, e := u % p, (u / p) % q;
    assert e * p == p * e;
    DivIs(u % d, p, e, y);
  }

  lemma DivNonNeg(v: int, d: int)
    requires v >= 0 && d > 0
    ensures v / d >= 0
  {
  }

  lemma {:induction false} PowPow2(i: nat)
    ensures Pow(i) == Pow2(LIMB_BITS * i)
  {
    if i > 0 {
      PowPow2(i - 1);
      Pow2Limb();
      Pow2Add(LIMB_BITS, LIMB_BITS * (i - 1));
    }
  }

  lemma {:induction false} Pow2Mono(m: nat, n: nat)
    requires m <= n
    ensures Pow2(m) <= Pow2(n)
  {
    if m < n {
      Pow2Mono(m, n - 1);
    }
  }

  lemma Pow2Order(m: nat, n: nat)
    ensures m <= n ==> Pow2(m) <= Pow2(n)
  {
    if m <= n {
      Pow2Mono(m, n);
    }
  }

  lemma PowerLess(a: nat, b: nat)
    requires Pow2(a) < Pow2(b)
    ensures a < b
  {
    hide Pow2;
    Pow2Order(b, a);
  }

  lemma ModAtMost(a: int, n: int)
    requires a >= 0 && n > 0
    ensures 0 <= a % n <= a
  {
    var q := a / n;
    assert a == q * n + a % n;
    DivNonNeg(a, n);
    MulPos(q, n);
  }

  // A bit position is a limb and a shift within it.
  lemma BitPosition(i: nat, p: nat)
    requires p < LIMB_BITS
    ensures Pow2(LIMB_BITS * i + p) == Pow(i) * Pow2(p)
  {
    PowPow2(i);
    Pow2Add(LIMB_BITS * i, p);
  }

  // ----- Reading -----

  // Limb i, zero outside.
  function LimbAt(tab: seq<Limb>, i: int): Limb {
    if 0 <= i < |tab| then tab[i] else 0
  }

  // The 64 bits of v from bit position pos on; positions below zero read zero bits.
  ghost function Window(v: int, pos: int): int {
    (if pos >= 0 then v / Pow2(pos) else v * Pow2(-pos)) % B
  }

  // get_bits
  function GetBits(tab: seq<Limb>, pos: int): (r: Limb)
    ensures r == Window(Val(tab), pos)
  {
    var i, p := pos / LIMB_BITS, pos % LIMB_BITS;
    WindowIs(tab, pos);
    if p == 0 then LimbAt(tab, i)
    else LimbAt(tab, i) / Pow2(p) + (LimbAt(tab, i + 1) * Pow2(LIMB_BITS - p)) % B
  }

  lemma JoinArith(a0: int, a1: int, p: int, q: int)
    requires p > 0 && q > 0 && p * q == B && 0 <= a0 < B && 0 <= a1 < B
    ensures (a1 * q) % B == (a1 % p) * q && 0 <= a0 / p < q && 0 <= a0 / p + (a1 * q) % B < B
  {
    var c, e, x, y := a1 / p, a1 % p, a0 / p, a0 % p;
    assert a1 == c * p + e && a0 == x * p + y;
    ProductSplit(a1, c, e, p, q);
    MulMono(e, p - 1, q);
    MulPos(e, q);
    assert (p - 1) * q == B - q;
    DivIs(a1 * q, B, c, e * q);
    assert q * p == B;
    MulCancelLess(x, q, p);
    MulCancelLess(-1, x, p);
  }

  lemma ProductSplit(a: int, c: int, e: int, p: int, q: int)
    requires a == c * p + e && p * q == B
    ensures a * q == c * B + e * q
  {
    assert (c * p) * q == c * (p * q);
  }

  lemma WindowIs(tab: seq<Limb>, pos: int)
    ensures var i, p := pos / LIMB_BITS, pos % LIMB_BITS;
      p == 0 ==> Window(Val(tab), pos) == LimbAt(tab, i)
    ensures var i, p := pos / LIMB_BITS, pos % LIMB_BITS;
      p != 0 ==> Window(Val(tab), pos) == LimbAt(tab, i) / Pow2(p) + (LimbAt(tab, i + 1) * Pow2(LIMB_BITS - p)) % B
  {
    hide Pow2;
    hide Val;
    hide Pow;
    hide LimbAt;
    var i, p := pos / LIMB_BITS, pos % LIMB_BITS;
    ValBound(tab);
    Pow2Split(p);
    if i < 0 {
      WindowBelow(tab, pos, i, p);
    } else {
      var lo, hi, rest := Parts(tab, i);
      WindowParts(Val(tab), pos, i, p, lo, LimbAt(tab, i), LimbAt(tab, i + 1), hi, rest);
    }
    assert p == 0 ==> Pow2(p) == 1 by { Pow2Small(); }
    if p == 0 {
      assert Pow2(LIMB_BITS - p) == B;
    }
  }

  // The value around limb i.
  lemma Parts(tab: seq<Limb>, i: nat) returns (lo: int, hi: int, rest: int)
    ensures Val(tab) == lo + (LimbAt(tab, i) + B * hi) * Pow(i) && 0 <= lo < Pow(i)
    ensures hi == LimbAt(tab, i + 1) + B * rest && rest >= 0
  {
    hide Val;
    ValBound(tab);
    if i >= |tab| {
      PowMono(|tab|, i);
      lo, hi, rest := Val(tab), 0, 0;
    } else {
      ValSplit(tab, i);
      lo, hi := Val(tab[..i]), Val(tab[i + 1..]);
      assert tab[i..] == [tab[i]] + tab[i + 1..];
      ValCons(tab[i], tab[i + 1..]);
      if i + 1 == |tab| {
        ValZeros(tab[i + 1..]);
        rest := 0;
      } else {
        rest := Val(tab[i + 2..]);
        ValBound(tab[i + 2..]);
        assert tab[i + 1..] == [tab[i + 1]] + tab[i + 2..];
        ValCons(tab[i + 1], tab[i + 2..]);
      }
    }
  }

  lemma WindowArith(v: int, w: int, lo: int, a0: int, a1: int, hi: int, rest: int, p: int, q: int, d: int)
    requires d == w * p && v == lo + (a0 + B * hi) * w && 0 <= lo < w && hi == a1 + B * rest && p * q == B && p > 0 &&
             q > 0
    requires 0 <= a0 < B && 0 <= a1 < B && rest >= 0
    ensures (v / d) % B == a0 / p + (a1 * q) % B
  {
    JoinArith(a0, a1, p, q);
    var x, y := a0 / p, a0 % p;
    var m := x + q * hi;
    assert a0 + B * hi == m * p + y by {
      assert a0 == x * p + y;
      assert (q * hi) * p == B * hi;
    }
    Spread(m, p, y, w);
    MulMono(y + 1, p, w);
    assert (y + 1) * w == y * w + w;
    MulPos(y, w);
    DivIs(v, d, m, lo + y * w);
    var c := (a1 * q) / B;
    assert a1 * q == c * B + (a1 * q) % B;
    Gather(q, a1, rest, hi);
    DivIs(m, B, q * rest + c, x + (a1 * q) % B);
  }

  lemma Spread(m: int, p: int, y: int, w: int)
    ensures (m * p + y) * w == m * (w * p) + y * w
  {
  }

  lemma Gather(q: int, a1: int, rest: int, hi: int)
    requires hi == a1 + B * rest
    ensures q * hi == a1 * q + (q * rest) * B
  {
  }

  lemma ZeroShift(a0: int, a1: int, q: int)
    requires q == B
    ensures a0 / 1 + (a1 * q) % B == a0
  {
    DivIs(a1 * B, B, a1, 0);
  }

  lemma WindowParts(v: int, pos: int, i: nat, p: nat, lo: int, a0: int, a1: int, hi: int, rest: int)
    requires pos == LIMB_BITS * i + p && p < LIMB_BITS
    requires v == lo + (a0 + B * hi) * Pow(i) && 0 <= lo < Pow(i) && hi == a1 + B * rest
    requires 0 <= a0 < B && 0 <= a1 < B && rest >= 0
    ensures Window(v, pos) == a0 / Pow2(p) + (a1 * Pow2(LIMB_BITS - p)) % B
    ensures p == 0 ==> Window(v, pos) == a0
  {
    BitPosition(i, p);
    Pow2Split(p);
    Pow2Small();
    hide Pow2;
    hide Pow;
    WindowArith(v, Pow(i), lo, a0, a1, hi, rest, Pow2(p), Pow2(LIMB_BITS - p), Pow2(pos));
    if p == 0 {
      ZeroShift(a0, a1, Pow2(LIMB_BITS - p));
    }
  }

  lemma WindowBelow(tab: seq<Limb>, pos: int, i: int, p: nat)
    requires i == pos / LIMB_BITS && p == pos % LIMB_BITS && pos < 0
    ensures p == 0 ==> Window(Val(tab), pos) == LimbAt(tab, i)
    ensures p != 0 ==> Window(Val(tab), pos) == LimbAt(tab, i) / Pow2(p)
                         + (LimbAt(tab, i + 1) * Pow2(LIMB_BITS - p)) % B
  {
    Pow2Limb();
    hide Pow2;
    hide Val;
    var v := Val(tab);
    DivZero(0, Pow2(p));
    if p != 0 && i == -1 {
      var lo, hi, rest := Parts(tab, 0);
      PowOne();
      assert v == LimbAt(tab, 0) + B * hi;
      BelowArith(v, LimbAt(tab, 0), hi, Pow2(LIMB_BITS - p));
    } else {
      Pow2Add(LIMB_BITS, -pos - LIMB_BITS);
      var e := Pow2(-pos - LIMB_BITS);
      assert v * (B * e) == (v * e) * B;
      DivIs(v * Pow2(-pos), B, v * e, 0);
      DivIs(0, B, 0, 0);
    }
  }

  lemma BelowArith(v: int, a: int, hi: int, q: int)
    requires v == a + B * hi
    ensures (v * q) % B == (a * q) % B
  {
    var c, d := (a * q) / B, (a * q) % B;
    assert v * q == a * q + (hi * q) * B;
    assert (c + hi * q) * B == c * B + (hi * q) * B;
    DivIs(v * q, B, c + hi * q, d);
  }

  // ----- Writing -----

  lemma HighArith(v: int, lo: int, t: int, up: int, w: int, p: int)
    requires v == lo + (t + up * B) * w && v < w * p && lo >= 0 && t >= 0 && up >= 0 && w > 0 && p <= B
    ensures up == 0 && t < p
  {
    MulCancelLess(t + up * B, p, w);
  }

  // The limb at bit position pos and those after it hold nothing from pos on.
  lemma HighZero(tab: seq<Limb>, i: nat, p: nat)
    requires p < LIMB_BITS && Val(tab) < Pow(i) * Pow2(p) && i < |tab|
    ensures tab[i] < Pow2(p) && forall j :: i < j < |tab| ==> tab[j] == 0
  {
    hide Pow2;
    hide Val;
    hide Pow;
    ValAround(tab, i);
    ValBound(tab[..i]);
    ValBound(tab[i + 1..]);
    Pow2Split(p);
    MulMono(1, Pow2(LIMB_BITS - p), Pow2(p));
    HighArith(Val(tab), Val(tab[..i]), tab[i], Val(tab[i + 1..]), Pow(i), Pow2(p));
    forall j | i < j < |tab| ensures tab[j] == 0 {
      if tab[j] > 0 {
        assert tab[j] == tab[i + 1..][j - i - 1];
        ValPositive(tab[i + 1..], j - i - 1);
      }
    }
  }

  // put_bits: the bits of tab from pos on are zero, so or-ing is adding. Bits past the end are lost.
  method PutBits(tab: array<Limb>, pos: nat, val: Limb)
    requires Val(tab[..]) < Pow2(pos)
    modifies tab
    ensures Val(tab[..]) == (old(Val(tab[..])) + val * Pow2(pos)) % Pow(tab.Length)
  {
    hide Pow2;
    hide Val;
    hide Pow;
    var i, p := pos / LIMB_BITS, pos % LIMB_BITS;
    ghost var was := tab[..];
    ValBound(was);
    BitPosition(i, p);
    Pow2Split(p);
    var low: Limb, high: Limb := (val * Pow2(p)) % B, val / Pow2(LIMB_BITS - p);
    assert val * Pow2(p) == high * B + low by {
      LowBits(0, val, Pow2(p), Pow2(LIMB_BITS - p));
    }
    if i < tab.Length {
      HighZero(was, i, p);
      LowBits(tab[i], val, Pow2(p), Pow2(LIMB_BITS - p));
      tab[i] := tab[i] as int + low;
      ghost var mid := tab[..];
      UpdateValue(was, mid, i, low);
      if p != 0 && i + 1 < tab.Length {
        assert tab[i + 1] == 0;
        tab[i + 1] := tab[i + 1] as int + high;
        UpdateValue(mid, tab[..], i + 1, high);
      }
    }
    PutDone(was, tab[..], i, p, val, low, high);
  }

  lemma LowBits(t: int, val: int, p: int, q: int)
    requires p > 0 && q > 0 && p * q == B && 0 <= t < p && 0 <= val < B
    ensures 0 <= t + (val * p) % B < B && val * p == (val / q) * B + (val * p) % B && 0 <= val / q < p
  {
    assert q * p == B;
    JoinArith(val, val, q, p);
    var c, e := val / q, val % q;
    assert val == c * q + e;
    ProductSplit(val, c, e, q, p);
    assert (val * p) % B == e * p;
    MulMono(e, q - 1, p);
    assert (q - 1) * p == B - p;
  }

  lemma UpdateArith(v: int, v': int, lo: int, a: int, d: int, up: int, w: int)
    requires v == lo + (a + up) * w && v' == lo + (a + d + up) * w
    ensures v' == v + d * w
  {
  }

  lemma HeadTail(t: seq<Limb>)
    requires t != []
    ensures Val(t) == t[0] + Val(t[1..]) * B
  {
    hide Val;
    assert t == [t[0]] + t[1..];
    ValCons(t[0], t[1..]);
  }

  lemma DropDrop(s: seq<Limb>, i: nat)
    requires i < |s|
    ensures s[i..] != [] && s[i..][0] == s[i] && s[i..][1..] == s[i + 1..]
  {
  }

  lemma ValAround(s: seq<Limb>, i: nat)
    requires i < |s|
    ensures Val(s) == Val(s[..i]) + (s[i] + Val(s[i + 1..]) * B) * Pow(i)
  {
    hide Val;
    hide Pow;
    DropDrop(s, i);
    ValSplit(s, i);
    HeadTail(s[i..]);
    var x: int := s[i] + Val(s[i + 1..]) * B;
    assert Val(s[i..]) == x;
    Replace(Val(s), Val(s[..i]), Val(s[i..]), x, Pow(i));
  }

  lemma Replace(v: int, lo: int, x: int, y: int, w: int)
    requires v == lo + x * w && x == y
    ensures v == lo + y * w
  {
  }

  lemma UpdateValue(was: seq<Limb>, now: seq<Limb>, i: nat, d: int)
    requires |was| == |now| && i < |was| && forall j :: 0 <= j < |was| && j != i ==> now[j] == was[j]
    requires now[i] == was[i] + d
    ensures Val(now) == Val(was) + d * Pow(i)
  {
    hide Val;
    hide Pow;
    ValAround(was, i);
    ValAround(now, i);
    assert was[..i] == now[..i] && was[i + 1..] == now[i + 1..];
    UpdateArith(Val(was), Val(now), Val(was[..i]), was[i], d, Val(now[i + 1..]) * B, Pow(i));
  }

  lemma PutArith(val: int, p: int, w: int, q: int, r: int)
    requires val * p == q * B + r
    ensures val * (w * p) == (val * p) * w && val * (w * p) == q * (B * w) + r * w
  {
    assert val * (w * p) == (val * p) * w;
  }

  lemma DropAbove(v: int, more: int, w: int, up: int, n: int, now: int)
    requires w == n * up && v == more * w + now && 0 <= now < n
    ensures v % n == now
  {
    assert more * (n * up) == (more * up) * n;
    DivIs(v, n, more * up, now);
  }

  lemma PutDone(was: seq<Limb>, now: seq<Limb>, i: nat, p: nat, val: Limb, r: int, q: int)
    requires p < LIMB_BITS && |was| == |now| && val * Pow2(p) == q * B + r && q == val / Pow2(LIMB_BITS - p)
    requires Val(now) == Val(was) + (if i < |was| then r * Pow(i) else 0)
                                  + (if p != 0 && i + 1 < |was| then q * Pow(i + 1) else 0)
    ensures Val(now) == (Val(was) + val * (Pow(i) * Pow2(p))) % Pow(|was|)
  {
    ValBound(now);
    Pow2Small();
    hide Pow2;
    hide Val;
    var n := |was|;
    assert p == 0 ==> q == 0 by {
      if p == 0 {
        Pow2Limb();
        DivZero(val, B);
      }
    }
    assert Pow(i + 1) == B * Pow(i);
    hide Pow;
    PutArith(val, Pow2(p), Pow(i), q, r);
    var v := Val(was) + val * (Pow(i) * Pow2(p));
    if i >= n {
      PowAdd(n, i - n);
      DropAbove(v, val * Pow2(p), Pow(i), Pow(i - n), Pow(n), Val(now));
    } else if i + 1 >= n {
      PowAdd(n, i + 1 - n);
      DropAbove(v, q, Pow(i + 1), Pow(i + 1 - n), Pow(n), Val(now));
    } else {
      DropAbove(v, 0, Pow(n), 1, Pow(n), Val(now));
    }
  }

  // ----- Bit lengths -----

  // The position after the highest bit set: LIMB_BITS - clz(x) for a limb x.
  function BitLen(x: nat): (k: nat)
    ensures x < Pow2(k) && (k == 0 || Pow2(k - 1) <= x)
  {
    if x == 0 then 0 else 1 + BitLen(x / 2)
  }

  lemma {:induction false} BitLenBound(x: nat, n: nat)
    requires x < Pow2(n)
    ensures BitLen(x) <= n
  {
    if x != 0 {
      assert n > 0;
      BitLenBound(x / 2, n - 1);
    }
  }

  // clz
  function Clz(x: Limb): nat {
    Pow2Limb();
    BitLenBound(x, LIMB_BITS);
    LIMB_BITS - BitLen(x)
  }

  // ceil_log2
  function CeilLog2(a: nat): (k: nat)
    ensures a <= Pow2(k) && (k == 0 || Pow2(k - 1) < a)
  {
    if a <= 1 then 0 else BitLen(a - 1)
  }

  // ----- Bitwise operations -----

  datatype LogicOp = OR | XOR | AND

  function OpBit(op: LogicOp, b: int, c: int): int {
    match op
    case OR => if b == 1 || c == 1 then 1 else 0
    case XOR => if b == c then 0 else 1
    case AND => if b == 1 && c == 1 then 1 else 0
  }

  // a | b, a ^ b and a & b
  function Bitwise(op: LogicOp, x: nat, y: nat): nat
    decreases x + y
  {
    if x == 0 && y == 0 then 0 else 2 * Bitwise(op, x / 2, y / 2) + OpBit(op, x % 2, y % 2)
  }

  lemma {:induction false} BitwiseBelow(op: LogicOp, x: nat, y: nat, n: nat)
    requires x < Pow2(n) && y < Pow2(n)
    ensures Bitwise(op, x, y) < Pow2(n)
    decreases n
  {
    if x != 0 || y != 0 {
      assert n > 0;
      BitwiseBelow(op, x / 2, y / 2, n - 1);
    }
  }

  // Bit k of an integer, in two's complement.
  ghost function Bit(x: int, k: nat): int {
    (x / Pow2(k)) % 2
  }

  lemma HalfDiv(x: int, k: nat)
    ensures x / Pow2(k + 1) == (x / 2) / Pow2(k)
  {
    var p := Pow2(k);
    assert Pow2(k + 1) == 2 * p;
    hide Pow2;
    ModSplit(x, 2, p, 2 * p);
  }

  lemma BitZero(x: int)
    ensures Bit(x, 0) == x % 2
  {
    assert Pow2(0) == 1;
    DivIs(x, 1, x, 0);
  }

  lemma {:induction false} BitwiseBit(op: LogicOp, x: nat, y: nat, k: nat)
    ensures Bit(Bitwise(op, x, y), k) == OpBit(op, Bit(x, k), Bit(y, k))
    decreases k
  {
    var z, b := Bitwise(op, x / 2, y / 2), OpBit(op, x % 2, y % 2);
    assert Bitwise(op, x, y) == 2 * z + b;
    DivIs(2 * z + b, 2, z, b);
    hide Bitwise;
    if k == 0 {
      BitZero(x);
      BitZero(y);
      BitZero(Bitwise(op, x, y));
    } else {
      BitwiseBit(op, x / 2, y / 2, k - 1);
      HalfDiv(x, k - 1);
      HalfDiv(y, k - 1);
      HalfDiv(Bitwise(op, x, y), k - 1);
    }
  }
}
