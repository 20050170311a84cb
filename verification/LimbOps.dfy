// The linear passes over limb arrays of quickjs/libbf.c: addition, subtraction, shifts and
// multiplication by a limb, with carries and borrows in wrapping arithmetic.

module LimbOps {
  import opened Limbs

  // Writing n limbs at (r, ro) in ascending order does not disturb the limbs at (a, ao) before
  // they are read.
  ghost predicate Ahead(r: array<Limb>, ro: nat, a: array<Limb>, ao: nat, n: nat) {
    r != a || ro <= ao || ao + n <= ro
  }

  // One limb of a pass with (signed) carry c: the digit sum d + c splits into x and c', and the
  // total so far grows by d at weight p.
  lemma Digit(v: int, x: int, c: int, c': int, t: int, d: int, p: int)
    requires v + c * p == t && x + c' * B == d + c
    ensures v + x * p + c' * (B * p) == t + d * p
  {
    assert x == d + c - c' * B;
  }

  lemma Spread(a: int, b: int, m: int, p: int)
    ensures (a + b * m) * p == a * p + (b * p) * m
  {
  }

  // The same for the limbs of a result.
  lemma CarryStep(rs: seq<Limb>, x: Limb, c: int, c': int, t: int, d: int)
    requires Val(rs) + c * Pow(|rs|) == t && x + c' * B == d + c
    ensures Val(rs + [x]) + c' * Pow(|rs| + 1) == t + d * Pow(|rs|)
  {
    hide Val;
    ValSnoc(rs, x);
    PowStep(|rs|);
    hide Pow;
    Digit(Val(rs), x, c, c', t, d, Pow(|rs|));
  }

  lemma PowStep(n: nat)
    ensures Pow(n + 1) == B * Pow(n)
  {
  }

  lemma TakeSnoc(s: seq<Limb>, i: nat)
    requires i < |s|
    ensures Val(s[..i + 1]) == Val(s[..i]) + s[i] * Pow(i)
  {
    assert s[..i + 1] == s[..i] + [s[i]];
    ValSnoc(s[..i], s[i]);
  }

  // ----- Additions and subtractions -----

  lemma AddStep(rs: seq<Limb>, x: Limb, k: int, k': int, a: seq<Limb>, b: seq<Limb>, i: nat, carry: int)
    requires |rs| == i < |a| && |a| == |b| && x + k' * B == a[i] as int + b[i] + k
    requires Val(rs) + k * Pow(i) == Val(a[..i]) + Val(b[..i]) + carry
    ensures Val(rs + [x]) + k' * Pow(i + 1) == Val(a[..i + 1]) + Val(b[..i + 1]) + carry
  {
    hide Val;
    hide Pow;
    TakeSnoc(a, i);
    TakeSnoc(b, i);
    CarryStep(rs, x, k, k', Val(a[..i]) + Val(b[..i]) + carry, a[i] as int + b[i]);
    Spread(a[i], b[i], 1, Pow(i));
  }

  lemma SubStep(rs: seq<Limb>, x: Limb, k: int, k': int, a: seq<Limb>, b: seq<Limb>, i: nat, carry: int)
    requires |rs| == i < |a| && |a| == |b| && x - k' * B == a[i] as int - b[i] - k
    requires Val(rs) - k * Pow(i) == Val(a[..i]) - Val(b[..i]) - carry
    ensures Val(rs + [x]) - k' * Pow(i + 1) == Val(a[..i + 1]) - Val(b[..i + 1]) - carry
  {
    hide Val;
    hide Pow;
    TakeSnoc(a, i);
    TakeSnoc(b, i);
    CarryStep(rs, x, -k, -k', Val(a[..i]) - Val(b[..i]) - carry, a[i] as int - b[i]);
    Spread(a[i], b[i], -1, Pow(i));
  }

  lemma Start(r: seq<Limb>, a: seq<Limb>, b: seq<Limb>)
    requires r == []
    ensures Val(r) == 0 && Val(a[..0]) == 0 && Val(b[..0]) == 0 && Pow(0) == 1
  {
  }

  // Two limbs and a carry, the carry out being read off from wrapped sums.
  method AddLimb(v: Limb, w: Limb, carry: Limb) returns (a: Limb, k: Limb)
    requires carry <= 1
    ensures a + k * B == v as int + w + carry && k <= 1
  {
    a := Wrap(v + w);
    var k1 := if a < v then 1 else 0;
    a := Wrap(a + carry);
    k := if a < carry || k1 == 1 then 1 else 0;
  }

  method SubLimb(v: Limb, w: Limb, borrow: Limb) returns (r: Limb, k: Limb)
    requires borrow <= 1
    ensures r - k * B == v as int - w - borrow && k <= 1
  {
    var a := Wrap(v - w);
    var k1 := if a > v then 1 else 0;
    r := Wrap(a - borrow);
    k := if r > a || k1 == 1 then 1 else 0;
  }

  method BumpLimb(v: Limb, k: Limb) returns (a: Limb, k': Limb)
    ensures a + k' * B == v as int + k && k' <= 1
  {
    a := Wrap(v + k);
    k' := if a < k then 1 else 0;
  }

  method DropLimb(v: Limb, k: Limb) returns (a: Limb, k': Limb)
    ensures a - k' * B == v as int - k && k' <= 1
  {
    a := Wrap(v - k);
    k' := if a > v then 1 else 0;
  }

  // mp_add: res := op1 + op2 + carry; returns the carry out.
  method MpAdd(res: array<Limb>, ro: nat, op1: array<Limb>, o1: nat, op2: array<Limb>, o2: nat, n: nat, carry: Limb)
    returns (k: Limb)
    requires ro + n <= res.Length && o1 + n <= op1.Length && o2 + n <= op2.Length && carry <= 1
    requires Ahead(res, ro, op1, o1, n) && Ahead(res, ro, op2, o2, n)
    modifies res
    ensures k <= 1 && Outside(old(res[..]), res[..], ro, n)
    ensures At(res, ro, n) + k * Pow(n) == old(At(op1, o1, n)) + old(At(op2, o2, n)) + carry
  {
    hide Val;
    hide Pow;
    ghost var a, b := op1[o1..o1 + n], op2[o2..o2 + n];
    k := carry;
    var i := 0;
    Start(res[ro..ro], a, b);
    while i < n
      invariant 0 <= i <= n && k <= 1
      invariant Outside(old(res[..]), res[..], ro, i)
      invariant forall j :: o1 + i <= j < o1 + n ==> op1[j] == old(op1[j])
      invariant forall j :: o2 + i <= j < o2 + n ==> op2[j] == old(op2[j])
      invariant Val(res[ro..ro + i]) + k * Pow(i) == Val(a[..i]) + Val(b[..i]) + carry
    {
      ghost var rs, k0 := res[ro..ro + i], k;
      var x;
      x, k := AddLimb(op1[o1 + i], op2[o2 + i], k);
      res[ro + i] := x;
      AddStep(rs, x, k0, k, a, b, i, carry);
      assert res[ro..ro + (i + 1)] == rs + [x];
      i := i + 1;
    }
    assert a[..n] == a && b[..n] == b;
  }

  // mp_sub: res := op1 - op2 - carry; returns the borrow out.
  method MpSub(res: array<Limb>, ro: nat, op1: array<Limb>, o1: nat, op2: array<Limb>, o2: nat, n: nat, carry: Limb)
    returns (k: Limb)
    requires ro + n <= res.Length && o1 + n <= op1.Length && o2 + n <= op2.Length && carry <= 1
    requires Ahead(res, ro, op1, o1, n) && Ahead(res, ro, op2, o2, n)
    modifies res
    ensures k <= 1 && Outside(old(res[..]), res[..], ro, n)
    ensures At(res, ro, n) - k * Pow(n) == old(At(op1, o1, n)) - old(At(op2, o2, n)) - carry
  {
    hide Val;
    hide Pow;
    ghost var a, b := op1[o1..o1 + n], op2[o2..o2 + n];
    k := carry;
    var i := 0;
    Start(res[ro..ro], a, b);
    while i < n
      invariant 0 <= i <= n && k <= 1
      invariant Outside(old(res[..]), res[..], ro, i)
      invariant forall j :: o1 + i <= j < o1 + n ==> op1[j] == old(op1[j])
      invariant forall j :: o2 + i <= j < o2 + n ==> op2[j] == old(op2[j])
      invariant Val(res[ro..ro + i]) - k * Pow(i) == Val(a[..i]) - Val(b[..i]) - carry
    {
      ghost var rs, k0 := res[ro..ro + i], k;
      var x;
      x, k := SubLimb(op1[o1 + i], op2[o2 + i], k);
      res[ro + i] := x;
      SubStep(rs, x, k0, k, a, b, i, carry);
      assert res[ro..ro + (i + 1)] == rs + [x];
      i := i + 1;
    }
    assert a[..n] == a && b[..n] == b;
  }

  lemma NegStep(rs: seq<Limb>, x: Limb, k: int, k': int, b: seq<Limb>, i: nat, carry: int)
    requires |rs| == i < |b| && x - k' * B == -(b[i] as int) - k
    requires Val(rs) - k * Pow(i) == -Val(b[..i]) - carry
    ensures Val(rs + [x]) - k' * Pow(i + 1) == -Val(b[..i + 1]) - carry
  {
    hide Val;
    hide Pow;
    TakeSnoc(b, i);
    CarryStep(rs, x, -k, -k', -Val(b[..i]) - carry, -(b[i] as int));
    Spread(0, b[i], -1, Pow(i));
  }

  // mp_neg: res := -op2 - carry; returns the borrow out.
  method MpNeg(res: array<Limb>, ro: nat, op2: array<Limb>, o2: nat, n: nat, carry: Limb) returns (k: Limb)
    requires ro + n <= res.Length && o2 + n <= op2.Length && carry <= 1
    requires Ahead(res, ro, op2, o2, n)
    modifies res
    ensures k <= 1 && Outside(old(res[..]), res[..], ro, n)
    ensures At(res, ro, n) - k * Pow(n) == -old(At(op2, o2, n)) - carry
  {
    hide Val;
    hide Pow;
    ghost var b := op2[o2..o2 + n];
    k := carry;
    var i := 0;
    Start(res[ro..ro], b, b);
    while i < n
      invariant 0 <= i <= n && k <= 1
      invariant Outside(old(res[..]), res[..], ro, i)
      invariant forall j :: o2 + i <= j < o2 + n ==> op2[j] == old(op2[j])
      invariant Val(res[ro..ro + i]) - k * Pow(i) == -Val(b[..i]) - carry
    {
      ghost var rs, k0 := res[ro..ro + i], k;
      var x;
      x, k := SubLimb(0, op2[o2 + i], k);
      res[ro + i] := x;
      NegStep(rs, x, k0, k, b, i, carry);
      assert res[ro..ro + (i + 1)] == rs + [x];
      i := i + 1;
    }
    assert b[..n] == b;
  }

  lemma UiStep(rs: seq<Limb>, x: Limb, c: int, c': int, a: seq<Limb>, i: nat, t: int)
    requires |rs| == i < |a| && x + c' * B == a[i] as int + c
    requires Val(rs) + c * Pow(i) == Val(a[..i]) + t
    ensures Val(rs + [x]) + c' * Pow(i + 1) == Val(a[..i + 1]) + t
  {
    hide Val;
    hide Pow;
    TakeSnoc(a, i);
    CarryStep(rs, x, c, c', Val(a[..i]) + t, a[i]);
  }

  lemma UiDown(rs: seq<Limb>, x: Limb, k: int, k': int, a: seq<Limb>, i: nat, t: int)
    requires |rs| == i < |a| && x - k' * B == a[i] as int - k
    requires Val(rs) - k * Pow(i) == Val(a[..i]) - t
    ensures Val(rs + [x]) - k' * Pow(i + 1) == Val(a[..i + 1]) - t
  {
    hide Val;
    hide Pow;
    Signs(k, Pow(i), k', Pow(i + 1));
    UiStep(rs, x, -k, -k', a, i, -t);
  }

  // Once the carry is zero the rest stays as it is.
  lemma UiRest(now: seq<Limb>, a: seq<Limb>, i: nat, t: int)
    requires |now| == |a| && i <= |a| && now[i..] == a[i..] && Val(now[..i]) == Val(a[..i]) + t
    ensures Val(now) == Val(a) + t
  {
    hide Val;
    hide Pow;
    ValSplit(now, i);
    ValSplit(a, i);
  }

  // mp_add_ui: tab := tab + b; returns the carry out.
  method MpAddUi(tab: array<Limb>, o: nat, b: Limb, n: nat) returns (k: Limb)
    requires o + n <= tab.Length
    modifies tab
    ensures Outside(old(tab[..]), tab[..], o, n) && (n > 0 ==> k <= 1)
    ensures At(tab, o, n) + k * Pow(n) == old(At(tab, o, n)) + b
  {
    hide Val;
    hide Pow;
    ghost var a := tab[o..o + n];
    k := b;
    var i := 0;
    Start(tab[o..o], a, a);
    while i < n
      invariant 0 <= i <= n && (i > 0 ==> k <= 1)
      invariant forall j :: 0 <= j < tab.Length && (j < o || o + i <= j) ==> tab[j] == old(tab[j])
      invariant Val(tab[o..o + i]) + k * Pow(i) == Val(a[..i]) + b
    {
      if k == 0 {
        break;
      }
      ghost var rs, k0 := tab[o..o + i], k;
      var x;
      x, k := BumpLimb(tab[o + i], k);
      tab[o + i] := x;
      UiStep(rs, x, k0, k, a, i, b);
      assert tab[o..o + (i + 1)] == rs + [x];
      i := i + 1;
    }
    assert a[..n] == a;
    if i < n {
      ghost var now := tab[o..o + n];
      assert now[..i] == tab[o..o + i];
      assert now[i..] == a[i..];
      UiRest(now, a, i, b);
    }
  }

  // mp_sub_ui: tab := tab - b; returns the borrow out.
  method MpSubUi(tab: array<Limb>, o: nat, b: Limb, n: nat) returns (k: Limb)
    requires o + n <= tab.Length
    modifies tab
    ensures Outside(old(tab[..]), tab[..], o, n) && (n > 0 ==> k <= 1)
    ensures At(tab, o, n) - k * Pow(n) == old(At(tab, o, n)) - b
  {
    hide Val;
    hide Pow;
    ghost var a := tab[o..o + n];
    k := b;
    var i := 0;
    Start(tab[o..o], a, a);
    while i < n
      invariant 0 <= i <= n && (i > 0 ==> k <= 1)
      invariant forall j :: 0 <= j < tab.Length && (j < o || o + i <= j) ==> tab[j] == old(tab[j])
      invariant Val(tab[o..o + i]) - k * Pow(i) == Val(a[..i]) - b
    {
      ghost var rs, k0 := tab[o..o + i], k;
      var x;
      x, k := DropLimb(tab[o + i], k);
      tab[o + i] := x;
      UiDown(rs, x, k0, k, a, i, b);
      assert tab[o..o + (i + 1)] == rs + [x];
      i := i + 1;
      if k == 0 {
        break;
      }
    }
    assert a[..n] == a;
    if i < n {
      ghost var now := tab[o..o + n];
      assert now[..i] == tab[o..o + i];
      assert now[i..] == a[i..];
      UiRest(now, a, i, -(b as int));
    }
  }

  lemma Signs(k: int, p: int, k': int, p': int)
    ensures (-k) * p == -(k * p) && (-k') * p' == -(k' * p')
  {
  }

  // ----- Shifting right -----

  // One limb of mp_shr, with S = 2^shift: l carries in from above.
  lemma ShrArith(a: int, l: int, s: int, d: int, x: int, v: int, t: int)
    requires s > 0 && s * d == B && x == a / s + (l % s) * d && v * s + l % s == t
    ensures (x + v * B) * s + a % s == a + t * B
  {
    assert x * s == (a / s) * s + ((l % s) * d) * s;
    assert ((l % s) * d) * s == (l % s) * (s * d);
    assert (v * B) * s == (v * s) * B;
    assert (x + v * B) * s == x * s + (v * B) * s;
    assert a == (a / s) * s + a % s;
    assert t * B == (v * s) * B + (l % s) * B;
  }

  // l & ((1 << shift) - 1)
  function LowBits(l: Limb, shift: nat): (r: Limb)
    ensures r < Pow2(shift) && r == l % Pow2(shift)
  {
    ModRange(l, Pow2(shift));
    l % Pow2(shift)
  }

  lemma ModRange(l: int, p: int)
    requires 0 <= l && 0 < p
    ensures 0 <= l % p < p && l % p <= l
  {
    MulPos(l / p, p);
    assert l == (l / p) * p + l % p;
  }

  ghost predicate ShrDigit(x: Limb, a: Limb, l: Limb, shift: nat)
    requires shift <= LIMB_BITS
  {
    x == a / Pow2(shift) + (l % Pow2(shift)) * Pow2(LIMB_BITS - shift)
  }

  // (a >> shift) | (l << (LIMB_BITS - shift)); the two parts have no bit in common.
  method ShrLimb(a: Limb, l: Limb, shift: nat) returns (x: Limb)
    requires 1 <= shift < LIMB_BITS
    ensures ShrDigit(x, a, l, shift)
  {
    hide Pow2;
    Pow2Split(shift);
    ShiftParts(a, l, Pow2(shift), Pow2(LIMB_BITS - shift));
    x := a / Pow2(shift) + Wrap(l * Pow2(LIMB_BITS - shift));
  }

  lemma ShiftParts(a: Limb, l: Limb, s: int, d: int)
    requires s > 0 && d > 0 && s * d == B
    ensures (l * d) % B == (l % s) * d
    ensures 0 <= a / s && 0 <= (l % s) * d && a / s + (l % s) * d < B
  {
    var q, r := l / s, l % s;
    assert l == q * s + r;
    assert l * d == q * (s * d) + r * d by {
      assert (q * s + r) * d == (q * s) * d + r * d;
      assert (q * s) * d == q * (s * d);
    }
    MulPos(r, d);
    MulMono(r, s - 1, d);
    assert (s - 1) * d == s * d - d;
    ModUnique(l * d, q, r * d);
    QuotientBelow(a, s, d);
  }

  lemma ModUnique(x: int, q: int, r: int)
    requires x == q * B + r && 0 <= r < B
    ensures x % B == r
  {
  }

  lemma QuotientBelow(a: int, s: int, d: int)
    requires 0 <= a < s * d && s > 0
    ensures 0 <= a / s < d
  {
    assert a == (a / s) * s + a % s;
    MulCancelLess(a / s, d, s);
  }

  // The limbs shifted so far, with the bits carried out of them.
  ghost predicate Shifted(now: seq<Limb>, carried: int, rest: seq<Limb>, high: int, shift: nat) {
    |now| == |rest| && Val(now) * Pow2(shift) + carried == Val(rest) + high * Pow(|rest|)
  }

  lemma ShrStart(high: int, shift: nat)
    ensures Shifted([], high, [], high, shift)
  {
  }

  lemma ShrDone(now: seq<Limb>, carried: int, rest: seq<Limb>, high: int, shift: nat)
    requires Shifted(now, carried, rest, high, shift)
    ensures Val(now) * Pow2(shift) + carried == Val(rest) + high * Pow(|rest|)
  {
  }

  lemma ShrStep(now: seq<Limb>, x: Limb, a: Limb, rest: seq<Limb>, l: Limb, high: int, shift: nat)
    requires 1 <= shift < LIMB_BITS && ShrDigit(x, a, l, shift)
    requires Shifted(now, LowBits(l, shift), rest, high, shift)
    ensures Shifted([x] + now, LowBits(a, shift), [a] + rest, high, shift)
  {
    hide Val;
    hide Pow2;
    Pow2Split(shift);
    ValCons(x, now);
    ValCons(a, rest);
    PowStep(|rest|);
    hide Pow;
    ShrArith(a, l, Pow2(shift), Pow2(LIMB_BITS - shift), x, Val(now), Val(rest) + high * Pow(|rest|));
    assert (Val(rest) + high * Pow(|rest|)) * B == Val(rest) * B + high * (B * Pow(|rest|));
  }

  // mp_shr: res := (tab + high * B^n) >> shift; returns the bits shifted out.
  method MpShr(res: array<Limb>, ro: nat, tab: array<Limb>, o: nat, n: nat, shift: nat, high: Limb) returns (rem: Limb)
    requires ro + n <= res.Length && o + n <= tab.Length && 1 <= shift < LIMB_BITS
    requires res != tab || o <= ro || ro + n <= o
    modifies res
    ensures Outside(old(res[..]), res[..], ro, n) && rem < Pow2(shift)
    ensures At(res, ro, n) * Pow2(shift) + rem == old(At(tab, o, n)) + LowBits(high, shift) * Pow(n)
  {
    hide Val;
    hide Pow;
    hide Pow2;
    hide Shifted;
    hide LowBits;
    hide ShrDigit;
    ghost var a, h := tab[o..o + n], LowBits(high, shift);
    var l: Limb := high;
    var i := n;
    ShrStart(h, shift);
    assert a[n..] == [] && res[ro + n..ro + n] == [];
    while i > 0
      invariant 0 <= i <= n
      invariant forall j :: 0 <= j < res.Length && (j < ro + i || ro + n <= j) ==> res[j] == old(res[j])
      invariant forall j :: o <= j < o + i ==> tab[j] == old(tab[j])
      invariant Shifted(res[ro + i..ro + n], LowBits(l, shift), a[i..], h, shift)
    {
      i := i - 1;
      ghost var now := res[ro + (i + 1)..ro + n];
      var v := tab[o + i];
      var x := ShrLimb(v, l, shift);
      ShrStep(now, x, v, a[i + 1..], l, h, shift);
      res[ro + i] := x;
      assert res[ro + i..ro + n] == [x] + now && a[i..] == [v] + a[i + 1..];
      l := v;
    }
    assert a[0..] == a;
    ShrDone(res[ro..ro + n], LowBits(l, shift), a, h, shift);
    rem := LowBits(l, shift);
  }

  // ----- Multiplication by a limb -----

  lemma ProductBound(a: Limb, b: Limb)
    ensures 0 <= a * b <= (B - 1) * (B - 1)
  {
    MulMono(a, B - 1, b);
    MulMono(b, B - 1, B - 1);
    MulPos(a, b);
  }

  // A double-width product plus two limbs, split into its halves.
  method MulLimb(a: Limb, b: Limb, l: Limb, r: Limb) returns (x: Limb, high: Limb)
    ensures x + high * B == a as int * b + l + r
  {
    ProductBound(a, b);
    var t := a as int * b + l + r;
    assert t / B < B;
    x := Wrap(t);
    high := t / B;
  }

  // r - a * b - l, with the borrow that the next limb owes.
  method MulSubLimb(r: Limb, a: Limb, b: Limb, l: Limb) returns (x: Limb, borrow: Limb)
    ensures x - borrow * B == r as int - a as int * b - l
  {
    ProductBound(a, b);
    var d: int := r as int - a as int * b - l;
    var t := d % (B * B);
    DoubleWord(d);
    x := Wrap(t);
    borrow := Wrap(-(t / B));
  }

  // d taken modulo B^2 has the limbs of d, its high half standing for a negative number.
  lemma DoubleWord(d: int)
    requires -(B - 1) * B <= d < B
    ensures (d % (B * B)) % B - ((-(d % (B * B) / B)) % B) * B == d
  {
    var t := d % (B * B);
    if d >= 0 {
      assert t == d;
    } else {
      assert t == d + B * B;
    }
  }

  lemma MulStep(rs: seq<Limb>, x: Limb, l: int, l': int, r: int, a: seq<Limb>, i: nat, b: int, t: int)
    requires |rs| == i < |a| && x + l' * B == a[i] * b + r + l
    requires Val(rs) + l * Pow(i) == Val(a[..i]) * b + t
    ensures Val(rs + [x]) + l' * Pow(i + 1) == Val(a[..i + 1]) * b + (t + r * Pow(i))
  {
    hide Val;
    hide Pow;
    TakeSnoc(a, i);
    CarryStep(rs, x, l, l', Val(a[..i]) * b + t, a[i] * b + r);
    Spread(a[i] * b, r, 1, Pow(i));
    Weights(Val(a[..i]), a[i], Pow(i), b);
  }

  lemma Weights(v: int, a: int, p: int, b: int)
    ensures (v + a * p) * b == v * b + (a * b) * p
  {
    assert (a * p) * b == (a * b) * p;
  }

  // mp_mul1: res := tab * b + l; returns the high limb.
  method MpMul1(res: array<Limb>, ro: nat, tab: array<Limb>, o: nat, n: nat, b: Limb, l0: Limb) returns (l: Limb)
    requires ro + n <= res.Length && o + n <= tab.Length && Ahead(res, ro, tab, o, n)
    modifies res
    ensures Outside(old(res[..]), res[..], ro, n)
    ensures At(res, ro, n) + l * Pow(n) == old(At(tab, o, n)) * b + l0
  {
    hide Val;
    hide Pow;
    ghost var a := tab[o..o + n];
    l := l0;
    var i := 0;
    Start(res[ro..ro], a, a);
    while i < n
      invariant 0 <= i <= n
      invariant forall j :: 0 <= j < res.Length && (j < ro || ro + i <= j) ==> res[j] == old(res[j])
      invariant forall j :: o + i <= j < o + n ==> tab[j] == old(tab[j])
      invariant Val(res[ro..ro + i]) + l * Pow(i) == Val(a[..i]) * b + l0
    {
      ghost var rs, was := res[ro..ro + i], l;
      var x;
      x, l := MulLimb(tab[o + i], b, l, 0);
      res[ro + i] := x;
      MulStep(rs, x, was, l, 0, a, i, b, l0);
      assert res[ro..ro + (i + 1)] == rs + [x];
      i := i + 1;
    }
    assert a[..n] == a;
  }

  // mp_add_mul1: res := res + tab * b; returns the high limb.
  method MpAddMul1(res: array<Limb>, ro: nat, tab: array<Limb>, o: nat, n: nat, b: Limb) returns (l: Limb)
    requires ro + n <= res.Length && o + n <= tab.Length && Ahead(res, ro, tab, o, n)
    modifies res
    ensures Outside(old(res[..]), res[..], ro, n)
    ensures At(res, ro, n) + l * Pow(n) == old(At(res, ro, n)) + old(At(tab, o, n)) * b
  {
    hide Val;
    hide Pow;
    ghost var a, r := tab[o..o + n], res[ro..ro + n];
    l := 0;
    var i := 0;
    Start(res[ro..ro], a, r);
    while i < n
      invariant 0 <= i <= n
      invariant forall j :: 0 <= j < res.Length && (j < ro || ro + i <= j) ==> res[j] == old(res[j])
      invariant forall j :: o + i <= j < o + n ==> tab[j] == old(tab[j])
      invariant Val(res[ro..ro + i]) + l * Pow(i) == Val(a[..i]) * b + Val(r[..i])
    {
      ghost var rs, was := res[ro..ro + i], l;
      var x;
      x, l := MulLimb(tab[o + i], b, l, res[ro + i]);
      res[ro + i] := x;
      MulStep(rs, x, was, l, r[i], a, i, b, Val(r[..i]));
      TakeSnoc(r, i);
      assert res[ro..ro + (i + 1)] == rs + [x];
      i := i + 1;
    }
    assert a[..n] == a && r[..n] == r;
  }

  lemma MulSubStep(rs: seq<Limb>, x: Limb, l: int, l': int, r: seq<Limb>, a: seq<Limb>, i: nat, b: int)
    requires |rs| == i < |a| && |a| == |r| && x - l' * B == r[i] - a[i] * b - l
    requires Val(rs) - l * Pow(i) == Val(r[..i]) - Val(a[..i]) * b
    ensures Val(rs + [x]) - l' * Pow(i + 1) == Val(r[..i + 1]) - Val(a[..i + 1]) * b
  {
    hide Val;
    hide Pow;
    TakeSnoc(a, i);
    TakeSnoc(r, i);
    Signs(l, Pow(i), l', Pow(i + 1));
    CarryStep(rs, x, -l, -l', Val(r[..i]) - Val(a[..i]) * b, r[i] - a[i] * b);
    Spread(r[i], a[i] * b, -1, Pow(i));
    Weights(Val(a[..i]), a[i], Pow(i), b);
  }

  // mp_sub_mul1: res := res - tab * b; returns what the next limb owes.
  method MpSubMul1(res: array<Limb>, ro: nat, tab: array<Limb>, o: nat, n: nat, b: Limb) returns (l: Limb)
    requires ro + n <= res.Length && o + n <= tab.Length && Ahead(res, ro, tab, o, n)
    modifies res
    ensures Outside(old(res[..]), res[..], ro, n)
    ensures At(res, ro, n) - l * Pow(n) == old(At(res, ro, n)) - old(At(tab, o, n)) * b
  {
    hide Val;
    hide Pow;
    ghost var a, r := tab[o..o + n], res[ro..ro + n];
    l := 0;
    var i := 0;
    Start(res[ro..ro], a, r);
    while i < n
      invariant 0 <= i <= n
      invariant forall j :: 0 <= j < res.Length && (j < ro || ro + i <= j) ==> res[j] == old(res[j])
      invariant forall j :: o + i <= j < o + n ==> tab[j] == old(tab[j])
      invariant Val(res[ro..ro + i]) - l * Pow(i) == Val(r[..i]) - Val(a[..i]) * b
    {
      ghost var rs, was := res[ro..ro + i], l;
      var x;
      x, l := MulSubLimb(res[ro + i], tab[o + i], b, l);
      res[ro + i] := x;
      MulSubStep(rs, x, was, l, r, a, i, b);
      assert res[ro..ro + (i + 1)] == rs + [x];
      i := i + 1;
    }
    assert a[..n] == a && r[..n] == r;
  }

  // ----- Schoolbook multiplication -----

  lemma BaseStep(low: int, p: int, row: int, was: int, a: int, d: int, q: int)
    requires row == was + a * d && low + was * p == a * q
    ensures low + row * p == a * (q + d * p)
  {
    assert row * p == was * p + (a * d) * p;
    assert a * (q + d * p) == a * q + (a * d) * p;
  }

  // One row: add op1 * d at offset i, the rows below it being op1 * q.
  method MulRow(res: array<Limb>, ro: nat, op1: array<Limb>, o1: nat, n1: nat, d: Limb, i: nat, ghost q: int)
    requires ro + n1 + i + 1 <= res.Length && o1 + n1 <= op1.Length && res != op1
    requires At(res, ro, n1 + i) == At(op1, o1, n1) * q
    modifies res
    ensures Outside(old(res[..]), res[..], ro, n1 + i + 1)
    ensures At(res, ro, n1 + i + 1) == At(op1, o1, n1) * (q + d * Pow(i))
  {
    hide Val;
    hide Pow;
    AtConcat(res, ro, i, n1);
    ghost var a := At(op1, o1, n1);
    ghost var low, was, before := At(res, ro, i), At(res, ro + i, n1), res[ro..ro + i];
    var r := MpAddMul1(res, ro + i, op1, o1, n1, d);
    res[ro + i + n1] := r;
    assert res[ro..ro + i] == before;
    TopLimb(res, ro + i, n1, r, was + a * d);
    AtConcat(res, ro, i, n1 + 1);
    BaseStep(low, Pow(i), At(res, ro + i, n1 + 1), was, a, d, q);
  }

  // mp_mul_basecase: res := op1 * op2, over n1 + n2 limbs.
  method MpMulBasecase(res: array<Limb>, ro: nat, op1: array<Limb>, o1: nat, n1: nat, op2: array<Limb>, o2: nat,
                       n2: nat)
    requires n2 >= 1 && ro + n1 + n2 <= res.Length && o1 + n1 <= op1.Length && o2 + n2 <= op2.Length
    requires res != op1 && res != op2
    modifies res
    ensures Outside(old(res[..]), res[..], ro, n1 + n2)
    ensures At(res, ro, n1 + n2) == old(At(op1, o1, n1)) * old(At(op2, o2, n2))
  {
    hide Val;
    hide Pow;
    ghost var a, b := At(op1, o1, n1), op2[o2..o2 + n2];
    var l := MpMul1(res, ro, op1, o1, n1, op2[o2], 0);
    res[ro + n1] := l;
    FirstDigit(b);
    TopLimb(res, ro, n1, l, a * b[0]);
    var i := 1;
    while i < n2
      invariant 1 <= i <= n2
      invariant forall j :: 0 <= j < res.Length && (j < ro || ro + n1 + n2 <= j) ==> res[j] == old(res[j])
      invariant At(res, ro, n1 + i) == a * Val(b[..i])
    {
      MulRow(res, ro, op1, o1, n1, op2[o2 + i], i, Val(b[..i]));
      TakeSnoc(b, i);
      i := i + 1;
    }
    assert b[..n2] == b;
  }

  lemma FirstDigit(b: seq<Limb>)
    requires b != []
    ensures Val(b[..1]) == b[0]
  {
    assert b[..1] == [b[0]];
    ValOne(b[0]);
  }

  // The carry out of a pass, stored as the next limb.
  lemma TopLimb(r: array<Limb>, ro: nat, n: nat, l: Limb, total: int)
    requires ro + n + 1 <= r.Length && r[ro + n] == l && At(r, ro, n) + l * Pow(n) == total
    ensures At(r, ro, n + 1) == total
  {
    hide Val;
    hide Pow;
    AtSnoc(r, ro, n);
  }

  // ----- Comparison -----

  lemma TopDecides(s: seq<Limb>, t: seq<Limb>, i: nat)
    requires |s| == |t| && i < |s| && s[i + 1..] == t[i + 1..] && s[i] < t[i]
    ensures Val(s) < Val(t)
  {
    hide Val;
    hide Pow;
    ValSplit(s, i + 1);
    ValSplit(t, i + 1);
    TakeSnoc(s, i);
    TakeSnoc(t, i);
    ValSplit(s, i);
    ValSplit(t, i);
    MulMono(s[i] as int + 1, t[i], Pow(i));
    Spread(s[i], 1, 1, Pow(i));
  }

  // mp_cmp
  method MpCmp(a: array<Limb>, ao: nat, b: array<Limb>, bo: nat, n: nat) returns (c: int)
    requires ao + n <= a.Length && bo + n <= b.Length
    ensures c == if At(a, ao, n) < At(b, bo, n) then -1 else if At(a, ao, n) > At(b, bo, n) then 1 else 0
  {
    hide Val;
    ghost var s, t := a[ao..ao + n], b[bo..bo + n];
    var i := n;
    while i > 0
      invariant 0 <= i <= n && s[i..] == t[i..]
    {
      i := i - 1;
      if a[ao + i] != b[bo + i] {
        if a[ao + i] < b[bo + i] {
          TopDecides(s, t, i);
          return -1;
        } else {
          TopDecides(t, s, i);
          return 1;
        }
      }
      assert s[i..] == [s[i]] + s[i + 1..] && t[i..] == [t[i]] + t[i + 1..];
    }
    assert s == s[0..] && t == t[0..];
    return 0;
  }

  // mp_scan_nz
  method MpScanNz(a: array<Limb>, ao: nat, n: nat) returns (nz: bool)
    requires ao + n <= a.Length
    ensures nz <==> At(a, ao, n) != 0
  {
    hide Val;
    ghost var s := a[ao..ao + n];
    var i := 0;
    while i < n
      invariant 0 <= i <= n && forall k :: 0 <= k < i ==> s[k] == 0
    {
      if a[ao + i] != 0 {
        ValPositive(s, i);
        return true;
      }
      i := i + 1;
    }
    ValZeros(s);
    return false;
  }
}
