// ntt_fft of quickjs/libbf.c: the Stockham passes over two buffers, with entries kept in
// [0, 2 * m) and twiddle factors from a table.

module NttFft {
  import opened Limbs
  import opened LimbOps
  import opened NttArith
  import opened NttDft

  const NTT_PROOT_2EXP: nat := 51
  const NTT_TRIG_K_MAX: nat := 19

  // ----- Roots and twiddle tables -----

  // roots[k] is a root of order 2^k: each is the square of the next, and roots[1] is -1.
  ghost predicate ValidRoots(roots: seq<Limb>, m: int)
    requires m > 0
  {
    && |roots| == NTT_PROOT_2EXP + 1
    && (forall k :: 1 <= k <= NTT_PROOT_2EXP ==> roots[k] < m)
    && (forall k :: 1 <= k < NTT_PROOT_2EXP ==> SquareOf(roots, k, m))
    && Cong(roots[1], -1, m)
  }

  ghost predicate SquareOf(roots: seq<Limb>, k: int, m: int)
    requires m > 0 && 1 <= k && k + 1 < |roots|
  {
    Cong(roots[k], roots[k + 1] as int * roots[k + 1], m)
  }

  lemma {:induction false} RootsPrimitive(roots: seq<Limb>, k: nat, m: int)
    requires m > 0 && ValidRoots(roots, m) && 1 <= k <= NTT_PROOT_2EXP
    ensures PrimitiveRoot(roots[k], k, m)
    decreases k
  {
    hide Cong;
    var w: int := roots[k];
    if k == 1 {
      ExpZero(w);
      assert Exp(w, 1) == w * Exp(w, 0);
      assert Pow2(0) == 1;
    } else {
      RootsPrimitive(roots, k - 1, m);
      assert SquareOf(roots, k - 1, m);
      var h := Pow2(k - 2);
      assert Pow2(k - 1) == h + h;
      ExpCong(roots[k - 1], w * w, h, m);
      ExpMul(w, w, h);
      ExpAdd(w, h, h);
      CongSym(Exp(roots[k - 1], h), Exp(w * w, h), m);
      CongTrans(Exp(w, h + h), Exp(roots[k - 1], h), -1, m);
    }
  }

  // Entry i of the twiddle table: w^i and its precomputed quotient.
  ghost predicate TrigEntry(c: Limb, cInv: Limb, w: int, i: nat, m: int)
    requires m > 0
  {
    c < m && cInv == (c * B) / m && Cong(c, Exp(w, i), m)
  }

  ghost predicate TrigTable(tab: seq<Limb>, n2: nat, w: int, m: int)
    requires m > 0
  {
    |tab| == 2 * n2 && forall i: nat :: i < n2 ==> TrigEntry(tab[2 * i], tab[2 * i + 1], w, i, m)
  }

  // get_trig (without the cache)
  method GetTrig(roots: seq<Limb>, k: nat, m: Limb) returns (tab: array<Limb>)
    requires Modulus(m) && ValidRoots(roots, m) && 1 <= k <= NTT_PROOT_2EXP
    ensures fresh(tab) && TrigTable(tab[..], Pow2(k - 1), roots[k], m)
  {
    hide Cong;
    hide Pow2;
    var n2 := Pow2(k - 1);
    tab := new Limb[2 * n2];
    var c: Limb := 1;
    var cMul := roots[k];
    var cMulInv := InitMulModFast2(cMul, m);
    CongSelf(1, m);
    ExpZero(cMul);
    var i := 0;
    while i < n2
      invariant 0 <= i <= n2 && c < m && Cong(c, Exp(cMul, i), m)
      invariant forall q: nat :: q < i ==> TrigEntry(tab[2 * q], tab[2 * q + 1], cMul, q, m)
    {
      tab[2 * i] := c;
      tab[2 * i + 1] := InitMulModFast2(c, m);
      var next := MulModFast2(c, cMul, m, cMulInv);
      NextPower(next, c, cMul, i, m);
      c := next;
      i := i + 1;
    }
  }

  lemma NextPower(next: int, c: int, w: int, i: nat, m: int)
    requires m > 0 && Cong(next, c * w, m) && Cong(c, Exp(w, i), m)
    ensures Cong(next, Exp(w, i + 1), m)
  {
    hide Cong;
    CongSelf(w, m);
    CongMul(c, Exp(w, i), w, w, m);
    CongTrans(next, c * w, Exp(w, i) * w, m);
    assert Exp(w, i + 1) == w * Exp(w, i);
  }

  // ----- One pass -----

  function SeqFn(s: seq<Limb>): nat -> int {
    (i: nat) => if i < |s| then s[i] else 0
  }

  ghost predicate Below(s: seq<Limb>, bound: int) {
    forall i :: 0 <= i < |s| ==> s[i] < bound
  }

  ghost predicate ButterflyOk(a0: Limb, a1: Limb, b0: Limb, b1: Limb, c: int, m: int)
    requires m > 0
  {
    b0 < 2 * m && b1 < 2 * m && Cong(b0, a0 + a1, m) && Cong(b1, (a0 - a1) * c, m)
  }

  // b0 = a0 + a1, b1 = (a0 - a1) * c, lazily reduced.
  method Butterfly(a0: Limb, a1: Limb, c: Limb, cInv: Limb, m: Limb, ghost w: int, ghost i: nat)
    returns (b0: Limb, b1: Limb)
    requires Modulus(m) && a0 < 2 * m && a1 < 2 * m && TrigEntry(c, cInv, w, i, m)
    ensures ButterflyOk(a0, a1, b0, b1, Exp(w, i), m)
  {
    hide Cong;
    hide Exp;
    var m2 := 2 * m;
    b0 := AddMod(a0, a1, m2);
    SumCongruent(b0, a0 + a1, m);
    b1 := Wrap(a0 as int - a1 + m2);
    ghost var d := b1;
    b1 := MulModFast3(b1, c, m, cInv);
    Twisted(b1, d, a0 as int - a1, c, Exp(w, i), m);
  }

  lemma SumCongruent(b: int, a: int, m: int)
    requires m > 0 && (b == a || b == a - 2 * m)
    ensures Cong(b, a, m)
  {
    CongBy(b, a, m, if b == a then 0 else -2);
  }

  lemma Twisted(b: int, d: int, a: int, c: int, e: int, m: int)
    requires m > 0 && Cong(b, d * c, m) && d == a + 2 * m && Cong(c, e, m)
    ensures Cong(b, a * e, m)
  {
    CongBy(d, a, m, 2);
    hide Cong;
    CongMul(d, a, c, e, m);
    CongTrans(b, d * c, a * e, m);
  }

  // Block i of a pass: s butterflies sharing one twiddle factor c.
  ghost predicate BlockOk(a0: seq<Limb>, a1: seq<Limb>, b: seq<Limb>, c: int, m: int)
    requires m > 0
  {
    && |a0| == |a1| && |b| == 2 * |a0|
    && forall j :: 0 <= j < |a0| ==> ButterflyOk(a0[j], a1[j], b[j], b[j + |a0|], c, m)
  }

  method FftBlock(tabIn: array<Limb>, k: nat, stride: nat, tabOut: array<Limb>, p: nat, fftPerBlock: nat,
                  c: Limb, cInv: Limb, m: Limb, ghost w: int, ghost i: nat)
    requires Modulus(m) && TrigEntry(c, cInv, w, i, m) && tabIn != tabOut
    requires k + fftPerBlock <= tabIn.Length && k + stride + fftPerBlock <= tabIn.Length &&
             p + 2 * fftPerBlock <= tabOut.Length
    requires Below(tabIn[k..k + fftPerBlock], 2 * m) && Below(tabIn[k + stride..k + stride + fftPerBlock], 2 * m)
    modifies tabOut
    ensures BlockOk(tabIn[k..k + fftPerBlock], tabIn[k + stride..k + stride + fftPerBlock],
                    tabOut[p..p + 2 * fftPerBlock], Exp(w, i), m)
    ensures Outside(old(tabOut[..]), tabOut[..], p, 2 * fftPerBlock)
  {
    hide ButterflyOk;
    hide TrigEntry;
    hide Cong;
    hide Exp;
    ghost var s0, s1 := tabIn[k..k + fftPerBlock], tabIn[k + stride..k + stride + fftPerBlock];
    var j := 0;
    while j < fftPerBlock
      invariant 0 <= j <= fftPerBlock
      invariant forall q :: 0 <= q < j ==> ButterflyOk(s0[q], s1[q], tabOut[p + q], tabOut[p + q + fftPerBlock],
                                                       Exp(w, i), m)
      invariant Outside(old(tabOut[..]), tabOut[..], p, 2 * fftPerBlock)
    {
      var a0, a1 := tabIn[k + j], tabIn[k + j + stride];
      assert a0 == s0[j] && a1 == s1[j];
      var b0, b1 := Butterfly(a0, a1, c, cInv, m, w, i);
      tabOut[p + j], tabOut[p + j + fftPerBlock] := b0, b1;
      j := j + 1;
    }
  }

  // Blocks k and l of the input and block p of the output, all within bounds.
  ghost predicate BlocksFit(x: seq<Limb>, y: seq<Limb>, s: nat, k: nat, l: nat, p: nat, c: int, m: int)
    requires m > 0
  {
    && k + s <= |x| && l + s <= |x| && p + 2 * s <= |y|
    && BlockOk(x[k..k + s], x[l..l + s], y[p..p + 2 * s], c, m)
  }

  ghost predicate BlockAt(x: seq<Limb>, y: seq<Limb>, s: nat, h: nat, w: int, m: int, i: nat)
    requires m > 0
  {
    BlocksFit(x, y, s, i * s, (h + i) * s, i * (2 * s), Exp(w, i), m)
  }

  lemma BlockAtGrows(x: seq<Limb>, y: seq<Limb>, z: seq<Limb>, s: nat, h: nat, w: int, m: int, i: nat)
    requires m > 0 && BlockAt(x, y, s, h, w, m, i)
    ensures BlockAt(x, y + z, s, h, w, m, i)
  {
    hide BlockOk;
    var lo, hi := i * (2 * s), i * (2 * s) + 2 * s;
    assert (y + z)[lo..hi] == y[lo..hi];
  }

  lemma BlockAtEnd(x: seq<Limb>, y: seq<Limb>, z: seq<Limb>, s: nat, h: nat, w: int, m: int, i: nat, k: nat,
                   stride: nat)
    requires m > 0 && k == i * s && stride == h * s && |y| == 2 * k && |z| == 2 * s && k + stride + s <= |x|
    requires BlockOk(x[k..k + s], x[k + stride..k + stride + s], z, Exp(w, i), m)
    ensures BlockAt(x, y + z, s, h, w, m, i)
  {
    hide BlockOk;
    assert (h + i) * s == k + stride && i * (2 * s) == 2 * k;
    assert (y + z)[2 * k..2 * k + 2 * s] == z;
  }

  // The first i blocks of a pass have been written.
  ghost predicate BlocksDone(x: seq<Limb>, y: seq<Limb>, s: nat, h: nat, w: int, m: int, i: nat)
    requires m > 0
  {
    forall q: nat :: q < i ==> BlockAt(x, y, s, h, w, m, q)
  }

  lemma BlocksStart(x: seq<Limb>, s: nat, h: nat, w: int, m: int)
    requires m > 0
    ensures BlocksDone(x, [], s, h, w, m, 0)
  {
  }

  lemma BlocksStep(x: seq<Limb>, y: seq<Limb>, z: seq<Limb>, s: nat, h: nat, w: int, m: int, i: nat, k: nat,
                   stride: nat)
    requires m > 0 && k == i * s && stride == h * s && |y| == 2 * k && k + stride + s <= |x|
    requires BlocksDone(x, y, s, h, w, m, i) && Below(y, 2 * m) &&
             BlockOk(x[k..k + s], x[k + stride..k + stride + s], z, Exp(w, i), m)
    ensures BlocksDone(x, y + z, s, h, w, m, i + 1) && Below(y + z, 2 * m)
  {
    hide BlockAt;
    hide Exp;
    assert |z| == 2 * s;
    BlocksBelow(z, x[k..k + s], x[k + stride..k + stride + s], Exp(w, i), m);
    hide BlockOk;
    BlockAtEnd(x, y, z, s, h, w, m, i, k, stride);
    forall q: nat | q < i ensures BlockAt(x, y + z, s, h, w, m, q) {
      BlockAtGrows(x, y, z, s, h, w, m, q);
    }
  }

  lemma BlocksPass(x: seq<Limb>, y: seq<Limb>, s: nat, h: nat, w: int, m: int)
    requires m > 0 && BlocksDone(x, y, s, h, w, m, h)
    ensures Pass(SeqFn(x), SeqFn(y), s, h, w, m)
  {
    hide PassAt;
    hide BlockAt;
    forall i: nat, j: nat | i < h && j < s ensures PassAt(SeqFn(x), SeqFn(y), s, h, w, m, i, j) {
      assert BlockAt(x, y, s, h, w, m, i);
      BlockButterfly(x, y, s, h, w, m, i, j);
    }
  }

  lemma BlockButterfly(x: seq<Limb>, y: seq<Limb>, s: nat, h: nat, w: int, m: int, i: nat, j: nat)
    requires m > 0 && j < s && BlockAt(x, y, s, h, w, m, i)
    ensures PassAt(SeqFn(x), SeqFn(y), s, h, w, m, i, j)
  {
    hide Cong;
    hide Exp;
    hide SeqFn;
    hide BlockOk;
    OneButterfly(x, y, s, i * s, (h + i) * s, i * (2 * s), Exp(w, i), m, j);
  }

  lemma ButterflyInSlices(x: seq<Limb>, y: seq<Limb>, s: nat, k: nat, l: nat, p: nat, c: int, m: int, j: nat)
    requires m > 0 && j < s && BlocksFit(x, y, s, k, l, p, c, m)
    ensures ButterflyOk(x[k + j], x[l + j], y[p + j], y[p + j + s], c, m)
  {
    hide ButterflyOk;
    assert ButterflyOk(x[k..k + s][j], x[l..l + s][j], y[p..p + 2 * s][j], y[p..p + 2 * s][j + s], c, m);
  }

  lemma OneButterfly(x: seq<Limb>, y: seq<Limb>, s: nat, k: nat, l: nat, p: nat, c: int, m: int, j: nat)
    requires m > 0 && j < s && BlocksFit(x, y, s, k, l, p, c, m)
    ensures ButterflyInts(SeqFn(x)(k + j), SeqFn(x)(l + j), SeqFn(y)(p + j), SeqFn(y)(p + j + s), c, m)
  {
    hide SeqFn;
    hide ButterflyInts;
    ButterflyInSlices(x, y, s, k, l, p, c, m, j);
    hide BlockOk;
    hide ButterflyOk;
    SeqValue(x, k + j);
    SeqValue(x, l + j);
    SeqValue(y, p + j);
    SeqValue(y, p + j + s);
    OkInts(x[k + j], x[l + j], y[p + j], y[p + j + s], c, m);
  }

  ghost predicate ButterflyInts(a0: int, a1: int, b0: int, b1: int, c: int, m: int)
    requires m > 0
  {
    Cong(b0, a0 + a1, m) && Cong(b1, (a0 - a1) * c, m)
  }

  lemma OkInts(a0: Limb, a1: Limb, b0: Limb, b1: Limb, c: int, m: int)
    requires m > 0 && ButterflyOk(a0, a1, b0, b1, c, m)
    ensures ButterflyInts(a0, a1, b0, b1, c, m)
  {
    hide Cong;
  }

  lemma SeqValue(x: seq<Limb>, i: nat)
    requires i < |x|
    ensures SeqFn(x)(i) == x[i]
  {
  }

  lemma BlocksBelow(b: seq<Limb>, a0: seq<Limb>, a1: seq<Limb>, c: int, m: int)
    requires m > 0 && BlockOk(a0, a1, b, c, m)
    ensures Below(b, 2 * m)
  {
    hide Cong;
    forall q | 0 <= q < |b| ensures b[q] < 2 * m {
      var j := if q < |a0| then q else q - |a0|;
      assert ButterflyOk(a0[j], a1[j], b[j], b[j + |a0|], c, m);
    }
  }

  // One pass with twiddle factors: the inner two loops of ntt_fft.
  method FftPass(tabIn: array<Limb>, so: nat, tabOut: array<Limb>, to: nat, fftPerBlock: nat, nbBlocks: nat,
                 trig: array<Limb>, m: Limb, ghost w: int, ghost n: nat)
    requires Modulus(m) && tabIn != tabOut && trig != tabOut && n == 2 * (nbBlocks * fftPerBlock)
    requires TrigTable(trig[..], nbBlocks, w, m)
    requires so + n <= tabIn.Length && to + n <= tabOut.Length && Below(tabIn[so..so + n], 2 * m)
    modifies tabOut
    ensures Pass(SeqFn(tabIn[so..so + n]), SeqFn(tabOut[to..to + n]), fftPerBlock, nbBlocks, w, m)
    ensures Below(tabOut[to..to + n], 2 * m) && Outside(old(tabOut[..]), tabOut[..], to, n)
  {
    hide Cong;
    hide Exp;
    hide Pass;
    hide BlockOk;
    hide BlocksDone;
    hide TrigEntry;
    hide SeqFn;
    hide Below;
    var stride := nbBlocks * fftPerBlock;
    ghost var x, y: seq<Limb> := tabIn[so..so + n], [];
    BlocksStart(x, fftPerBlock, nbBlocks, w, m);
    BelowEmpty(2 * m);
    OutsideSelf(tabOut[..], to, n);
    hide Outside;
    var i, k, p := 0, 0, 0;
    while i < nbBlocks
      invariant 0 <= i <= nbBlocks && k == i * fftPerBlock && p == 2 * k && k <= stride
      invariant |y| == p && tabOut[to..to + p] == y && Below(y, 2 * m)
      invariant BlocksDone(x, y, fftPerBlock, nbBlocks, w, m, i)
      invariant Outside(old(tabOut[..]), tabOut[..], to, n)
    {
      NextBlock(i, nbBlocks, fftPerBlock);
      var c, cInv := trig[2 * i], trig[2 * i + 1];
      assert TrigEntry(trig[..][2 * i], trig[..][2 * i + 1], w, i, m);
      BlockInputs(tabIn, so, x, k, fftPerBlock, m);
      BlockInputs(tabIn, so, x, k + stride, fftPerBlock, m);
      ghost var mid := tabOut[..];
      FftBlock(tabIn, so + k, stride, tabOut, to + p, fftPerBlock, c, cInv, m, w, i);
      ghost var z := tabOut[to + p..to + p + 2 * fftPerBlock];
      BlocksStep(x, y, z, fftPerBlock, nbBlocks, w, m, i, k, stride);
      OutsideStep(old(tabOut[..]), mid, tabOut[..], to, p, 2 * fftPerBlock, n);
      assert tabOut[to..to + p + 2 * fftPerBlock] == y + z;
      y := y + z;
      i, k, p := i + 1, k + fftPerBlock, p + 2 * fftPerBlock;
    }
    BlocksPass(x, y, fftPerBlock, nbBlocks, w, m);
  }

  lemma OutsideSelf(a: seq<Limb>, o: nat, n: nat)
    ensures Outside(a, a, o, n)
  {
  }

  // Writing t entries after the first p of a window of n.
  lemma OutsideStep(was: seq<Limb>, mid: seq<Limb>, now: seq<Limb>, o: nat, p: nat, t: nat, n: nat)
    requires Outside(was, mid, o, n) && Outside(mid, now, o + p, t) && p + t <= n && o + n <= |was|
    ensures Outside(was, now, o, n) && now[o..o + p] == mid[o..o + p]
  {
  }

  lemma BelowEmpty(bound: int)
    ensures Below([], bound)
  {
  }

  lemma BlockInputs(tab: array<Limb>, so: nat, x: seq<Limb>, k: nat, s: nat, m: int)
    requires k + s <= |x| && so + |x| <= tab.Length && tab[so..so + |x|] == x && Below(x, 2 * m)
    ensures tab[so + k..so + k + s] == x[k..k + s] && Below(x[k..k + s], 2 * m)
  {
    var now := tab[so + k..so + k + s];
    forall j | 0 <= j < s ensures now[j] == x[k + j] {
      assert tab[so..so + |x|][k + j] == tab[so + k + j];
    }
    assert now == x[k..k + s];
  }

  lemma NextBlock(i: nat, nbBlocks: nat, fftPerBlock: nat)
    requires i < nbBlocks
    ensures (i + 1) * fftPerBlock == i * fftPerBlock + fftPerBlock <= nbBlocks * fftPerBlock
  {
    MulMono(i + 1, nbBlocks, fftPerBlock);
  }

  // The last pass has no twiddle factor and may work in place.
  method LastPass(tabIn: array<Limb>, so: nat, tabOut: array<Limb>, to: nat, strideIn: nat, m: Limb, ghost w: int,
                  ghost x: seq<Limb>)
    requires Modulus(m) && (tabIn != tabOut || so == to)
    requires so + 2 * strideIn <= tabIn.Length && to + 2 * strideIn <= tabOut.Length
    requires x == tabIn[so..so + 2 * strideIn] && Below(x, 2 * m)
    modifies tabOut
    ensures Pass(SeqFn(x), SeqFn(tabOut[to..to + 2 * strideIn]), strideIn, 1, w, m)
    ensures Below(tabOut[to..to + 2 * strideIn], 2 * m) && Outside(old(tabOut[..]), tabOut[..], to, 2 * strideIn)
  {
    hide Cong;
    hide Exp;
    hide Pass;
    hide ButterflyOk;
    hide SeqFn;
    hide Below;
    var m2 := 2 * m;
    ghost var s0, s1 := tabIn[so..so + strideIn], tabIn[so + strideIn..so + 2 * strideIn];
    var k := 0;
    while k < strideIn
      invariant 0 <= k <= strideIn
      invariant forall q :: to <= q < to + k ==>
                ButterflyOk(s0[q - to], s1[q - to], tabOut[q], tabOut[q + strideIn], 1, m)
      invariant forall q :: so + k <= q < so + strideIn ==> tabIn[q] == old(tabIn[q])
      invariant forall q :: so + strideIn + k <= q < so + 2 * strideIn ==> tabIn[q] == old(tabIn[q])
      invariant Outside(old(tabOut[..]), tabOut[..], to, 2 * strideIn)
    {
      var a0, a1 := tabIn[so + k], tabIn[so + k + strideIn];
      assert a0 == s0[k] && a1 == s1[k];
      PlainInputs(x, k, strideIn, m);
      var b0 := AddMod(a0, a1, m2);
      var b1 := SubMod(a0, a1, m2);
      PlainButterfly(a0, a1, b0, b1, m);
      tabOut[to + k], tabOut[to + k + strideIn] := b0, b1;
      k := k + 1;
    }
    LastOk(s0, s1, tabOut, to, m);
    hide BlockOk;
    LastBlock(x, s0, s1, tabOut[to..to + 2 * strideIn], w, m);
  }

  lemma LastOk(a0: seq<Limb>, a1: seq<Limb>, tabOut: array<Limb>, to: nat, m: int)
    requires m > 0 && |a0| == |a1| && to + 2 * |a0| <= tabOut.Length
    requires forall q :: to <= q < to + |a0| ==> ButterflyOk(a0[q - to], a1[q - to], tabOut[q], tabOut[q + |a0|], 1, m)
    ensures BlockOk(a0, a1, tabOut[to..to + 2 * |a0|], 1, m)
  {
    hide ButterflyOk;
    var y := tabOut[to..to + 2 * |a0|];
    forall j | 0 <= j < |a0| ensures ButterflyOk(a0[j], a1[j], y[j], y[j + |a0|], 1, m) {
      assert y[j] == tabOut[to + j] && y[j + |a0|] == tabOut[to + j + |a0|];
    }
  }

  lemma PlainInputs(x: seq<Limb>, k: nat, s: nat, m: int)
    requires k + s < |x| && Below(x, 2 * m)
    ensures x[k] < 2 * m && x[k + s] < 2 * m
  {
  }

  lemma PlainButterfly(a0: Limb, a1: Limb, b0: Limb, b1: Limb, m: int)
    requires m > 0 && b0 < 2 * m && b1 < 2 * m && (b0 == a0 + a1 || b0 == a0 + a1 - 2 * m) &&
             (b1 == a0 - a1 || b1 == a0 - a1 + 2 * m)
    ensures ButterflyOk(a0, a1, b0, b1, 1, m)
  {
    CongBy(b0, a0 + a1, m, if b0 == a0 + a1 then 0 else -2);
    CongBy(b1, (a0 - a1) * 1, m, if b1 == a0 - a1 then 0 else 2);
  }

  lemma LastBlock(x: seq<Limb>, a0: seq<Limb>, a1: seq<Limb>, y: seq<Limb>, w: int, m: int)
    requires m > 0 && |a0| == |a1| && x == a0 + a1 && BlockOk(a0, a1, y, 1, m)
    ensures Below(y, 2 * m) && Pass(SeqFn(x), SeqFn(y), |a0|, 1, w, m)
  {
    assert |y| == 2 * |a0|;
    hide Pass;
    hide BlockOk;
    hide BlocksDone;
    ExpZero(w);
    var s := |a0|;
    BlocksStart(x, s, 1, w, m);
    BelowEmpty(2 * m);
    assert x[0..0 + s] == a0 && x[0 + s..0 + s + s] == a1;
    BlocksStep(x, [], y, s, 1, w, m, 0, 0, s);
    assert [] + y == y;
    BlocksPass(x, y, s, 1, w, m);
  }

  // ----- The whole transform -----

  // Before the pass of order 2^l the buffer holds 2^(k - l) interleaved transforms of length 2^l.
  ghost predicate Stage(x: seq<Limb>, k: nat, l: nat, roots: seq<Limb>, whole: nat -> int, m: int)
    requires m > 0
  {
    && 1 <= l <= k < |roots| && |x| == Pow2(k) && Below(x, 2 * m)
    && Interleaved(SeqFn(x), Pow2(k - l), Pow2(l), roots[l], whole, m)
  }

  lemma StageStart(x: seq<Limb>, k: nat, roots: seq<Limb>, m: int)
    requires m > 0 && 1 <= k < |roots| && |x| == Pow2(k) && Below(x, 2 * m)
    ensures Stage(x, k, k, roots, DftFn(SeqFn(x), Pow2(k), roots[k]), m)
  {
    hide Interleaved;
    hide DftFn;
    hide SeqFn;
    assert Pow2(0) == 1;
    InterleavedStart(SeqFn(x), Pow2(k), roots[k], m);
  }

  lemma StageStep(x: seq<Limb>, y: seq<Limb>, k: nat, l: nat, roots: seq<Limb>, whole: nat -> int, m: int)
    requires m > 0 && ValidRoots(roots, m) && 2 <= l && Stage(x, k, l, roots, whole, m)
    requires |y| == |x| && Below(y, 2 * m) && Pass(SeqFn(x), SeqFn(y), Pow2(k - l), Pow2(l - 1), roots[l], m)
    ensures Stage(y, k, l - 1, roots, whole, m)
  {
    RootsPrimitive(roots, l, m);
    assert SquareOf(roots, l - 1, m);
    hide Interleaved;
    hide ValidRoots;
    hide SeqFn;
    hide Cong;
    hide Exp;
    assert Pow2(l) == 2 * Pow2(l - 1) && Pow2(k - l + 1) == 2 * Pow2(k - l);
    PassKeeps(SeqFn(x), SeqFn(y), Pow2(k - l), Pow2(l - 1), roots[l], roots[l - 1], whole, m);
  }

  lemma StageEnd(x: seq<Limb>, y: seq<Limb>, k: nat, roots: seq<Limb>, whole: nat -> int, m: int)
    requires m > 0 && ValidRoots(roots, m) && Stage(x, k, 1, roots, whole, m)
    requires |y| == |x| && Pass(SeqFn(x), SeqFn(y), Pow2(k - 1), 1, roots[1], m)
    ensures forall f: nat :: f < |y| ==> Cong(y[f], whole(f), m)
  {
    RootsPrimitive(roots, 1, m);
    hide Interleaved;
    hide Pass;
    hide ValidRoots;
    hide Exp;
    assert Pow2(0) == 1 && Pow2(1) == 2 && Pow2(k) == 2 * Pow2(k - 1);
    CongSelf(roots[1] as int * roots[1], m);
    PassKeeps(SeqFn(x), SeqFn(y), Pow2(k - 1), 1, roots[1], roots[1] as int * roots[1], whole, m);
    hide Cong;
    forall f: nat | f < |y| ensures Cong(y[f], whole(f), m) {
      InterleavedEnd(SeqFn(y), Pow2(k), roots[1] as int * roots[1], whole, m, f);
      assert SeqFn(y)(f) == y[f];
    }
  }

  // The buffer is the natural-order transform of what it was, every entry lazily reduced.
  ghost predicate Transformed(was: seq<Limb>, now: seq<Limb>, k: nat, w: int, m: int)
    requires m > 0
  {
    && |now| == |was| == Pow2(k) && Below(now, 2 * m)
    && forall f: nat :: f < |now| ==> Cong(now[f], Dft(SeqFn(was), Pow2(k), w, f), m)
  }

  // One iteration of the outer loop of ntt_fft.
  method FftStage(tabIn: array<Limb>, so: nat, tabOut: array<Limb>, to: nat, nbBlocks: nat, fftPerBlock: nat,
                  ghost k: nat, l: nat, roots: seq<Limb>, m: Limb, ghost whole: nat -> int)
    requires Modulus(m) && ValidRoots(roots, m) && 2 <= l <= k <= NTT_TRIG_K_MAX && tabIn != tabOut
    requires nbBlocks == Pow2(l - 1) && fftPerBlock == Pow2(k - l)
    requires so + Pow2(k) <= tabIn.Length && to + Pow2(k) <= tabOut.Length
    requires Stage(tabIn[so..so + Pow2(k)], k, l, roots, whole, m)
    modifies tabOut
    ensures Stage(tabOut[to..to + Pow2(k)], k, l - 1, roots, whole, m)
    ensures Outside(old(tabOut[..]), tabOut[..], to, Pow2(k))
  {
    assert |roots| == NTT_PROOT_2EXP + 1;
    hide Pass;
    hide Stage;
    hide ValidRoots;
    hide TrigTable;
    hide SeqFn;
    hide Below;
    ghost var n := Pow2(k);
    Sizes(k, l);
    var trig := GetTrig(roots, l, m);
    StageBelow(tabIn[so..so + n], k, l, roots, whole, m);
    FftPass(tabIn, so, tabOut, to, fftPerBlock, nbBlocks, trig, m, roots[l], n);
    StageStep(tabIn[so..so + n], tabOut[to..to + n], k, l, roots, whole, m);
  }

  // The buffer being read and the one being written: buf at o and tmp, in either order.
  predicate Buffers(buf: array<Limb>, o: nat, tmp: array<Limb>, tabIn: array<Limb>, si: nat, tabOut: array<Limb>,
                    to: nat) {
    (tabIn == buf && si == o && tabOut == tmp && to == 0) || (tabIn == tmp && si == 0 && tabOut == buf && to == o)
  }

  // The outer loop of ntt_fft: all passes but the last.
  method FftStages(buf: array<Limb>, o: nat, tmp: array<Limb>, fftLenLog2: nat, roots: seq<Limb>, m: Limb,
                   ghost whole: nat -> int)
    returns (tabIn: array<Limb>, si: nat)
    requires Modulus(m) && ValidRoots(roots, m) && 1 <= fftLenLog2 <= NTT_TRIG_K_MAX && buf != tmp
    requires o + Pow2(fftLenLog2) <= buf.Length && Pow2(fftLenLog2) <= tmp.Length
    requires Stage(buf[o..o + Pow2(fftLenLog2)], fftLenLog2, fftLenLog2, roots, whole, m)
    modifies buf, tmp
    ensures (tabIn == buf && si == o) || (tabIn == tmp && si == 0)
    ensures Stage(tabIn[si..si + Pow2(fftLenLog2)], fftLenLog2, 1, roots, whole, m)
    ensures Outside(old(buf[..]), buf[..], o, Pow2(fftLenLog2))
  {
    hide Stage;
    hide ValidRoots;
    var n := Pow2(fftLenLog2);
    var nbBlocks, fftPerBlock := n, 1;
    var tabOut, to := tmp, 0;
    tabIn, si := buf, o;
    var l := fftLenLog2;
    Sizes(fftLenLog2, l);
    assert Pow2(0) == 1;
    hide Pow2;
    OutsideSelf(buf[..], o, n);
    hide Outside;
    while nbBlocks != 2
      invariant 1 <= l <= fftLenLog2 && nbBlocks == Pow2(l) && fftPerBlock == Pow2(fftLenLog2 - l)
      invariant Buffers(buf, o, tmp, tabIn, si, tabOut, to)
      invariant Stage(tabIn[si..si + n], fftLenLog2, l, roots, whole, m)
      invariant Outside(old(buf[..]), buf[..], o, n)
      decreases l
    {
      Sizes(fftLenLog2, l);
      nbBlocks := nbBlocks / 2;
      ghost var mid := buf[..];
      FftStage(tabIn, si, tabOut, to, nbBlocks, fftPerBlock, fftLenLog2, l, roots, m, whole);
      OutsideSelf(mid, o, n);
      OutsideStep(old(buf[..]), mid, buf[..], o, 0, n, n);
      fftPerBlock := 2 * fftPerBlock;
      l := l - 1;
      tabIn, si, tabOut, to := tabOut, to, tabIn, si;
    }
    Sizes(fftLenLog2, l);
  }

  // ntt_fft, with in_buf == out_buf as its callers have it
  method Fft(buf: array<Limb>, o: nat, tmp: array<Limb>, fftLenLog2: nat, roots: seq<Limb>, m: Limb)
    requires Modulus(m) && ValidRoots(roots, m) && 1 <= fftLenLog2 <= NTT_TRIG_K_MAX && buf != tmp
    requires o + Pow2(fftLenLog2) <= buf.Length && Pow2(fftLenLog2) <= tmp.Length
    requires Below(buf[o..o + Pow2(fftLenLog2)], 2 * m)
    modifies buf, tmp
    ensures Transformed(old(buf[o..o + Pow2(fftLenLog2)]), buf[o..o + Pow2(fftLenLog2)], fftLenLog2, roots[fftLenLog2],
                        m)
    ensures Outside(old(buf[..]), buf[..], o, Pow2(fftLenLog2))
  {
    assert |roots| == NTT_PROOT_2EXP + 1;
    hide Pass;
    hide Stage;
    hide ValidRoots;
    hide SeqFn;
    hide Below;
    hide Cong;
    hide Dft;
    var n := Pow2(fftLenLog2);
    var strideIn := n / 2;
    ghost var whole := DftFn(SeqFn(buf[o..o + n]), n, roots[fftLenLog2]);
    StageStart(buf[o..o + n], fftLenLog2, roots, m);
    Sizes(fftLenLog2, 1);
    hide Pow2;
    hide Outside;
    var tabIn, si := FftStages(buf, o, tmp, fftLenLog2, roots, m, whole);
    ghost var x, mid := tabIn[si..si + n], buf[..];
    StageBelow(x, fftLenLog2, 1, roots, whole, m);
    LastPass(tabIn, si, buf, o, strideIn, m, roots[1], x);
    OutsideStep(old(buf[..]), mid, buf[..], o, 0, n, n);
    StageEnd(x, buf[o..o + n], fftLenLog2, roots, whole, m);
  }

  lemma Sizes(k: nat, l: nat)
    requires 1 <= l <= k
    ensures Pow2(k) % 2 == 0 && Pow2(k) == 2 * Pow2(k - 1) && Pow2(l) == 2 * Pow2(l - 1)
    ensures l >= 2 ==> Pow2(l) != 2
    ensures l == 1 ==> Pow2(l) == 2
    ensures Pow2(k) == 2 * (Pow2(l - 1) * Pow2(k - l)) && Pow2(k - (l - 1)) == 2 * Pow2(k - l)
  {
    assert Pow2(0) == 1;
    Pow2Add(l - 1, k - l);
    if l >= 2 {
      assert Pow2(l - 1) == 2 * Pow2(l - 2);
    }
  }

  lemma StageBelow(x: seq<Limb>, k: nat, l: nat, roots: seq<Limb>, whole: nat -> int, m: int)
    requires m > 0 && Stage(x, k, l, roots, whole, m)
    ensures |x| == Pow2(k) && Below(x, 2 * m)
  {
  }
}
