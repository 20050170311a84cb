// ntt_vec_mul and ntt_conv of quickjs/libbf.c: transforming forward, multiplying pointwise and
// transforming backward multiplies polynomials modulo m. Long transforms are split into rows, whose
// products are found by the same procedure.

module NttConv {
  import opened Limbs
  import opened LimbOps
  import opened NttArith
  import opened NttDft
  import opened NttFft
  import opened NttSplit

  // The part of BFNTTState that belongs to one modulus: the modulus, its precomputed inverse, the
  // roots of order 2^k of both directions and the inverses of the lengths 2^k.
  datatype NttMod = NttMod(m: Limb, mInv: Limb, proot: seq<Limb>, prootInv: seq<Limb>, lenInv: seq<Limb>)

  ghost predicate ValidMod(s: NttMod) {
    && Modulus(s.m) && s.mInv == WIDE / s.m
    && ValidRoots(s.proot, s.m) && ValidRoots(s.prootInv, s.m)
    && (forall k: nat :: 1 <= k <= NTT_PROOT_2EXP ==> InverseRoots(s, k))
    && |s.lenInv| == NTT_PROOT_2EXP + 1
    && (forall k: nat :: k <= NTT_PROOT_2EXP ==> LenInverse(s, k))
  }

  ghost predicate InverseRoots(s: NttMod, k: nat)
    requires s.m > 0 && k < |s.proot| && k < |s.prootInv|
  {
    Cong(s.proot[k] as int * s.prootInv[k], 1, s.m)
  }

  ghost predicate LenInverse(s: NttMod, k: nat)
    requires s.m > 0 && k < |s.lenInv|
  {
    s.lenInv[k] < s.m && Cong(Pow2(k) * s.lenInv[k], 1, s.m)
  }

  // ----- Pointwise product -----

  ghost predicate ProductAt(a: Limb, b: Limb, r: Limb, norm: Limb, m: int)
    requires m > 0
  {
    r < 2 * m && Cong(r, norm * (a * b), m)
  }

  method OneProduct(a0: Limb, b: Limb, s: NttMod, norm: Limb, normInv: Limb) returns (r: Limb)
    requires Modulus(s.m) && s.mInv == WIDE / s.m && norm < s.m && normInv == (norm * B) / s.m && a0 < 2 * s.m &&
             b < 2 * s.m
    ensures ProductAt(a0, b, r, norm, s.m)
  {
    hide Cong;
    // the range is reduced so that the product is below 2^(64 + NTT_MOD_LOG2_MIN)
    var a := if a0 >= s.m then a0 - s.m else a0;
    ProductRange(a, b, s.m);
    var p := MulModFast(a, b, s.m, s.mInv);
    r := MulModFast3(p, norm, s.m, normInv);
    ReducedProduct(a0, a, b, p, r, norm, s.m);
  }

  lemma ReducedProduct(a0: int, a: int, b: int, p: int, r: int, norm: int, m: int)
    requires m > 0 && (a == a0 || a == a0 - m) && Cong(p, a * b, m) && Cong(r, p * norm, m)
    ensures Cong(r, norm * (a0 * b), m)
  {
    CongBy(a, a0, m, if a == a0 then 0 else -1);
    hide Cong;
    CongSelf(b, m);
    CongMul(a, a0, b, b, m);
    CongTrans(p, a * b, a0 * b, m);
    CongSelf(norm, m);
    CongMul(p, a0 * b, norm, norm, m);
    CongTrans(r, p * norm, (a0 * b) * norm, m);
    assert (a0 * b) * norm == norm * (a0 * b);
  }

  ghost predicate Products(a: seq<Limb>, b: seq<Limb>, r: seq<Limb>, norm: Limb, m: int)
    requires m > 0
  {
    && |a| == |b| == |r|
    && forall i :: 0 <= i < |a| ==> ProductAt(a[i], b[i], r[i], norm, m)
  }

  // ntt_vec_mul
  method NttVecMul(s: NttMod, tab1: array<Limb>, o1: nat, tab2: array<Limb>, o2: nat, fftLenLog2: nat, kTot: nat)
    requires ValidMod(s) && kTot <= NTT_PROOT_2EXP && tab1 != tab2
    requires o1 + Pow2(fftLenLog2) <= tab1.Length && o2 + Pow2(fftLenLog2) <= tab2.Length
    requires Below(tab1[o1..o1 + Pow2(fftLenLog2)], 2 * s.m) && Below(tab2[o2..o2 + Pow2(fftLenLog2)], 2 * s.m)
    modifies tab1
    ensures Products(old(tab1[o1..o1 + Pow2(fftLenLog2)]), tab2[o2..o2 + Pow2(fftLenLog2)],
                     tab1[o1..o1 + Pow2(fftLenLog2)], s.lenInv[kTot], s.m)
    ensures Outside(old(tab1[..]), tab1[..], o1, Pow2(fftLenLog2))
  {
    assert LenInverse(s, kTot);
    hide Cong;
    hide Pow2;
    hide ValidMod;
    hide ProductAt;
    var m, norm, n := s.m, s.lenInv[kTot], Pow2(fftLenLog2);
    var normInv := InitMulModFast2(norm, m);
    ghost var x, y := tab1[o1..o1 + n], tab2[o2..o2 + n];
    var i := 0;
    while i < n
      invariant 0 <= i <= n
      invariant forall q :: o1 <= q < o1 + i ==> ProductAt(x[q - o1], y[q - o1], tab1[q], norm, m)
      invariant forall q :: o1 + i <= q < o1 + n ==> tab1[q] == x[q - o1]
      invariant Outside(old(tab1[..]), tab1[..], o1, n)
    {
      assert tab1[o1 + i] == x[i] && tab2[o2 + i] == y[i];
      tab1[o1 + i] := OneProduct(tab1[o1 + i], tab2[o2 + i], s, norm, normInv);
      i := i + 1;
    }
    forall q | 0 <= q < n ensures ProductAt(x[q], y[q], tab1[o1..o1 + n][q], norm, m) {
      assert tab1[o1..o1 + n][q] == tab1[o1 + q];
    }
  }

  // ----- The convolution theorem for the buffers -----

  // Output f of the transform of r is c times the product of the outputs for a and b.
  ghost predicate CyclicAt(a: nat -> int, b: nat -> int, r: nat -> int, n: nat, w: int, c: int, m: int, f: nat)
    requires m > 0
  {
    Cong(Dft(r, n, w, f), c * (Dft(a, n, w, f) * Dft(b, n, w, f)), m)
  }

  // r is c times the cyclic convolution of a and b, in terms of their transforms.
  ghost predicate CyclicOk(a: seq<Limb>, b: seq<Limb>, r: seq<Limb>, k: nat, w: int, c: int, m: int)
    requires m > 0
  {
    && |a| == |b| == |r| == Pow2(k) && Below(r, 2 * m)
    && forall f: nat :: f < Pow2(k) ==> CyclicAt(SeqFn(a), SeqFn(b), SeqFn(r), Pow2(k), w, c, m, f)
  }

  // ----- Without a split -----

  lemma DirectAt(p: seq<Limb>, r: seq<Limb>, k: nat, w: int, v: int, a: int, b: int, norm: int, f: nat, m: int)
    requires m > 0 && 1 <= k && f < Pow2(k) && PrimitiveRoot(w, k, m) && Cong(w * v, 1, m)
    requires Transformed(p, r, k, v, m) && Cong(p[f], norm * (a * b), m)
    ensures Cong(Dft(SeqFn(r), Pow2(k), w, f), (Pow2(k) * norm) * (a * b), m)
  {
    hide Cong;
    hide Dft;
    hide PrimitiveRoot;
    var n, back := Pow2(k), DftFn(SeqFn(p), Pow2(k), v);
    hide Pow2;
    forall i: nat | i < n ensures Cong(SeqFn(r)(i), back(i), m) {
      SeqValue(r, i);
    }
    DftCong(SeqFn(r), back, n, w, f, m);
    InverseRoot(w, v, k, m);
    assert v * w == w * v;
    InverseDft(SeqFn(p), k, v, w, f, m);
    SeqValue(p, f);
    CongTrans(Dft(SeqFn(r), n, w, f), Dft(back, n, w, f), n * p[f], m);
    CongSelf(n, m);
    CongMul(n, n, p[f], norm * (a * b), m);
    Assoc3(n, norm, a * b);
    CongTrans(Dft(SeqFn(r), n, w, f), n * p[f], (n * norm) * (a * b), m);
  }

  // Two transforms, a pointwise product and the inverse transform.
  lemma BuffersConvolved(s: NttMod, k: nat, norm: Limb, a: seq<Limb>, b: seq<Limb>, a': seq<Limb>, b': seq<Limb>,
                         p: seq<Limb>, r: seq<Limb>)
    requires ValidMod(s) && 1 <= k <= NTT_PROOT_2EXP
    requires Transformed(a, a', k, s.proot[k], s.m) && Transformed(b, b', k, s.proot[k], s.m)
    requires Products(a', b', p, norm, s.m) && Transformed(p, r, k, s.prootInv[k], s.m)
    ensures CyclicOk(a, b, r, k, s.proot[k], Pow2(k) * norm, s.m)
  {
    var m, n, w, v := s.m, Pow2(k), s.proot[k], s.prootInv[k];
    RootsPrimitive(s.proot, k, m);
    assert InverseRoots(s, k);
    hide Cong;
    hide Pow2;
    hide ValidMod;
    hide Dft;
    hide PrimitiveRoot;
    hide Products;
    var c := n * norm;
    forall f: nat | f < n ensures CyclicAt(SeqFn(a), SeqFn(b), SeqFn(r), n, w, c, m, f) {
      var fa, fb := Dft(SeqFn(a), n, w, f), Dft(SeqFn(b), n, w, f);
      EntryProduct(a', b', p, norm, m, f, fa, fb);
      DirectAt(p, r, k, w, v, fa, fb, norm, f, m);
    }
  }

  lemma EntryProduct(a: seq<Limb>, b: seq<Limb>, p: seq<Limb>, norm: Limb, m: int, f: nat, fa: int, fb: int)
    requires m > 0 && Products(a, b, p, norm, m) && f < |a| && Cong(a[f], fa, m) && Cong(b[f], fb, m)
    ensures Cong(p[f], norm * (fa * fb), m)
  {
    var x: int, y: int := a[f], b[f];
    assert ProductAt(a[f], b[f], p[f], norm, m);
    hide Cong;
    CongMul(x, fa, y, fb, m);
    CongSelf(norm, m);
    CongMul(norm, norm, x * y, fa * fb, m);
    CongTrans(p[f], norm * (x * y), norm * (fa * fb), m);
  }

  // ----- With a split -----

  lemma SplitAt(da: int, db: int, dr: int, ra: int, rb: int, rp: int, n1: int, n2: int, norm: int, m: int)
    requires m > 0 && Cong(da, ra, m) && Cong(db, rb, m) && Cong(dr, n1 * rp, m)
    requires Cong(rp, (n2 * norm) * (ra * rb), m)
    ensures Cong(dr, ((n1 * n2) * norm) * (da * db), m)
  {
    hide Cong;
    CongMul(da, ra, db, rb, m);
    CongSym(da * db, ra * rb, m);
    CongSelf((n1 * n2) * norm, m);
    CongMul((n1 * n2) * norm, (n1 * n2) * norm, ra * rb, da * db, m);
    CongSelf(n1, m);
    CongMul(n1, n1, rp, (n2 * norm) * (ra * rb), m);
    Assoc3(n1, n2 * norm, ra * rb);
    Assoc3(n1, n2, norm);
    CongTrans(dr, n1 * rp, ((n1 * n2) * norm) * (ra * rb), m);
    CongTrans(dr, ((n1 * n2) * norm) * (ra * rb), ((n1 * n2) * norm) * (da * db), m);
  }

  // Row r of p is the cyclic convolution of the rows of a and b.
  ghost predicate RowConvolved(a: seq<Limb>, b: seq<Limb>, p: seq<Limb>, r: nat, k2: nat, w2: int, c: int, m: int)
    requires m > 0
  {
    && r * Pow2(k2) + Pow2(k2) <= |a| == |b| == |p|
    && CyclicOk(Row(a, r, Pow2(k2)), Row(b, r, Pow2(k2)), Row(p, r, Pow2(k2)), k2, w2, c, m)
  }

  lemma SplitOutput(k1: nat, k2: nat, w: int, w1: int, w2: int, v: int, v1: int, norm: int, a: seq<Limb>, b: seq<Limb>,
                    a': seq<Limb>, b': seq<Limb>, p: seq<Limb>, r: seq<Limb>, m: int, f1: nat, f2: nat, n: nat, f: nat)
    requires n == Pow2(k1) * Pow2(k2) && f == f1 + Pow2(k1) * f2
    requires m > 0 && 1 <= k1 && f1 < Pow2(k1) && f2 < Pow2(k2) && SplitRoots(w, w1, w2, Pow2(k1), Pow2(k2), m)
    requires PrimitiveRoot(w1, k1, m) && Cong(w1 * v1, 1, m) && Cong(w * v, 1, m)
    requires ColumnsDone(a, a', Pow2(k1), Pow2(k2), w, w1, false, m, Pow2(k2))
    requires ColumnsDone(b, b', Pow2(k1), Pow2(k2), w, w1, false, m, Pow2(k2))
    requires ColumnsDone(p, r, Pow2(k1), Pow2(k2), v, v1, true, m, Pow2(k2))
    requires RowConvolved(a', b', p, f1, k2, w2, Pow2(k2) * norm, m)
    ensures CyclicAt(SeqFn(a), SeqFn(b), SeqFn(r), n, w, n * norm, m, f)
  {
    var n1, n2 := Pow2(k1), Pow2(k2);
    hide Cong;
    hide Dft;
    hide PrimitiveRoot;
    hide SplitRoots;
    hide ColumnsDone;
    hide Row;
    hide SeqFn;
    ForwardRow(a, a', n1, n2, w, w1, w2, f1, f2, m);
    ForwardRow(b, b', n1, n2, w, w1, w2, f1, f2, m);
    BackwardRow(p, r, k1, n2, w, w1, w2, v, v1, f1, f2, m);
    hide Pow2;
    var ra, rb, rp := SeqFn(Row(a', f1, n2)), SeqFn(Row(b', f1, n2)), SeqFn(Row(p, f1, n2));
    assert CyclicAt(ra, rb, rp, n2, w2, n2 * norm, m, f2);
    hide RowConvolved;
    hide CyclicOk;
    SplitAt(Dft(SeqFn(a), n, w, f), Dft(SeqFn(b), n, w, f), Dft(SeqFn(r), n, w, f),
            Dft(ra, n2, w2, f2), Dft(rb, n2, w2, f2), Dft(rp, n2, w2, f2), n1, n2, norm, m);
  }

  ghost predicate AllRows(a: seq<Limb>, b: seq<Limb>, p: seq<Limb>, n1: nat, k2: nat, w2: int, c: int, m: int)
    requires m > 0
  {
    forall r: nat :: r < n1 ==> RowConvolved(a, b, p, r, k2, w2, c, m)
  }

  // Convolving the rows between the partial transforms convolves the whole.
  lemma SplitConvolved(s: NttMod, k1: nat, k2: nat, norm: Limb, a: seq<Limb>, b: seq<Limb>, a': seq<Limb>,
                       b': seq<Limb>, p: seq<Limb>, r: seq<Limb>)
    requires ValidMod(s) && 1 <= k1 && 1 <= k2 && k1 + k2 <= NTT_PROOT_2EXP && Below(r, 2 * s.m)
    requires PartialDone(a, a', k1, k2, s.proot, false, s.m) && PartialDone(b, b', k1, k2, s.proot, false, s.m)
    requires PartialDone(p, r, k1, k2, s.prootInv, true, s.m)
    requires AllRows(a', b', p, Pow2(k1), k2, s.proot[k2], Pow2(k2) * norm, s.m)
    ensures CyclicOk(a, b, r, k1 + k2, s.proot[k1 + k2], Pow2(k1 + k2) * norm, s.m)
  {
    var m, n1, n2 := s.m, Pow2(k1), Pow2(k2);
    var n := n1 * n2;
    var w, w1, w2, v, v1 := s.proot[k1 + k2], s.proot[k1], s.proot[k2], s.prootInv[k1 + k2], s.prootInv[k1];
    Pow2Add(k1, k2);
    RootsPrimitive(s.proot, k1, m);
    PartRoots(s.proot, k1, k2, m);
    assert InverseRoots(s, k1 + k2) && InverseRoots(s, k1);
    PartialSize(a, a', k1, k2, s.proot, false, m);
    PartialSize(b, b', k1, k2, s.proot, false, m);
    PartialSize(p, r, k1, k2, s.prootInv, true, m);
    hide Cong;
    hide Pow2;
    hide CyclicAt;
    hide RowConvolved;
    hide ValidMod;
    hide ColumnsDone;
    hide SplitRoots;
    hide PrimitiveRoot;
    hide Below;
    var c := n * norm;
    forall f: nat | f < n ensures CyclicAt(SeqFn(a), SeqFn(b), SeqFn(r), n, w, c, m, f) {
      var f1, f2 := OutputSplit(f, n1, n2);
      SplitOutput(k1, k2, w, w1, w2, v, v1, norm, a, b, a', b', p, r, m, f1, f2, n, f);
    }
  }

  lemma OutputSplit(f: nat, n1: nat, n2: nat) returns (f1: nat, f2: nat)
    requires f < n1 * n2
    ensures f == f1 + n1 * f2 && f1 < n1 && f2 < n2
  {
    assert n1 * n2 == n2 * n1;
    RowBelow(f, n2, n1);
    f1, f2 := f % n1, f / n1;
  }

  lemma PartialSize(was: seq<Limb>, now: seq<Limb>, k1: nat, k2: nat, roots: seq<Limb>, inverse: bool, m: int)
    requires m > 0 && k1 + k2 < |roots| && PartialDone(was, now, k1, k2, roots, inverse, m)
    ensures |was| == |now| == Pow2(k1) * Pow2(k2)
  {
    hide ColumnsAt;
    Pow2Add(k1, 0);
    assert Pow2(0) == 1;
  }

  // ----- Cyclic convolution is convolution when nothing wraps around -----

  ghost predicate Convolved(a: seq<Limb>, b: seq<Limb>, r: seq<Limb>, m: int)
    requires m > 0
  {
    && |r| == |a| == |b| && Below(r, 2 * m)
    && forall i: nat :: i < |r| ==> Cong(r[i], Conv(SeqFn(a), SeqFn(b))(i), m)
  }

  // A transform determines its input: equal outputs, equal inputs.
  lemma DftDetermines(x: nat -> int, y: nat -> int, k: nat, w: int, v: int, norm: int, g: nat, m: int)
    requires m > 0 && k >= 1 && PrimitiveRoot(w, k, m) && Cong(w * v, 1, m) && Cong(Pow2(k) * norm, 1, m) && g < Pow2(k)
    requires forall f: nat :: f < Pow2(k) ==> Cong(DftFn(x, Pow2(k), w)(f), DftFn(y, Pow2(k), w)(f), m)
    ensures Cong(x(g), y(g), m)
  {
    hide Cong;
    hide PrimitiveRoot;
    hide Dft;
    hide Pow2;
    var n := Pow2(k);
    InverseDft(x, k, w, v, g, m);
    InverseDft(y, k, w, v, g, m);
    hide DftFn;
    var dx, dy := Dft(DftFn(x, n, w), n, v, g), Dft(DftFn(y, n, w), n, v, g);
    DftCong(DftFn(x, n, w), DftFn(y, n, w), n, v, g, m);
    CongSym(dx, n * x(g), m);
    CongTrans(n * x(g), dx, dy, m);
    CongTrans(n * x(g), dy, n * y(g), m);
    CongSelf(norm, m);
    CongMul(norm, norm, n * x(g), n * y(g), m);
    CancelLength(n, norm, x(g), m);
    CancelLength(n, norm, y(g), m);
    CongSym(norm * (n * x(g)), x(g), m);
    CongTrans(x(g), norm * (n * x(g)), norm * (n * y(g)), m);
    CongTrans(x(g), norm * (n * y(g)), y(g), m);
  }

  lemma CancelLength(n: int, norm: int, x: int, m: int)
    requires m > 0 && Cong(n * norm, 1, m)
    ensures Cong(norm * (n * x), x, m)
  {
    hide Cong;
    CongSelf(x, m);
    CongMul(n * norm, 1, x, x, m);
    Assoc3(norm, n, x);
    assert norm * n == n * norm;
  }

  lemma CyclicIsConvolution(s: NttMod, k: nat, a: seq<Limb>, b: seq<Limb>, r: seq<Limb>)
    requires ValidMod(s) && 1 <= k <= NTT_PROOT_2EXP && NoOverlap(SeqFn(a), SeqFn(b), Pow2(k))
    requires CyclicOk(a, b, r, k, s.proot[k], Pow2(k) * s.lenInv[k], s.m)
    ensures Convolved(a, b, r, s.m)
  {
    var m, n, w, v, norm := s.m, Pow2(k), s.proot[k], s.prootInv[k], s.lenInv[k];
    RootsPrimitive(s.proot, k, m);
    assert InverseRoots(s, k) && LenInverse(s, k);
    hide Cong;
    hide Pow2;
    hide ValidMod;
    hide NoOverlap;
    hide PrimitiveRoot;
    var c := Conv(SeqFn(a), SeqFn(b));
    hide Conv;
    forall f: nat | f < n ensures Cong(DftFn(SeqFn(r), n, w)(f), DftFn(c, n, w)(f), m) {
      assert CyclicAt(SeqFn(a), SeqFn(b), SeqFn(r), n, w, n * norm, m, f);
      Convolution(SeqFn(a), SeqFn(b), n, Exp(w, f));
      var y := Dft(SeqFn(a), n, w, f) * Dft(SeqFn(b), n, w, f);
      UnitFactor(DftFn(SeqFn(r), n, w)(f), n * norm, y, m);
    }
    hide DftFn;
    forall i: nat | i < n ensures Cong(r[i], c(i), m) {
      DftDetermines(SeqFn(r), c, k, w, v, norm, i, m);
      SeqValue(r, i);
    }
  }

  lemma UnitFactor(x: int, u: int, y: int, m: int)
    requires m > 0 && Cong(x, u * y, m) && Cong(u, 1, m)
    ensures Cong(x, y, m)
  {
    hide Cong;
    CongSelf(y, m);
    CongMul(u, 1, y, y, m);
    CongTrans(x, u * y, y, m);
  }

  // ----- ntt_conv -----

  lemma ModFacts(s: NttMod)
    requires ValidMod(s)
    ensures Modulus(s.m) && s.mInv == WIDE / s.m && ValidRoots(s.proot, s.m) && ValidRoots(s.prootInv, s.m)
    ensures |s.proot| == |s.prootInv| == |s.lenInv| == NTT_PROOT_2EXP + 1
  {
  }

  lemma ProductsBelow(a: seq<Limb>, b: seq<Limb>, r: seq<Limb>, norm: Limb, m: int)
    requires m > 0 && Products(a, b, r, norm, m)
    ensures Below(r, 2 * m)
  {
    forall i | 0 <= i < |r| ensures r[i] < 2 * m {
      assert ProductAt(a[i], b[i], r[i], norm, m);
    }
  }

  // ntt_conv when no split is needed: k2 is 0.
  method ConvolveDirect(s: NttMod, buf1: array<Limb>, o1: nat, buf2: array<Limb>, o2: nat, k: nat, kTot: nat)
    requires ValidMod(s) && 1 <= k <= NTT_TRIG_K_MAX && kTot <= NTT_PROOT_2EXP && buf1 != buf2
    requires o1 + Pow2(k) <= buf1.Length && o2 + Pow2(k) <= buf2.Length
    requires Below(buf1[o1..o1 + Pow2(k)], 2 * s.m) && Below(buf2[o2..o2 + Pow2(k)], 2 * s.m)
    modifies buf1, buf2
    ensures CyclicOk(old(buf1[o1..o1 + Pow2(k)]), old(buf2[o2..o2 + Pow2(k)]), buf1[o1..o1 + Pow2(k)], k, s.proot[k],
                     Pow2(k) * s.lenInv[kTot], s.m)
    ensures Outside(old(buf1[..]), buf1[..], o1, Pow2(k)) && Outside(old(buf2[..]), buf2[..], o2, Pow2(k))
  {
    hide Cong;
    hide ValidMod;
    hide Transformed;
    hide Products;
    hide Outside;
    hide CyclicOk;
    ModFacts(s);
    var n := Pow2(k);
    assert k + 0 == k;
    hide Pow2;
    ghost var w1, w2 := buf1[..], buf2[..];
    ghost var a, b := buf1[o1..o1 + n], buf2[o2..o2 + n];
    FftPartial(buf1, o1, k, 0, s.proot, s.m, s.mInv, false);
    ghost var t1 := buf1[..];
    FftPartial(buf2, o2, k, 0, s.proot, s.m, s.mInv, false);
    ghost var a', b' := buf1[o1..o1 + n], buf2[o2..o2 + n];
    NttVecMul(s, buf1, o1, buf2, o2, k, kTot);
    ghost var p, t2 := buf1[o1..o1 + n], buf1[..];
    ProductsBelow(a', b', p, s.lenInv[kTot], s.m);
    FftPartial(buf1, o1, k, 0, s.prootInv, s.m, s.mInv, true);
    BuffersConvolved(s, k, s.lenInv[kTot], a, b, a', b', p, buf1[o1..o1 + n]);
    StripOutside(w1, t1, t2, o1, n);
    StripOutside(w1, t2, buf1[..], o1, n);
  }

  // The first i rows have been convolved, the others are unchanged.
  ghost predicate RowsConvolved(a: seq<Limb>, b: seq<Limb>, x: seq<Limb>, y: seq<Limb>, n1: nat, k2: nat, w2: int,
                                c: int, m: int, i: nat)
    requires m > 0
  {
    && |a| == |b| == |x| == |y| == n1 * Pow2(k2) && Below(x, 2 * m)
    && forall r: nat :: r < n1 ==> RowState(a, b, x, y, k2, w2, c, m, i, r)
  }

  ghost predicate RowState(a: seq<Limb>, b: seq<Limb>, x: seq<Limb>, y: seq<Limb>, k2: nat, w2: int, c: int, m: int,
                           i: nat, r: nat)
    requires m > 0
  {
    && r * Pow2(k2) + Pow2(k2) <= |a| == |b| == |x| == |y|
    && if r < i then RowConvolved(a, b, x, r, k2, w2, c, m)
       else Row(x, r, Pow2(k2)) == Row(a, r, Pow2(k2)) && Row(y, r, Pow2(k2)) == Row(b, r, Pow2(k2))
  }

  lemma RowsStart(a: seq<Limb>, b: seq<Limb>, n1: nat, k2: nat, w2: int, c: int, m: int)
    requires m > 0 && |a| == |b| == n1 * Pow2(k2) && Below(a, 2 * m)
    ensures RowsConvolved(a, b, a, b, n1, k2, w2, c, m, 0)
  {
    hide Pow2;
    forall r: nat | r < n1 ensures RowState(a, b, a, b, k2, w2, c, m, 0, r) {
      RowInside(r, n1, Pow2(k2));
    }
  }

  // Row r is not touched by what happens to row i.
  lemma OtherRow(was: seq<Limb>, now: seq<Limb>, i: nat, r: nat, n: nat)
    requires Outside(was, now, i * n, n) && r != i && r * n + n <= |was|
    ensures Row(now, r, n) == Row(was, r, n)
  {
    RowKept(was, now, i, r, n, Row(was, r, n));
  }

  lemma RowsStep(a: seq<Limb>, b: seq<Limb>, x: seq<Limb>, y: seq<Limb>, x': seq<Limb>, y': seq<Limb>, n1: nat, k2: nat,
                 w2: int, c: int, m: int, i: nat)
    requires m > 0 && RowsConvolved(a, b, x, y, n1, k2, w2, c, m, i) && i < n1 && i * Pow2(k2) + Pow2(k2) <= |x|
    requires Outside(x, x', i * Pow2(k2), Pow2(k2)) && Outside(y, y', i * Pow2(k2), Pow2(k2))
    requires CyclicOk(Row(x, i, Pow2(k2)), Row(y, i, Pow2(k2)), Row(x', i, Pow2(k2)), k2, w2, c, m)
    ensures RowsConvolved(a, b, x', y', n1, k2, w2, c, m, i + 1)
  {
    var n2, i' := Pow2(k2), i + 1;
    hide Pow2;
    hide CyclicAt;
    forall r: nat | r < n1 ensures RowState(a, b, x', y', k2, w2, c, m, i', r) {
      assert RowState(a, b, x, y, k2, w2, c, m, i, r);
      hide CyclicOk;
      if r != i {
        OtherRow(x, x', i, r, n2);
        OtherRow(y, y', i, r, n2);
      }
    }
    forall q | 0 <= q < |x'| ensures x'[q] < 2 * m {
      if i * n2 <= q < i * n2 + n2 {
        assert Row(x', i, n2)[q - i * n2] == x'[q];
      }
    }
  }

  lemma RowInput(a: seq<Limb>, b: seq<Limb>, x: seq<Limb>, y: seq<Limb>, n1: nat, k2: nat, w2: int, c: int, m: int,
                 i: nat)
    requires m > 0 && RowsConvolved(a, b, x, y, n1, k2, w2, c, m, i) && i < n1 && Below(b, 2 * m)
    ensures i * Pow2(k2) + Pow2(k2) <= |x| == |y|
    ensures Below(Row(x, i, Pow2(k2)), 2 * m) && Below(Row(y, i, Pow2(k2)), 2 * m)
  {
    hide CyclicOk;
    hide Pow2;
    assert RowState(a, b, x, y, k2, w2, c, m, i, i);
  }

  // The row at offset q of tables of n entries.
  method OneRow(s: NttMod, buf1: array<Limb>, o1: nat, buf2: array<Limb>, o2: nat, q: nat, k2: nat, kTot: nat,
                ghost n: nat)
    requires ValidMod(s) && 1 <= k2 <= NTT_PROOT_2EXP && kTot <= NTT_PROOT_2EXP && buf1 != buf2
    requires q + Pow2(k2) <= n && o1 + n <= buf1.Length && o2 + n <= buf2.Length
    requires Below(buf1[o1..o1 + n][q..q + Pow2(k2)], 2 * s.m) && Below(buf2[o2..o2 + n][q..q + Pow2(k2)], 2 * s.m)
    modifies buf1, buf2
    ensures CyclicOk(old(buf1[o1..o1 + n][q..q + Pow2(k2)]), old(buf2[o2..o2 + n][q..q + Pow2(k2)]),
                     buf1[o1..o1 + n][q..q + Pow2(k2)], k2, s.proot[k2], Pow2(k2) * s.lenInv[kTot], s.m)
    ensures Outside(old(buf1[..]), buf1[..], o1, n) && Outside(old(buf2[..]), buf2[..], o2, n)
    ensures Outside(old(buf1[o1..o1 + n]), buf1[o1..o1 + n], q, Pow2(k2))
    ensures Outside(old(buf2[o2..o2 + n]), buf2[o2..o2 + n], q, Pow2(k2))
    decreases k2, 1
  {
    ModFacts(s);
    hide ValidMod;
    hide CyclicOk;
    hide Outside;
    hide Below;
    ghost var n2 := Pow2(k2);
    hide Pow2;
    ghost var w, z := buf1[..], buf2[..];
    WindowSlice(buf1, o1, q, n2, n);
    WindowSlice(buf2, o2, q, n2, n);
    Convolve(s, buf1, o1 + q, buf2, o2 + q, k2, kTot);
    WindowSlice(buf1, o1, q, n2, n);
    WindowSlice(buf2, o2, q, n2, n);
    WindowOutside(w, buf1[..], o1, q, n2, n);
    WindowOutside(z, buf2[..], o2, q, n2, n);
  }

  // A part of a window of an array.
  lemma WindowSlice(buf: array<Limb>, o: nat, q: nat, t: nat, n: nat)
    requires q + t <= n && o + n <= buf.Length
    ensures buf[o + q..o + q + t] == buf[o..o + n][q..q + t] && buf[..][o..o + n] == buf[o..o + n]
  {
    var window, part := buf[o..o + n], buf[o + q..o + q + t];
    assert buf[..][o..o + n] == window;
    forall i | 0 <= i < t ensures part[i] == window[q..q + t][i] {
      assert part[i] == buf[o + q + i] && window[q + i] == buf[o + (q + i)];
    }
  }

  // The loop over the rows.
  method ConvolveRows(s: NttMod, buf1: array<Limb>, o1: nat, buf2: array<Limb>, o2: nat, n1: nat, k2: nat, kTot: nat,
                      ghost n: nat)
    requires ValidMod(s) && 1 <= k2 <= NTT_PROOT_2EXP && kTot <= NTT_PROOT_2EXP && buf1 != buf2
    requires n == n1 * Pow2(k2) && o1 + n <= buf1.Length && o2 + n <= buf2.Length
    requires Below(buf1[o1..o1 + n], 2 * s.m) && Below(buf2[o2..o2 + n], 2 * s.m)
    modifies buf1, buf2
    ensures Below(buf1[o1..o1 + n], 2 * s.m)
    ensures AllRows(old(buf1[o1..o1 + n]), old(buf2[o2..o2 + n]), buf1[o1..o1 + n], n1, k2, s.proot[k2],
                    Pow2(k2) * s.lenInv[kTot], s.m)
    ensures Outside(old(buf1[..]), buf1[..], o1, n) && Outside(old(buf2[..]), buf2[..], o2, n)
    decreases k2, 2
  {
    ModFacts(s);
    hide ValidMod;
    hide CyclicOk;
    var n2 := Pow2(k2);
    hide Pow2;
    ghost var m, w2, c := s.m, s.proot[k2], n2 * s.lenInv[kTot];
    ghost var w, z := buf1[..], buf2[..];
    ghost var a, b := buf1[o1..o1 + n], buf2[o2..o2 + n];
    RowsStart(a, b, n1, k2, w2, c, m);
    hide RowsConvolved;
    OutsideSelf(w, o1, n);
    OutsideSelf(z, o2, n);
    hide Outside;
    hide Below;
    var i := 0;
    while i < n1
      invariant 0 <= i <= n1
      invariant RowsConvolved(a, b, buf1[o1..o1 + n], buf2[o2..o2 + n], n1, k2, w2, c, m, i)
      invariant Outside(w, buf1[..], o1, n) && Outside(z, buf2[..], o2, n)
    {
      ghost var x, y, m1, m2 := buf1[o1..o1 + n], buf2[o2..o2 + n], buf1[..], buf2[..];
      RowInput(a, b, x, y, n1, k2, w2, c, m, i);
      OneRow(s, buf1, o1, buf2, o2, i * n2, k2, kTot, n);
      RowsStep(a, b, x, y, buf1[o1..o1 + n], buf2[o2..o2 + n], n1, k2, w2, c, m, i);
      StripOutside(w, m1, buf1[..], o1, n);
      StripOutside(z, m2, buf2[..], o2, n);
      i := i + 1;
    }
    RowsEnd(a, b, buf1[o1..o1 + n], buf2[o2..o2 + n], n1, k2, w2, c, m);
  }

  lemma RowsEnd(a: seq<Limb>, b: seq<Limb>, x: seq<Limb>, y: seq<Limb>, n1: nat, k2: nat, w2: int, c: int, m: int)
    requires m > 0 && RowsConvolved(a, b, x, y, n1, k2, w2, c, m, n1)
    ensures Below(x, 2 * m) && AllRows(a, b, x, n1, k2, w2, c, m)
  {
    hide RowConvolved;
    hide Pow2;
    forall r: nat | r < n1 ensures RowConvolved(a, b, x, r, k2, w2, c, m) {
      assert RowState(a, b, x, y, k2, w2, c, m, n1, r);
    }
  }

  // A change within a part of a window.
  lemma WindowOutside(was: seq<Limb>, now: seq<Limb>, o: nat, q: nat, t: nat, n: nat)
    requires Outside(was, now, o + q, t) && q + t <= n && o + n <= |was|
    ensures Outside(was, now, o, n) && Outside(was[o..o + n], now[o..o + n], q, t)
  {
  }

  function Least(a: nat, b: nat): nat {
    if a <= b then a else b
  }

  // ntt_conv, the recursive split of long transforms included.
  method Convolve(s: NttMod, buf1: array<Limb>, o1: nat, buf2: array<Limb>, o2: nat, k: nat, kTot: nat)
    requires ValidMod(s) && 1 <= k <= NTT_PROOT_2EXP && kTot <= NTT_PROOT_2EXP && buf1 != buf2
    requires o1 + Pow2(k) <= buf1.Length && o2 + Pow2(k) <= buf2.Length
    requires Below(buf1[o1..o1 + Pow2(k)], 2 * s.m) && Below(buf2[o2..o2 + Pow2(k)], 2 * s.m)
    modifies buf1, buf2
    ensures CyclicOk(old(buf1[o1..o1 + Pow2(k)]), old(buf2[o2..o2 + Pow2(k)]), buf1[o1..o1 + Pow2(k)], k, s.proot[k],
                     Pow2(k) * s.lenInv[kTot], s.m)
    ensures Outside(old(buf1[..]), buf1[..], o1, Pow2(k)) && Outside(old(buf2[..]), buf2[..], o2, Pow2(k))
    decreases k, 0
  {
    var k1 := if k <= NTT_TRIG_K_MAX then k else Least(k / 2, NTT_TRIG_K_MAX);
    var k2 := k - k1;
    if k2 == 0 {
      ConvolveDirect(s, buf1, o1, buf2, o2, k, kTot);
    } else {
      ConvolveSplit(s, buf1, o1, buf2, o2, k1, k2, kTot, Pow2(k));
    }
  }

  method ConvolveSplit(s: NttMod, buf1: array<Limb>, o1: nat, buf2: array<Limb>, o2: nat, k1: nat, k2: nat, kTot: nat,
                       ghost n: nat)
    requires ValidMod(s) && 1 <= k1 <= NTT_TRIG_K_MAX && 4 <= k2 && k1 + k2 <= NTT_PROOT_2EXP
    requires kTot <= NTT_PROOT_2EXP && buf1 != buf2
    requires n == Pow2(k1 + k2) && o1 + n <= buf1.Length && o2 + n <= buf2.Length
    requires Below(buf1[o1..o1 + n], 2 * s.m) && Below(buf2[o2..o2 + n], 2 * s.m)
    modifies buf1, buf2
    ensures CyclicOk(old(buf1[o1..o1 + n]), old(buf2[o2..o2 + n]), buf1[o1..o1 + n], k1 + k2, s.proot[k1 + k2],
                     n * s.lenInv[kTot], s.m)
    ensures Outside(old(buf1[..]), buf1[..], o1, n) && Outside(old(buf2[..]), buf2[..], o2, n)
    decreases k2, 3
  {
    ModFacts(s);
    Pow2Add(k1, k2);
    hide Cong;
    hide ValidMod;
    hide Outside;
    hide CyclicOk;
    hide AllRows;
    hide PartialDone;
    hide Below;
    var n1 := Pow2(k1);
    hide Pow2;
    ghost var w, z := buf1[..], buf2[..];
    ghost var a, b := buf1[o1..o1 + n], buf2[o2..o2 + n];
    FftPartial(buf1, o1, k1, k2, s.proot, s.m, s.mInv, false);
    FftPartial(buf2, o2, k1, k2, s.proot, s.m, s.mInv, false);
    ghost var a', b', w1, z1 := buf1[o1..o1 + n], buf2[o2..o2 + n], buf1[..], buf2[..];
    ConvolveRows(s, buf1, o1, buf2, o2, n1, k2, kTot, n);
    ghost var p, w2 := buf1[o1..o1 + n], buf1[..];
    StripOutside(w, w1, w2, o1, n);
    StripOutside(z, z1, buf2[..], o2, n);
    FftPartial(buf1, o1, k1, k2, s.prootInv, s.m, s.mInv, true);
    SplitConvolved(s, k1, k2, s.lenInv[kTot], a, b, a', b', p, buf1[o1..o1 + n]);
    StripOutside(w, w2, buf1[..], o1, n);
  }
}
