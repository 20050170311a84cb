// Sums, powers and discrete Fourier transforms modulo m: what one pass of the transform does, that
// the inverse transform undoes the forward one, and that products become convolutions.

module NttDft {
  import opened Limbs
  import opened NttArith

  // z^n
  function Exp(z: int, n: nat): int {
    if n == 0 then 1 else z * Exp(z, n - 1)
  }

  // t(0) + ... + t(n - 1)
  ghost function Sum(t: nat -> int, n: nat): int {
    if n == 0 then 0 else Sum(t, n - 1) + t(n - 1)
  }

  // ----- Powers -----

  lemma {:induction false} ExpAdd(z: int, a: nat, b: nat)
    ensures Exp(z, a + b) == Exp(z, a) * Exp(z, b)
  {
    if a > 0 {
      ExpAdd(z, a - 1, b);
      Assoc3(z, Exp(z, a - 1), Exp(z, b));
    }
  }

  lemma Assoc3(a: int, b: int, c: int)
    ensures (a * b) * c == a * (b * c)
  {
  }

  lemma {:induction false} ExpMul(y: int, z: int, n: nat)
    ensures Exp(y * z, n) == Exp(y, n) * Exp(z, n)
  {
    if n > 0 {
      ExpMul(y, z, n - 1);
      Swap4(y, z, Exp(y, n - 1), Exp(z, n - 1));
    }
  }

  lemma Swap4(a: int, b: int, c: int, d: int)
    ensures (a * b) * (c * d) == (a * c) * (b * d)
  {
    Assoc3(a, b, c * d);
    Assoc3(a, c, b * d);
    Assoc3(b, c, d);
    Assoc3(c, b, d);
  }

  lemma {:induction false} ExpExp(z: int, a: nat, b: nat)
    ensures Exp(Exp(z, a), b) == Exp(z, a * b)
  {
    if b > 0 {
      ExpExp(z, a, b - 1);
      ExpAdd(z, a, a * (b - 1));
      assert a + a * (b - 1) == a * b;
    }
  }

  lemma {:induction false} ExpOne(n: nat)
    ensures Exp(1, n) == 1
  {
    if n > 0 {
      ExpOne(n - 1);
    }
  }

  lemma {:induction false} ExpCong(y: int, z: int, n: nat, m: int)
    requires m > 0 && Cong(y, z, m)
    ensures Cong(Exp(y, n), Exp(z, n), m)
  {
    if n == 0 {
      CongSelf(1, m);
    } else {
      ExpCong(y, z, n - 1, m);
      CongMul(y, z, Exp(y, n - 1), Exp(z, n - 1), m);
    }
  }

  // (-1)^n
  lemma {:induction false} ExpMinusOne(n: nat)
    ensures Exp(-1, n) == if n % 2 == 0 then 1 else -1
  {
    if n > 0 {
      ExpMinusOne(n - 1);
    }
  }

  // ----- Sums -----

  lemma {:induction false} SumCong(t: nat -> int, u: nat -> int, n: nat, m: int)
    requires m > 0 && forall i: nat :: i < n ==> Cong(t(i), u(i), m)
    ensures Cong(Sum(t, n), Sum(u, n), m)
  {
    if n == 0 {
      CongSelf(0, m);
    } else {
      SumCong(t, u, n - 1, m);
      CongAdd(Sum(t, n - 1), Sum(u, n - 1), t(n - 1), u(n - 1), m);
    }
  }

  lemma {:induction false} SumSame(t: nat -> int, u: nat -> int, n: nat)
    requires forall i: nat :: i < n ==> t(i) == u(i)
    ensures Sum(t, n) == Sum(u, n)
  {
    if n > 0 {
      SumSame(t, u, n - 1);
    }
  }

  lemma {:induction false} SumAdd(t: nat -> int, u: nat -> int, v: nat -> int, n: nat)
    requires forall i: nat :: i < n ==> v(i) == t(i) + u(i)
    ensures Sum(v, n) == Sum(t, n) + Sum(u, n)
  {
    if n > 0 {
      SumAdd(t, u, v, n - 1);
    }
  }

  lemma {:induction false} SumScale(t: nat -> int, c: int, v: nat -> int, n: nat)
    requires forall i: nat :: i < n ==> v(i) == c * t(i)
    ensures Sum(v, n) == c * Sum(t, n)
  {
    if n > 0 {
      SumScale(t, c, v, n - 1);
      assert c * (Sum(t, n - 1) + t(n - 1)) == c * Sum(t, n - 1) + c * t(n - 1);
    } else {
      assert c * 0 == 0;
    }
  }

  // u is t from position a on.
  lemma {:induction false} SumSplit(t: nat -> int, a: nat, u: nat -> int, b: nat)
    requires forall i: nat :: i < b ==> u(i) == t(a + i)
    ensures Sum(t, a + b) == Sum(t, a) + Sum(u, b)
  {
    if b > 0 {
      SumSplit(t, a, u, b - 1);
    }
  }

  function ShiftFn(t: nat -> int, a: nat): nat -> int {
    (i: nat) => t(a + i)
  }

  lemma SumSplitAt(t: nat -> int, a: nat, b: nat)
    ensures Sum(t, a + b) == Sum(t, a) + Sum(ShiftFn(t, a), b)
  {
    SumSplit(t, a, ShiftFn(t, a), b);
  }

  lemma {:induction false} SumZero(t: nat -> int, n: nat)
    requires forall i: nat :: i < n ==> t(i) == 0
    ensures Sum(t, n) == 0
  {
    if n > 0 {
      SumZero(t, n - 1);
    }
  }

  // A sum with a single term that is not zero.
  lemma {:induction false} SumSingle(t: nat -> int, n: nat, k: nat)
    requires k < n && forall i: nat :: i < n && i != k ==> t(i) == 0
    ensures Sum(t, n) == t(k)
  {
    if k == n - 1 {
      SumZero(t, n - 1);
    } else {
      SumSingle(t, n - 1, k);
    }
  }

  // Rows and columns of a table: the order of summation does not matter.
  function RowFn(f: (nat, nat) -> int, i: nat): nat -> int {
    (j: nat) => f(i, j)
  }

  function ColumnFn(f: (nat, nat) -> int, j: nat): nat -> int {
    (i: nat) => f(i, j)
  }

  ghost function RowSums(f: (nat, nat) -> int, b: nat): nat -> int {
    (i: nat) => Sum(RowFn(f, i), b)
  }

  ghost function ColumnSums(f: (nat, nat) -> int, a: nat): nat -> int {
    (j: nat) => Sum(ColumnFn(f, j), a)
  }

  lemma {:induction false} SumSwap(f: (nat, nat) -> int, a: nat, b: nat)
    ensures Sum(RowSums(f, b), a) == Sum(ColumnSums(f, a), b)
    decreases a
  {
    if a == 0 {
      forall j: nat | j < b ensures ColumnSums(f, 0)(j) == 0 {
        assert Sum(ColumnFn(f, j), 0) == 0;
      }
      SumZero(ColumnSums(f, 0), b);
    } else {
      SumSwap(f, a - 1, b);
      forall j: nat | j < b ensures ColumnSums(f, a)(j) == ColumnSums(f, a - 1)(j) + RowFn(f, a - 1)(j) {
        assert Sum(ColumnFn(f, j), a) == Sum(ColumnFn(f, j), a - 1) + ColumnFn(f, j)(a - 1);
      }
      SumAdd(ColumnSums(f, a - 1), RowFn(f, a - 1), ColumnSums(f, a), b);
    }
  }

  // ----- Transforms -----

  // x(i) * z^i
  function Term(x: nat -> int, z: int): nat -> int {
    (i: nat) => x(i) * Exp(z, i)
  }

  // The polynomial with coefficients x at z.
  ghost function Eval(x: nat -> int, n: nat, z: int): int {
    Sum(Term(x, z), n)
  }

  // Output f of the transform of length n.
  ghost function Dft(x: nat -> int, n: nat, w: int, f: nat): int {
    Eval(x, n, Exp(w, f))
  }

  ghost function DftFn(x: nat -> int, n: nat, w: int): nat -> int {
    (f: nat) => Dft(x, n, w, f)
  }

  // w is a primitive root of order 2^k: its 2^(k-1)-th power is -1.
  ghost predicate PrimitiveRoot(w: int, k: nat, m: int)
    requires m > 0 && k >= 1
  {
    Cong(Exp(w, Pow2(k - 1)), -1, m)
  }

  lemma SquareRoot(w: int, k: nat, m: int)
    requires m > 0 && k >= 2 && PrimitiveRoot(w, k, m)
    ensures PrimitiveRoot(w * w, k - 1, m)
  {
    var h := Pow2(k - 2);
    assert Pow2(k - 1) == h + h;
    ExpMul(w, w, h);
    ExpAdd(w, h, h);
  }

  // ----- Geometric sums -----

  function PowerFn(z: int): nat -> int {
    (i: nat) => Exp(z, i)
  }

  lemma GeoDouble(z: int, h: nat)
    ensures Sum(PowerFn(z), h + h) == (1 + Exp(z, h)) * Sum(PowerFn(z), h)
  {
    var up: nat -> int := (i: nat) => Exp(z, h + i);
    SumSplit(PowerFn(z), h, up, h);
    forall i: nat | i < h ensures up(i) == Exp(z, h) * PowerFn(z)(i) {
      ExpAdd(z, h, i);
    }
    SumScale(PowerFn(z), Exp(z, h), up, h);
    assert (1 + Exp(z, h)) * Sum(PowerFn(z), h) == Sum(PowerFn(z), h) + Exp(z, h) * Sum(PowerFn(z), h);
  }

  // The powers of w^d, d not a multiple of the order, add up to zero.
  lemma {:induction false} GeoZero(w: int, k: nat, d: nat, m: int)
    requires m > 0 && k >= 1 && PrimitiveRoot(w, k, m) && 0 < d < Pow2(k)
    ensures Cong(Sum(PowerFn(Exp(w, d)), Pow2(k)), 0, m)
    decreases k
  {
    var h, z := Pow2(k - 1), Exp(w, d);
    assert Pow2(k) == h + h;
    GeoDouble(z, h);
    if d % 2 == 1 {
      ExpExp(w, d, h);
      ExpExp(w, h, d);
      assert d * h == h * d;
      ExpCong(Exp(w, h), -1, d, m);
      ExpMinusOne(d);
      CongSelf(1, m);
      CongAdd(1, 1, Exp(z, h), -1, m);
      CongSelf(Sum(PowerFn(z), h), m);
      CongMul(1 + Exp(z, h), 0, Sum(PowerFn(z), h), Sum(PowerFn(z), h), m);
    } else {
      var e := d / 2;
      Pow2Small();
      assert k != 1;
      ExpExp(w, 2, e);
      ExpTwo(w);
      SquareRoot(w, k, m);
      GeoZero(w * w, k - 1, e, m);
      CongSelf(1 + Exp(z, h), m);
      CongMul(1 + Exp(z, h), 1 + Exp(z, h), Sum(PowerFn(z), h), 0, m);
    }
  }

  lemma ExpTwo(w: int)
    ensures Exp(w, 2) == w * w
  {
    assert Exp(w, 1) == w * Exp(w, 0);
  }

  // ----- The inverse transform -----

  lemma InverseRoot(w: int, v: int, k: nat, m: int)
    requires m > 0 && k >= 1 && PrimitiveRoot(w, k, m) && Cong(w * v, 1, m)
    ensures PrimitiveRoot(v, k, m)
  {
    hide Cong;
    var h := Pow2(k - 1);
    ExpMul(w, v, h);
    ExpCong(w * v, 1, h, m);
    ExpOne(h);
    CongSelf(Exp(v, h), m);
    CongMul(Exp(w, h), -1, Exp(v, h), Exp(v, h), m);
    CongSym(Exp(w, h) * Exp(v, h), 1, m);
    CongTrans(1, Exp(w, h) * Exp(v, h), -1 * Exp(v, h), m);
    CongSelf(0, m);
    CongAdd(0, 0, 1, -1 * Exp(v, h), m);
    CongSym(-1, Exp(v, h), m);
  }

  // w^i * v^g, with v the inverse of w.
  function Cross(w: int, v: int, i: nat, g: nat): int {
    if i < g then Exp(v, g - i) else Exp(w, i - g)
  }

  lemma CrossReduce(w: int, v: int, i: nat, g: nat, m: int)
    requires m > 0 && Cong(w * v, 1, m)
    ensures Cong(Exp(w, i) * Exp(v, g), Cross(w, v, i, g), m)
  {
    hide Cong;
    var c := if i < g then i else g;
    var y := Cross(w, v, i, g);
    ExpMul(w, v, c);
    ExpCong(w * v, 1, c, m);
    ExpOne(c);
    if i < g {
      ExpAdd(v, i, g - i);
    } else {
      ExpAdd(w, g, i - g);
    }
    Regroup(Exp(w, c), Exp(v, c), y);
    CongSelf(y, m);
    CongMul(Exp(w * v, c), 1, y, y, m);
  }

  lemma CrossZero(w: int, v: int, k: nat, i: nat, g: nat, m: int)
    requires m > 0 && k >= 1 && PrimitiveRoot(w, k, m) && Cong(w * v, 1, m) && i < Pow2(k) && g < Pow2(k) && i != g
    ensures Cong(Sum(PowerFn(Cross(w, v, i, g)), Pow2(k)), 0, m)
  {
    hide Cong;
    hide Sum;
    if i < g {
      InverseRoot(w, v, k, m);
      GeoZero(v, k, g - i, m);
    } else {
      GeoZero(w, k, i - g, m);
    }
  }

  // The powers of w^i * v^g add up to the length when i = g, and to zero otherwise.
  lemma CrossPower(w: int, v: int, k: nat, i: nat, g: nat, m: int)
    requires m > 0 && k >= 1 && PrimitiveRoot(w, k, m) && Cong(w * v, 1, m) && i < Pow2(k) && g < Pow2(k)
    ensures Cong(Sum(PowerFn(Exp(w, i) * Exp(v, g)), Pow2(k)), if i == g then Pow2(k) else 0, m)
  {
    hide Cong;
    hide Sum;
    hide Exp;
    hide Pow2;
    hide PrimitiveRoot;
    var n, z, y := Pow2(k), Exp(w, i) * Exp(v, g), Cross(w, v, i, g);
    CrossReduce(w, v, i, g, m);
    forall f: nat | f < n ensures Cong(PowerFn(z)(f), PowerFn(y)(f), m) {
      ExpCong(z, y, f, m);
    }
    SumCong(PowerFn(z), PowerFn(y), n, m);
    if i == g {
      ExpZero(w);
      assert y == 1;
      CountOnes(n);
    } else {
      CrossZero(w, v, k, i, g, m);
      CongTrans(Sum(PowerFn(z), n), Sum(PowerFn(y), n), 0, m);
    }
  }

  lemma ExpZero(w: int)
    ensures Exp(w, 0) == 1
  {
  }

  lemma Regroup(a: int, b: int, y: int)
    ensures (a * b) * y == a * (b * y) && (a * b) * y == (a * y) * b
  {
  }

  lemma {:induction false} CountOnes(n: nat)
    ensures Sum(PowerFn(1), n) == n
  {
    if n > 0 {
      CountOnes(n - 1);
      ExpOne(n - 1);
    }
  }

  // One entry of the double sum of a transform followed by its inverse.
  function InverseTable(x: nat -> int, w: int, v: int, g: nat): (nat, nat) -> int {
    (f: nat, i: nat) => (x(i) * Exp(Exp(w, f), i)) * Exp(Exp(v, g), f)
  }

  // Transforming forward and then backward multiplies by the length.
  lemma InverseDft(x: nat -> int, k: nat, w: int, v: int, g: nat, m: int)
    requires m > 0 && k >= 1 && PrimitiveRoot(w, k, m) && Cong(w * v, 1, m) && g < Pow2(k)
    ensures Cong(Dft(DftFn(x, Pow2(k), w), Pow2(k), v, g), Pow2(k) * x(g), m)
  {
    hide Cong;
    var n, t := Pow2(k), InverseTable(x, w, v, g);
    forall f: nat | f < n ensures Term(DftFn(x, n, w), Exp(v, g))(f) == RowSums(t, n)(f) {
      InverseRow(x, n, w, v, g, f);
    }
    SumSame(Term(DftFn(x, n, w), Exp(v, g)), RowSums(t, n), n);
    SumSwap(t, n, n);
    var only: nat -> int := (i: nat) => if i == g then n * x(g) else 0;
    forall i: nat | i < n ensures Cong(ColumnSums(t, n)(i), only(i), m) {
      InverseColumn(x, k, w, v, g, i, m);
    }
    SumCong(ColumnSums(t, n), only, n, m);
    SumSingle(only, n, g);
  }

  lemma InverseRow(x: nat -> int, n: nat, w: int, v: int, g: nat, f: nat)
    ensures Term(DftFn(x, n, w), Exp(v, g))(f) == RowSums(InverseTable(x, w, v, g), n)(f)
  {
    var t, c := InverseTable(x, w, v, g), Exp(Exp(v, g), f);
    forall i: nat | i < n ensures RowFn(t, f)(i) == c * Term(x, Exp(w, f))(i) {
    }
    SumScale(Term(x, Exp(w, f)), c, RowFn(t, f), n);
    assert DftFn(x, n, w)(f) == Sum(Term(x, Exp(w, f)), n);
  }

  lemma InverseColumn(x: nat -> int, k: nat, w: int, v: int, g: nat, i: nat, m: int)
    requires m > 0 && k >= 1 && PrimitiveRoot(w, k, m) && Cong(w * v, 1, m) && g < Pow2(k) && i < Pow2(k)
    ensures Cong(ColumnSums(InverseTable(x, w, v, g), Pow2(k))(i), if i == g then Pow2(k) * x(g) else 0, m)
  {
    hide Cong;
    var n, t, z := Pow2(k), InverseTable(x, w, v, g), Exp(w, i) * Exp(v, g);
    forall f: nat | f < n ensures ColumnFn(t, i)(f) == x(i) * PowerFn(z)(f) {
      ExpExp(w, f, i);
      ExpExp(w, i, f);
      assert f * i == i * f;
      ExpMul(Exp(w, i), Exp(v, g), f);
      Assoc3(x(i), Exp(Exp(w, i), f), Exp(Exp(v, g), f));
    }
    SumScale(PowerFn(z), x(i), ColumnFn(t, i), n);
    CrossPower(w, v, k, i, g, m);
    CongSelf(x(i), m);
    CongMul(x(i), x(i), Sum(PowerFn(z), n), if i == g then n else 0, m);
  }

  // ----- Linearity -----

  lemma DftCong(x: nat -> int, y: nat -> int, n: nat, w: int, f: nat, m: int)
    requires m > 0 && forall i: nat :: i < n ==> Cong(x(i), y(i), m)
    ensures Cong(Dft(x, n, w, f), Dft(y, n, w, f), m)
  {
    hide Cong;
    hide Exp;
    hide Sum;
    var z := Exp(w, f);
    forall i: nat | i < n ensures Cong(Term(x, z)(i), Term(y, z)(i), m) {
      TermValue(x, z, i);
      TermValue(y, z, i);
      CongSelf(Exp(z, i), m);
      CongMul(x(i), y(i), Exp(z, i), Exp(z, i), m);
    }
    SumCong(Term(x, z), Term(y, z), n, m);
  }

  function ScaleFn(x: nat -> int, c: int): nat -> int {
    (i: nat) => ScaleAt(x, c, i)
  }

  function ScaleAt(x: nat -> int, c: int, i: nat): int {
    c * x(i)
  }

  lemma ScaleValue(x: nat -> int, c: int, i: nat)
    ensures ScaleFn(x, c)(i) == c * x(i)
  {
    assert ScaleFn(x, c)(i) == ScaleAt(x, c, i);
  }

  lemma DftScale(x: nat -> int, c: int, n: nat, w: int, f: nat)
    ensures Dft(ScaleFn(x, c), n, w, f) == c * Dft(x, n, w, f)
  {
    hide Exp;
    hide Sum;
    var z := Exp(w, f);
    forall i: nat | i < n ensures Term(ScaleFn(x, c), z)(i) == c * Term(x, z)(i) {
      TermValue(ScaleFn(x, c), z, i);
      TermValue(x, z, i);
      ScaleValue(x, c, i);
      hide ScaleFn;
      hide Term;
      Assoc3(c, x(i), Exp(z, i));
    }
    SumScale(Term(x, z), c, Term(ScaleFn(x, c), z), n);
  }

  // ----- Convolution -----

  function ConvTerm(a: nat -> int, b: nat -> int, k: nat): nat -> int {
    (i: nat) => if i <= k then a(i) * b(k - i) else 0
  }

  // Coefficient k of the product of two polynomials.
  ghost function Conv(a: nat -> int, b: nat -> int): nat -> int {
    (k: nat) => Sum(ConvTerm(a, b, k), k + 1)
  }

  function ConvTable(a: nat -> int, b: nat -> int, z: int): (nat, nat) -> int {
    (k: nat, i: nat) => if i <= k then (a(i) * b(k - i)) * Exp(z, k) else 0
  }

  // The product has degree below n.
  ghost predicate NoOverlap(a: nat -> int, b: nat -> int, n: nat) {
    forall i: nat, j: nat :: i < n && j < n && i + j >= n ==> a(i) * b(j) == 0
  }

  function ZeroFn(): nat -> int {
    (i: nat) => 0
  }

  lemma ConvRow(a: nat -> int, b: nat -> int, n: nat, z: int, k: nat)
    requires k < n
    ensures RowSums(ConvTable(a, b, z), n)(k) == Term(Conv(a, b), z)(k)
  {
    hide Sum;
    hide Exp;
    var row := RowFn(ConvTable(a, b, z), k);
    SumSplit(row, k + 1, ZeroFn(), n - (k + 1));
    SumZero(ZeroFn(), n - (k + 1));
    forall i: nat | i < k + 1 ensures row(i) == Exp(z, k) * ConvTerm(a, b, k)(i) {
      assert row(i) == ConvTable(a, b, z)(k, i);
    }
    SumScale(ConvTerm(a, b, k), Exp(z, k), row, k + 1);
    assert Conv(a, b)(k) == Sum(ConvTerm(a, b, k), k + 1);
  }

  // a(i) * z^i times the terms of b.
  function ColumnTerms(a: nat -> int, b: nat -> int, z: int, i: nat): nat -> int {
    (j: nat) => Term(a, z)(i) * Term(b, z)(j)
  }

  lemma ConvColumn(a: nat -> int, b: nat -> int, n: nat, z: int, i: nat)
    requires i < n && NoOverlap(a, b, n)
    ensures ColumnSums(ConvTable(a, b, z), n)(i) == Eval(b, n, z) * Term(a, z)(i)
  {
    hide Sum;
    hide NoOverlap;
    var col, all := ColumnFn(ConvTable(a, b, z), i), ColumnTerms(a, b, z, i);
    SumScale(Term(b, z), Term(a, z)(i), all, n);
    SumSplitAt(col, i, n - i);
    SumSplitAt(all, n - i, i);
    SumZero(col, i);
    ConvHigh(a, b, n, z, i);
    ConvLow(a, b, n, z, i);
  }

  lemma ConvHigh(a: nat -> int, b: nat -> int, n: nat, z: int, i: nat)
    requires i < n && NoOverlap(a, b, n)
    ensures Sum(ShiftFn(ColumnTerms(a, b, z, i), n - i), i) == 0
  {
    hide Sum;
    hide Exp;
    var high := ShiftFn(ColumnTerms(a, b, z, i), n - i);
    forall j: nat | j < i ensures high(j) == 0 {
      assert a(i) * b(n - i + j) == 0;
      assert high(j) == Term(a, z)(i) * Term(b, z)(n - i + j);
      HighTerm(a(i), Exp(z, i), b(n - i + j), Exp(z, n - i + j));
    }
    SumZero(high, i);
  }

  lemma ConvLow(a: nat -> int, b: nat -> int, n: nat, z: int, i: nat)
    requires i < n
    ensures Sum(ShiftFn(ColumnFn(ConvTable(a, b, z), i), i), n - i) == Sum(ColumnTerms(a, b, z, i), n - i)
  {
    hide Sum;
    hide Exp;
    var low, all := ShiftFn(ColumnFn(ConvTable(a, b, z), i), i), ColumnTerms(a, b, z, i);
    forall j: nat | j < n - i ensures low(j) == all(j) {
      ExpAdd(z, i, j);
      Swap4(a(i), b(j), Exp(z, i), Exp(z, j));
      assert i + j - i == j;
      assert low(j) == ConvTable(a, b, z)(i + j, i);
      assert all(j) == Term(a, z)(i) * Term(b, z)(j);
    }
    SumSame(low, all, n - i);
  }

  lemma HighTerm(a: int, x: int, b: int, y: int)
    requires a * b == 0
    ensures (a * x) * (b * y) == 0
  {
    Swap4(a, x, b, y);
    Swap4(a, b, x, y);
    assert 0 * (x * y) == 0;
  }

  // Evaluation turns convolution into multiplication.
  lemma Convolution(a: nat -> int, b: nat -> int, n: nat, z: int)
    requires NoOverlap(a, b, n)
    ensures Eval(a, n, z) * Eval(b, n, z) == Eval(Conv(a, b), n, z)
  {
    var t := ConvTable(a, b, z);
    forall k: nat | k < n ensures Term(Conv(a, b), z)(k) == RowSums(t, n)(k) {
      ConvRow(a, b, n, z, k);
    }
    SumSame(Term(Conv(a, b), z), RowSums(t, n), n);
    SumSwap(t, n, n);
    forall i: nat | i < n ensures ColumnSums(t, n)(i) == Eval(b, n, z) * Term(a, z)(i) {
      ConvColumn(a, b, n, z, i);
    }
    hide Sum;
    SumScale(Term(a, z), Eval(b, n, z), ColumnSums(t, n), n);
  }

  // ----- One pass of the Stockham transform -----

  // The buffer holds s interleaved sequences; this is sequence j.
  function Strided(x: nat -> int, j: nat, s: nat): nat -> int {
    (i: nat) => x(i * s + j)
  }

  // y is obtained from x by one pass with twiddle factors w^i: sums go to sequence j, twisted
  // differences to sequence j + s.
  ghost predicate Pass(x: nat -> int, y: nat -> int, s: nat, h: nat, w: int, m: int)
    requires m > 0
  {
    forall i: nat, j: nat :: i < h && j < s ==> PassAt(x, y, s, h, w, m, i, j)
  }

  ghost predicate PassAt(x: nat -> int, y: nat -> int, s: nat, h: nat, w: int, m: int, i: nat, j: nat)
    requires m > 0
  {
    var a0, a1 := x(i * s + j), x((h + i) * s + j);
    && Cong(y(i * (2 * s) + j), a0 + a1, m)
    && Cong(y(i * (2 * s) + j + s), (a0 - a1) * Exp(w, i), m)
  }

  function SignedTerms(x: nat -> int, h: nat, z: int, sign: int): nat -> int {
    (i: nat) => sign * (x(h + i) * Exp(z, i))
  }

  // x(i) + sign * x(h + i), times z^i
  function BothAt(x: nat -> int, h: nat, z: int, sign: int, i: nat): int {
    (x(i) + sign * x(h + i)) * Exp(z, i)
  }

  function BothTerms(x: nat -> int, h: nat, z: int, sign: int): nat -> int {
    (i: nat) => BothAt(x, h, z, sign, i)
  }

  lemma TermValue(x: nat -> int, z: int, i: nat)
    ensures Term(x, z)(i) == x(i) * Exp(z, i)
  {
    hide Exp;
  }

  lemma ShiftValue(t: nat -> int, a: nat, i: nat)
    ensures ShiftFn(t, a)(i) == t(a + i)
  {
  }

  lemma SignedValue(x: nat -> int, h: nat, z: int, sign: int, i: nat)
    ensures SignedTerms(x, h, z, sign)(i) == sign * (x(h + i) * Exp(z, i))
  {
    hide Exp;
  }

  lemma BothValue(x: nat -> int, h: nat, z: int, sign: int, i: nat)
    ensures BothTerms(x, h, z, sign)(i) == (x(i) + sign * x(h + i)) * Exp(z, i)
  {
    hide Exp;
    assert BothTerms(x, h, z, sign)(i) == BothAt(x, h, z, sign, i);
  }

  lemma HalfTerms(x: nat -> int, h: nat, z: int, sign: int, m: int, i: nat)
    requires m > 0 && Cong(Exp(z, h), sign, m)
    ensures Cong(ShiftFn(Term(x, z), h)(i), SignedTerms(x, h, z, sign)(i), m)
    ensures BothTerms(x, h, z, sign)(i) == Term(x, z)(i) + SignedTerms(x, h, z, sign)(i)
  {
    hide Cong;
    hide Exp;
    hide Term;
    hide ShiftFn;
    hide SignedTerms;
    hide BothTerms;
    TermValue(x, z, i);
    TermValue(x, z, h + i);
    ShiftValue(Term(x, z), h, i);
    SignedValue(x, h, z, sign, i);
    BothValue(x, h, z, sign, i);
    ExpAdd(z, h, i);
    UpTerm(x(h + i), Exp(z, h), Exp(z, i), sign, m);
    SignedTerm(x(i), x(h + i), sign, Exp(z, i));
  }

  // Splitting a sequence of length 2 * h at a point z with z^h = sign.
  lemma Halves(x: nat -> int, h: nat, z: int, sign: int, m: int)
    requires m > 0 && Cong(Exp(z, h), sign, m)
    ensures Cong(Eval(x, 2 * h, z), Sum(BothTerms(x, h, z, sign), h), m)
  {
    hide Cong;
    hide Sum;
    hide Exp;
    hide Term;
    hide ShiftFn;
    hide SignedTerms;
    hide BothTerms;
    var t, up, signed, both := Term(x, z), ShiftFn(Term(x, z), h), SignedTerms(x, h, z, sign), BothTerms(x, h, z, sign);
    assert 2 * h == h + h;
    SumSplitAt(t, h, h);
    forall i: nat | i < h ensures Cong(up(i), signed(i), m) && both(i) == t(i) + signed(i) {
      HalfTerms(x, h, z, sign, m, i);
    }
    SumCong(up, signed, h, m);
    SumAdd(t, signed, both, h);
    CongSelf(Sum(t, h), m);
    CongAdd(Sum(t, h), Sum(t, h), Sum(up, h), Sum(signed, h), m);
  }

  lemma SignedTerm(a: int, b: int, sign: int, e: int)
    ensures (a + sign * b) * e == a * e + sign * (b * e)
  {
    Assoc3(sign, b, e);
  }

  lemma UpTerm(b: int, p: int, e: int, sign: int, m: int)
    requires m > 0 && Cong(p, sign, m)
    ensures Cong(b * (p * e), sign * (b * e), m)
  {
    Swap3(b, p, e);
    CongSelf(b * e, m);
    CongMul(p, sign, b * e, b * e, m);
  }

  lemma Swap3(b: int, p: int, e: int)
    ensures b * (p * e) == p * (b * e)
  {
  }

  // ----- Passes compute the transform -----

  // (w^e)^h for the even and odd outputs.
  lemma HalfPower(w: int, h: nat, e: nat, m: int)
    requires m > 0 && Cong(Exp(w, h), -1, m)
    ensures Cong(Exp(Exp(w, e), h), if e % 2 == 0 then 1 else -1, m)
  {
    hide Cong;
    ExpExp(w, e, h);
    ExpExp(w, h, e);
    assert e * h == h * e;
    ExpCong(Exp(w, h), -1, e, m);
    ExpMinusOne(e);
  }

  // w^(2 * r + odd) is v^r, times w if odd.
  lemma SquaredPower(w: int, v: int, r: nat, odd: nat, m: int)
    requires m > 0 && Cong(v, w * w, m) && odd <= 1
    ensures Cong(Exp(w, 2 * r + odd), Exp(w, odd) * Exp(v, r), m)
  {
    hide Cong;
    ExpExp(w, 2, r);
    ExpTwo(w);
    ExpAdd(w, odd, 2 * r);
    CongSym(v, w * w, m);
    ExpCong(w * w, v, r, m);
    CongSelf(Exp(w, odd), m);
    CongMul(Exp(w, odd), Exp(w, odd), Exp(w * w, r), Exp(v, r), m);
  }

  // One term of the output sequence j + odd * s.
  lemma PassTerm(x: nat -> int, y: nat -> int, s: nat, h: nat, w: int, v: int, m: int, j: nat, r: nat, odd: nat, i: nat)
    requires m > 0 && odd <= 1 && Cong(v, w * w, m) && PassAt(x, y, s, h, w, m, i, j)
    ensures var sign := if odd == 0 then 1 else -1;
      Cong(BothTerms(Strided(x, j, s), h, Exp(w, 2 * r + odd), sign)(i),
           Term(Strided(y, j + odd * s, 2 * s), Exp(v, r))(i), m)
  {
    var z, zeta, sign := Exp(w, 2 * r + odd), Exp(v, r), if odd == 0 then 1 else -1;
    var a0, a1, b := x(i * s + j), x((h + i) * s + j), y(i * (2 * s) + j + odd * s);
    var d := a0 + sign * a1;
    BothValue(Strided(x, j, s), h, z, sign, i);
    TermValue(Strided(y, j + odd * s, 2 * s), zeta, i);
    assert Strided(x, j, s)(i) == a0 && Strided(x, j, s)(h + i) == a1 && Strided(y, j + odd * s, 2 * s)(i) == b;
    hide Cong;
    SquaredPower(w, v, r, odd, m);
    ExpCong(z, Exp(w, odd) * zeta, i, m);
    ExpMul(Exp(w, odd), zeta, i);
    ExpExp(w, odd, i);
    ExpZero(w);
    ExpOne(i);
    TwistedTerm(b, d, Exp(w, odd * i), Exp(zeta, i), Exp(z, i), m, Exp(w, i), odd);
  }

  lemma TwistedTerm(b: int, d: int, p: int, q: int, e: int, m: int, wi: int, odd: nat)
    requires m > 0 && odd <= 1 && Cong(e, p * q, m) && p == (if odd == 0 then 1 else wi)
    requires Cong(b, if odd == 0 then d else d * wi, m)
    ensures Cong(d * e, b * q, m)
  {
    hide Cong;
    CongSelf(d, m);
    CongMul(d, d, e, p * q, m);
    CongSelf(q, m);
    CongMul(b, d * p, q, q, m);
    CongSym(b * q, (d * p) * q, m);
    Assoc3(d, p, q);
    CongTrans(d * e, (d * p) * q, b * q, m);
  }

  // Output 2 * r + odd of sequence j is output r of sequence j + odd * s.
  lemma PassOutput(x: nat -> int, y: nat -> int, s: nat, h: nat, w: int, v: int, m: int, j: nat, r: nat, odd: nat)
    requires m > 0 && odd <= 1 && j < s && Cong(v, w * w, m) && Cong(Exp(w, h), -1, m) && Pass(x, y, s, h, w, m)
    ensures Cong(Eval(Strided(x, j, s), 2 * h, Exp(w, 2 * r + odd)),
                 Eval(Strided(y, j + odd * s, 2 * s), h, Exp(v, r)), m)
  {
    hide Cong;
    hide Term;
    hide BothTerms;
    hide PassAt;
    hide Sum;
    hide Exp;
    var z, sign := Exp(w, 2 * r + odd), if odd == 0 then 1 else -1;
    HalfPower(w, h, 2 * r + odd, m);
    Halves(Strided(x, j, s), h, z, sign, m);
    var both, out := BothTerms(Strided(x, j, s), h, z, sign), Term(Strided(y, j + odd * s, 2 * s), Exp(v, r));
    forall i: nat | i < h ensures Cong(both(i), out(i), m) {
      PassTerm(x, y, s, h, w, v, m, j, r, odd, i);
    }
    SumCong(both, out, h, m);
    CongTrans(Eval(Strided(x, j, s), 2 * h, z), Sum(both, h), Sum(out, h), m);
  }

  // Output r of sequence j is output j + s * r of the whole transform.
  ghost predicate Interleaved(x: nat -> int, s: nat, len: nat, w: int, whole: nat -> int, m: int)
    requires m > 0
  {
    forall j: nat, r: nat :: j < s && r < len ==> InterleavedAt(x, s, len, w, whole, m, j, r)
  }

  ghost predicate InterleavedAt(x: nat -> int, s: nat, len: nat, w: int, whole: nat -> int, m: int, j: nat, r: nat)
    requires m > 0
  {
    Cong(whole(j + s * r), Eval(Strided(x, j, s), len, Exp(w, r)), m)
  }

  lemma PassKeeps(x: nat -> int, y: nat -> int, s: nat, h: nat, w: int, v: int, whole: nat -> int, m: int)
    requires m > 0 && Cong(v, w * w, m) && Cong(Exp(w, h), -1, m)
    requires Pass(x, y, s, h, w, m) && Interleaved(x, s, 2 * h, w, whole, m)
    ensures Interleaved(y, 2 * s, h, v, whole, m)
  {
    hide Cong;
    hide Pass;
    hide Eval;
    hide Exp;
    forall j: nat, r: nat | j < 2 * s && r < h ensures InterleavedAt(y, 2 * s, h, v, whole, m, j, r) {
      PassKeepsAt(x, y, s, h, w, v, whole, m, j, r, if j < s then 0 else 1);
    }
  }

  lemma PassKeepsAt(x: nat -> int, y: nat -> int, s: nat, h: nat, w: int, v: int, whole: nat -> int, m: int,
                    j: nat, r: nat, odd: nat)
    requires m > 0 && Cong(v, w * w, m) && Cong(Exp(w, h), -1, m)
    requires Pass(x, y, s, h, w, m) && Interleaved(x, s, 2 * h, w, whole, m)
    requires j < 2 * s && r < h && odd == if j < s then 0 else 1
    ensures InterleavedAt(y, 2 * s, h, v, whole, m, j, r)
  {
    hide Cong;
    hide Pass;
    hide Eval;
    hide Exp;
    var j0 := if j < s then j else j - s;
    assert odd * s == if j < s then 0 else s;
    assert InterleavedAt(x, s, 2 * h, w, whole, m, j0, 2 * r + odd);
    hide Interleaved;
    PassOutput(x, y, s, h, w, v, m, j0, r, odd);
    SameIndex(s, r, odd, j0, j);
    CongTrans(whole(j + (2 * s) * r), Eval(Strided(x, j0, s), 2 * h, Exp(w, 2 * r + odd)),
              Eval(Strided(y, j, 2 * s), h, Exp(v, r)), m);
  }

  lemma SameIndex(s: int, r: int, odd: int, j0: int, j: int)
    requires j == j0 + odd * s
    ensures j0 + s * (2 * r + odd) == j + (2 * s) * r
  {
  }

  // Before the first pass there is a single sequence.
  lemma InterleavedStart(x: nat -> int, n: nat, w: int, m: int)
    requires m > 0
    ensures Interleaved(x, 1, n, w, DftFn(x, n, w), m)
  {
    hide Cong;
    forall j: nat, r: nat | j < 1 && r < n ensures InterleavedAt(x, 1, n, w, DftFn(x, n, w), m, j, r) {
      forall i: nat | i < n ensures Term(Strided(x, 0, 1), Exp(w, r))(i) == Term(x, Exp(w, r))(i) {
      }
      SumSame(Term(Strided(x, 0, 1), Exp(w, r)), Term(x, Exp(w, r)), n);
      CongSelf(Dft(x, n, w, r), m);
    }
  }

  // After the last pass every sequence has one element, the output itself.
  lemma InterleavedEnd(x: nat -> int, n: nat, w: int, whole: nat -> int, m: int, f: nat)
    requires m > 0 && Interleaved(x, n, 1, w, whole, m) && f < n
    ensures Cong(x(f), whole(f), m)
  {
    hide Cong;
    assert InterleavedAt(x, n, 1, w, whole, m, f, 0);
    var t := Term(Strided(x, f, n), Exp(w, 0));
    assert Sum(t, 1) == Sum(t, 0) + t(0);
    assert Strided(x, f, n)(0) == x(f);
    assert Exp(Exp(w, 0), 0) == 1;
    TermValue(Strided(x, f, n), Exp(w, 0), 0);
    CongSym(whole(f), x(f), m);
  }
}
