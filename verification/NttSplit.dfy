// ntt_fft_partial and mul_trig of quickjs/libbf.c: long transforms are split. A buffer of
// n1 * n2 entries is a table of n1 rows; its columns are transformed and multiplied by powers of the
// root, and what remains are transforms of the rows.

module NttSplit {
  import opened Limbs
  import opened LimbOps
  import opened Bits
  import opened NttArith
  import opened NttDft
  import opened NttFft

  // ----- Tables -----

  // Where row r and column c of a table with rows of n entries are stored.
  function Cell(r: nat, c: nat, n: nat): nat {
    r * n + c
  }

  lemma CellInside(r: nat, c: nat, rows: nat, n: nat)
    requires r < rows && c < n
    ensures Cell(r, c, n) < rows * n
  {
    MulMono(r + 1, rows, n);
    assert (r + 1) * n == r * n + n;
  }

  lemma CellUnique(r: nat, c: nat, r': nat, c': nat, n: nat)
    requires c < n && c' < n && Cell(r, c, n) == Cell(r', c', n)
    ensures r == r' && c == c'
  {
    DivUnique(n, r, c, r', c');
  }

  function TableFn(t: nat -> int, n: nat): (nat, nat) -> int {
    (r: nat, c: nat) => t(Cell(r, c, n))
  }

  // A sum over a table row by row.
  lemma {:induction false} SumTable(t: nat -> int, rows: nat, n: nat)
    ensures Sum(t, rows * n) == Sum(RowSums(TableFn(t, n), n), rows)
  {
    if rows == 0 {
      assert 0 * n == 0;
    } else {
      SumTable(t, rows - 1, n);
      var o, row := Cell(rows - 1, 0, n), RowFn(TableFn(t, n), rows - 1);
      assert rows * n == o + n;
      forall c: nat | c < n ensures row(c) == t(o + c) {
        assert Cell(rows - 1, c, n) == o + c;
      }
      SumSplit(t, o, row, n);
    }
  }

  // ----- Splitting a transform -----

  // Roots of the rows and of the columns belong to one root w of the whole.
  ghost predicate SplitRoots(w: int, w1: int, w2: int, n1: nat, n2: nat, m: int)
    requires m > 0
  {
    Cong(w1, Exp(w, n2), m) && Cong(w2, Exp(w, n1), m) && Cong(Exp(w, n1 * n2), 1, m)
  }

  lemma RootOfColumn(w: int, w1: int, w2: int, n1: nat, n2: nat, f1: nat, f2: nat, m: int)
    requires m > 0 && SplitRoots(w, w1, w2, n1, n2, m)
    ensures Cong(Exp(Exp(w, f1 + n1 * f2), n2), Exp(w1, f1), m)
  {
    hide Cong;
    hide Exp;
    ExpExp(w, f1 + n1 * f2, n2);
    assert (f1 + n1 * f2) * n2 == n2 * f1 + (n1 * n2) * f2;
    ExpAdd(w, n2 * f1, (n1 * n2) * f2);
    ExpExp(w, n2, f1);
    ExpExp(w, n1 * n2, f2);
    CongSym(w1, Exp(w, n2), m);
    ExpCong(Exp(w, n2), w1, f1, m);
    ExpCong(Exp(w, n1 * n2), 1, f2, m);
    ExpOne(f2);
    CongMul(Exp(Exp(w, n2), f1), Exp(w1, f1), Exp(Exp(w, n1 * n2), f2), 1, m);
  }

  lemma RootOfRow(w: int, w1: int, w2: int, n1: nat, n2: nat, f1: nat, f2: nat, c: nat, m: int)
    requires m > 0 && SplitRoots(w, w1, w2, n1, n2, m)
    ensures Cong(Exp(Exp(w, f1 + n1 * f2), c), Exp(Exp(w, c), f1) * Exp(Exp(w2, f2), c), m)
  {
    hide Cong;
    hide Exp;
    ExpExp(w, f1 + n1 * f2, c);
    assert (f1 + n1 * f2) * c == c * f1 + n1 * (f2 * c);
    ExpAdd(w, c * f1, n1 * (f2 * c));
    ExpExp(w, c, f1);
    ExpExp(w, n1, f2 * c);
    CongSym(w2, Exp(w, n1), m);
    ExpCong(Exp(w, n1), w2, f2 * c, m);
    ExpExp(w2, f2, c);
    CongSelf(Exp(Exp(w, c), f1), m);
    CongMul(Exp(Exp(w, c), f1), Exp(Exp(w, c), f1), Exp(Exp(w, n1), f2 * c), Exp(w2, f2 * c), m);
  }

  lemma EvalCong(x: nat -> int, n: nat, y: int, z: int, m: int)
    requires m > 0 && Cong(y, z, m)
    ensures Cong(Eval(x, n, y), Eval(x, n, z), m)
  {
    hide Cong;
    hide Exp;
    hide Sum;
    forall i: nat | i < n ensures Cong(Term(x, y)(i), Term(x, z)(i), m) {
      TermValue(x, y, i);
      TermValue(x, z, i);
      ExpCong(y, z, i, m);
      CongSelf(x(i), m);
      CongMul(x(i), x(i), Exp(y, i), Exp(z, i), m);
    }
    SumCong(Term(x, y), Term(x, z), n, m);
  }

  // The terms of column c at a point z.
  lemma ColumnTerm(x: nat -> int, n2: nat, z: int, c: nat, i: nat)
    ensures ColumnFn(TableFn(Term(x, z), n2), c)(i) == Exp(z, c) * Term(Strided(x, c, n2), Exp(z, n2))(i)
  {
    hide Exp;
    TermValue(x, z, Cell(i, c, n2));
    TermValue(Strided(x, c, n2), Exp(z, n2), i);
    ExpAdd(z, i * n2, c);
    ExpExp(z, n2, i);
    assert n2 * i == i * n2;
    Assoc3(x(i * n2 + c), Exp(z, i * n2), Exp(z, c));
  }

  // Column c of a table: transformed and multiplied by the powers of w^c.
  ghost function Twisted(x: nat -> int, n1: nat, n2: nat, w: int, w1: int, c: nat, f: nat): int {
    Dft(Strided(x, c, n2), n1, w1, f) * Exp(Exp(w, c), f)
  }

  lemma ColumnSum(x: nat -> int, y: int, n1: nat, n2: nat, w: int, w1: int, w2: int, f1: nat, f2: nat, c: nat, m: int)
    requires m > 0 && SplitRoots(w, w1, w2, n1, n2, m) && Cong(y, Twisted(x, n1, n2, w, w1, c, f1), m)
    ensures Cong(ColumnSums(TableFn(Term(x, Exp(w, f1 + n1 * f2)), n2), n1)(c), y * Exp(Exp(w2, f2), c), m)
  {
    RootOfColumn(w, w1, w2, n1, n2, f1, f2, m);
    RootOfRow(w, w1, w2, n1, n2, f1, f2, c, m);
    hide Cong;
    hide Exp;
    hide Sum;
    hide SplitRoots;
    var z, e := Exp(w, f1 + n1 * f2), Exp(Exp(w2, f2), c);
    var col, tw := Strided(x, c, n2), Exp(Exp(w, c), f1);
    forall i: nat | i < n1 ensures ColumnFn(TableFn(Term(x, z), n2), c)(i) == Exp(z, c) * Term(col, Exp(z, n2))(i) {
      ColumnTerm(x, n2, z, c, i);
    }
    SumScale(Term(col, Exp(z, n2)), Exp(z, c), ColumnFn(TableFn(Term(x, z), n2), c), n1);
    EvalCong(col, n1, Exp(z, n2), Exp(w1, f1), m);
    TwistMoves(Exp(z, c), Eval(col, n1, Exp(z, n2)), tw, e, Dft(col, n1, w1, f1), y, m);
  }

  lemma TwistMoves(p: int, v: int, tw: int, e: int, d: int, y: int, m: int)
    requires m > 0 && Cong(p, tw * e, m) && Cong(v, d, m) && Cong(y, d * tw, m)
    ensures Cong(p * v, y * e, m)
  {
    hide Cong;
    CongMul(p, tw * e, v, d, m);
    CongSelf(e, m);
    CongMul(y, d * tw, e, e, m);
    CongSym(y * e, (d * tw) * e, m);
    Regroup(tw, e, d);
    assert (d * tw) * e == (tw * e) * d;
    CongTrans(p * v, (tw * e) * d, y * e, m);
  }

  // Output f1 + n1 * f2 of a transform of length n1 * n2 is output f2 of a transform of row f1 of the
  // twisted columns.
  lemma FourStep(x: nat -> int, y: nat -> int, n1: nat, n2: nat, w: int, w1: int, w2: int, f1: nat, f2: nat, m: int)
    requires m > 0 && SplitRoots(w, w1, w2, n1, n2, m)
    requires forall c: nat :: c < n2 ==> Cong(y(c), Twisted(x, n1, n2, w, w1, c, f1), m)
    ensures Cong(Dft(x, n1 * n2, w, f1 + n1 * f2), Dft(y, n2, w2, f2), m)
  {
    hide Cong;
    hide Exp;
    hide Sum;
    hide SplitRoots;
    hide Twisted;
    var t := Term(x, Exp(w, f1 + n1 * f2));
    var table, e := TableFn(t, n2), Exp(w2, f2);
    SumTable(t, n1, n2);
    SumSwap(table, n1, n2);
    forall c: nat | c < n2 ensures Cong(ColumnSums(table, n1)(c), Term(y, e)(c), m) {
      ColumnSum(x, y(c), n1, n2, w, w1, w2, f1, f2, c, m);
      TermValue(y, e, c);
    }
    hide ColumnSums;
    hide Term;
    SumCong(ColumnSums(table, n1), Term(y, e), n2, m);
  }

  // ----- Roots of the parts -----

  lemma {:induction false} RootPower(roots: seq<Limb>, k: nat, d: nat, m: int)
    requires m > 0 && ValidRoots(roots, m) && d < k <= NTT_PROOT_2EXP
    ensures Cong(roots[k - d], Exp(roots[k], Pow2(d)), m)
    decreases d
  {
    hide Cong;
    var w: int := roots[k];
    if d == 0 {
      assert Exp(w, 1) == w * Exp(w, 0);
      CongSelf(w, m);
    } else {
      RootPower(roots, k, d - 1, m);
      assert SquareOf(roots, k - d, m);
      var h, r := Pow2(d - 1), roots[k - d + 1] as int;
      assert Pow2(d) == h + h;
      ExpAdd(w, h, h);
      CongMul(r, Exp(w, h), r, Exp(w, h), m);
      CongTrans(roots[k - d], r * r, Exp(w, h) * Exp(w, h), m);
    }
  }

  lemma PartRoots(roots: seq<Limb>, k1: nat, k2: nat, m: int)
    requires m > 0 && ValidRoots(roots, m) && 1 <= k1 && 1 <= k2 && k1 + k2 <= NTT_PROOT_2EXP
    ensures SplitRoots(roots[k1 + k2], roots[k1], roots[k2], Pow2(k1), Pow2(k2), m)
  {
    var k := k1 + k2;
    var w, h := roots[k] as int, Pow2(k - 1);
    RootPower(roots, k, k2, m);
    RootPower(roots, k, k1, m);
    RootsPrimitive(roots, k, m);
    hide Cong;
    Pow2Add(k1, k2);
    assert Pow2(k) == h + h;
    ExpAdd(w, h, h);
    CongMul(Exp(w, h), -1, Exp(w, h), -1, m);
  }

  // ----- mul_trig -----

  // Every entry is multiplied by a power of z.
  ghost predicate Scaled(was: seq<Limb>, now: seq<Limb>, z: int, m: int)
    requires m > 0
  {
    |now| == |was| && forall i: nat :: i < |was| ==> now[i] < m && Cong(now[i], was[i] * Exp(z, i), m)
  }

  method MulTrig(buf: array<Limb>, o: nat, n: nat, cMul: Limb, m: Limb, mInv: Limb)
    requires Modulus(m) && mInv == WIDE / m && cMul < m && o + n <= buf.Length && Below(buf[o..o + n], 2 * m)
    modifies buf
    ensures Scaled(old(buf[o..o + n]), buf[o..o + n], cMul, m)
    ensures Outside(old(buf[..]), buf[..], o, n)
  {
    hide Cong;
    hide Exp;
    var c0: Limb := 1;
    var cMulInv := InitMulModFast2(cMul, m);
    ghost var x := buf[o..o + n];
    ExpZero(cMul);
    CongSelf(1, m);
    var i := 0;
    while i < n
      invariant 0 <= i <= n && c0 < m && Cong(c0, Exp(cMul, i), m)
      invariant forall q: nat :: o <= q < o + i ==> buf[q] < m && Cong(buf[q], x[q - o] * Exp(cMul, q - o), m)
      invariant forall q: nat :: o + i <= q < o + n ==> buf[q] == x[q - o]
      invariant Outside(old(buf[..]), buf[..], o, n)
    {
      assert buf[o + i] == x[i];
      ProductRange(c0, buf[o + i], m);
      ghost var a: int := buf[o + i];
      assert c0 as int * a == a * c0;
      buf[o + i] := MulModFast(buf[o + i], c0, m, mInv);
      ScaledEntry(buf[o + i], a, c0, Exp(cMul, i), m);
      var next := MulModFast2(c0, cMul, m, cMulInv);
      NextPower(next, c0, cMul, i, m);
      c0 := next;
      i := i + 1;
    }
    forall q: nat | q < n ensures buf[o..o + n][q] < m && Cong(buf[o..o + n][q], x[q] * Exp(cMul, q), m) {
      assert buf[o..o + n][q] == buf[o + q];
    }
  }

  lemma ScaledEntry(r: int, a: int, c: int, e: int, m: int)
    requires m > 0 && Cong(r, a * c, m) && Cong(c, e, m)
    ensures Cong(r, a * e, m)
  {
    hide Cong;
    CongSelf(a, m);
    CongMul(a, a, c, e, m);
    CongTrans(r, a * c, a * e, m);
  }

  // ----- One column -----

  // Forward a column is transformed and then twisted, backward twisted and then transformed.
  ghost function ColumnValue(x: nat -> int, n: nat, w: int, z: int, inverse: bool, f: nat): int {
    if inverse then Dft(Term(x, z), n, w, f) else Dft(x, n, w, f) * Exp(z, f)
  }

  ghost predicate ColumnDone(was: seq<Limb>, now: seq<Limb>, w: int, z: int, inverse: bool, m: int)
    requires m > 0
  {
    && |now| == |was| && Below(now, 2 * m)
    && forall f: nat :: f < |was| ==> Cong(now[f], ColumnValue(SeqFn(was), |was|, w, z, inverse, f), m)
  }

  lemma ForwardColumn(a: seq<Limb>, b: seq<Limb>, r: seq<Limb>, k1: nat, w: int, c: int, z: int, m: int)
    requires m > 0 && Transformed(a, b, k1, w, m) && Scaled(b, r, c, m) && Cong(c, z, m)
    ensures ColumnDone(a, r, w, z, false, m)
  {
    hide Cong;
    hide Exp;
    hide Dft;
    forall f: nat | f < |a| ensures Cong(r[f], Dft(SeqFn(a), |a|, w, f) * Exp(z, f), m) {
      ExpCong(c, z, f, m);
      CongMul(b[f], Dft(SeqFn(a), |a|, w, f), Exp(c, f), Exp(z, f), m);
      CongTrans(r[f], b[f] * Exp(c, f), Dft(SeqFn(a), |a|, w, f) * Exp(z, f), m);
    }
  }

  lemma BackwardColumn(a: seq<Limb>, b: seq<Limb>, r: seq<Limb>, k1: nat, w: int, c: int, z: int, m: int)
    requires m > 0 && Scaled(a, b, c, m) && Transformed(b, r, k1, w, m) && Cong(c, z, m)
    ensures ColumnDone(a, r, w, z, true, m)
  {
    hide Cong;
    hide Exp;
    hide Dft;
    forall i: nat | i < |a| ensures Cong(SeqFn(b)(i), Term(SeqFn(a), z)(i), m) {
      TermValue(SeqFn(a), z, i);
      ExpCong(c, z, i, m);
      ScaledEntry(b[i], a[i], Exp(c, i), Exp(z, i), m);
    }
    forall f: nat | f < |a| ensures Cong(r[f], Dft(Term(SeqFn(a), z), |a|, w, f), m) {
      DftCong(SeqFn(b), Term(SeqFn(a), z), |a|, w, f, m);
      CongTrans(r[f], Dft(SeqFn(b), |a|, w, f), Dft(Term(SeqFn(a), z), |a|, w, f), m);
    }
  }

  method OneColumn(buf: array<Limb>, o: nat, tmp: array<Limb>, k1: nat, cMul: Limb, roots: seq<Limb>, m: Limb,
                   mInv: Limb, inverse: bool, ghost z: int)
    requires Modulus(m) && mInv == WIDE / m && ValidRoots(roots, m) && 1 <= k1 <= NTT_TRIG_K_MAX && buf != tmp
    requires o + Pow2(k1) <= buf.Length && Pow2(k1) <= tmp.Length && Below(buf[o..o + Pow2(k1)], 2 * m)
    requires cMul < m && Cong(cMul, z, m)
    modifies buf, tmp
    ensures ColumnDone(old(buf[o..o + Pow2(k1)]), buf[o..o + Pow2(k1)], roots[k1], z, inverse, m)
    ensures Outside(old(buf[..]), buf[..], o, Pow2(k1))
  {
    assert |roots| == NTT_PROOT_2EXP + 1;
    hide ValidRoots;
    hide Cong;
    hide Outside;
    hide ColumnDone;
    hide Exp;
    var n1 := Pow2(k1);
    hide Pow2;
    ghost var w0, a := buf[..], buf[o..o + n1];
    if inverse {
      MulTrig(buf, o, n1, cMul, m, mInv);
    }
    ghost var w1, b := buf[..], buf[o..o + n1];
    Fft(buf, o, tmp, k1, roots, m);
    ghost var w2, r := buf[..], buf[o..o + n1];
    if inverse {
      BackwardColumn(a, b, r, k1, roots[k1], cMul, z, m);
      OutsideStep(w0, w1, w2, o, 0, n1, n1);
    } else {
      MulTrig(buf, o, n1, cMul, m, mInv);
      ForwardColumn(a, r, buf[o..o + n1], k1, roots[k1], cMul, z, m);
      OutsideStep(w0, w2, buf[..], o, 0, n1, n1);
    }
  }

  // ----- Rows and columns of buffers -----

  function Row(x: seq<Limb>, r: nat, n: nat): seq<Limb>
    requires r * n + n <= |x|
  {
    x[r * n..r * n + n]
  }

  ghost predicate RowIs(x: seq<Limb>, r: nat, s: seq<Limb>) {
    r * |s| + |s| <= |x| && Row(x, r, |s|) == s
  }

  lemma RowInside(r: nat, rows: nat, n: nat)
    requires r < rows
    ensures r * n + n <= rows * n
  {
    MulMono(r + 1, rows, n);
    assert (r + 1) * n == r * n + n;
  }

  ghost function Column(x: seq<Limb>, n1: nat, n2: nat, c: nat): (s: seq<Limb>)
    requires |x| == n1 * n2 && c < n2
    ensures |s| == n1 && forall r: nat :: r < n1 ==> Cell(r, c, n2) < |x| && s[r] == x[Cell(r, c, n2)]
  {
    forall r: nat | r < n1 ensures Cell(r, c, n2) < |x| {
      CellInside(r, c, n1, n2);
    }
    seq(n1, r requires 0 <= r < n1 => x[Cell(r, c, n2)])
  }

  lemma ColumnBelow(x: seq<Limb>, n1: nat, n2: nat, c: nat, bound: int)
    requires |x| == n1 * n2 && c < n2 && Below(x, bound)
    ensures Below(Column(x, n1, n2, c), bound)
  {
    hide Cell;
  }

  // ----- Strips -----

  const STRIP_LEN: nat := 16

  // The columns of a strip.
  ghost function StripOf(x: seq<Limb>, n1: nat, n2: nat, j: nat): (s: seq<seq<Limb>>)
    requires |x| == n1 * n2 && j + STRIP_LEN <= n2
    ensures |s| == STRIP_LEN && forall r: nat :: r < STRIP_LEN ==> s[r] == Column(x, n1, n2, j + r)
  {
    seq(STRIP_LEN, r requires 0 <= r < STRIP_LEN => Column(x, n1, n2, j + r))
  }

  ghost predicate RowsAre(y: seq<Limb>, strip: seq<seq<Limb>>) {
    forall r: nat :: r < |strip| ==> RowIs(y, r, strip[r])
  }

  ghost predicate StripBelow(strip: seq<seq<Limb>>, n: nat, bound: int) {
    |strip| == STRIP_LEN && forall r: nat :: r < |strip| ==> |strip[r]| == n && Below(strip[r], bound)
  }

  // Cells of the table x with n2 columns, from column j on, that have been copied to the rows of y: all
  // columns of the strip down to row i, and the first l of that row.
  ghost predicate Gathered(x: seq<Limb>, y: seq<Limb>, n1: nat, n2: nat, j: nat, i: nat, l: nat) {
    && |x| == n1 * n2 && |y| == STRIP_LEN * n1
    && forall r: nat, c: nat :: c < STRIP_LEN && r < n1 && (r < i || (r == i && c < l)) ==>
         GatheredAt(x, y, n1, n2, j, r, c)
  }

  ghost predicate GatheredAt(x: seq<Limb>, y: seq<Limb>, n1: nat, n2: nat, j: nat, r: nat, c: nat) {
    && Cell(r, j + c, n2) < |x| && Cell(c, r, n1) < |y|
    && y[Cell(c, r, n1)] == x[Cell(r, j + c, n2)]
  }

  lemma GatherStep(x: seq<Limb>, y: seq<Limb>, n1: nat, n2: nat, j: nat, i: nat, l: nat)
    requires Gathered(x, y, n1, n2, j, i, l) && i < n1 && l < STRIP_LEN && j + STRIP_LEN <= n2
    ensures Cell(i, j + l, n2) < |x| && Cell(l, i, n1) < |y|
    ensures Gathered(x, y[Cell(l, i, n1) := x[Cell(i, j + l, n2)]], n1, n2, j, i, l + 1)
  {
    CellInside(i, j + l, n1, n2);
    CellInside(l, i, STRIP_LEN, n1);
    hide Cell;
    var y' := y[Cell(l, i, n1) := x[Cell(i, j + l, n2)]];
    forall r: nat, c: nat | c < STRIP_LEN && r < n1 && (r < i || (r == i && c < l + 1))
      ensures GatheredAt(x, y', n1, n2, j, r, c)
    {
      if !(r == i && c == l) {
        assert GatheredAt(x, y, n1, n2, j, r, c);
        if Cell(c, r, n1) == Cell(l, i, n1) {
          CellUnique(c, r, l, i, n1);
        }
      }
    }
  }

  lemma GatheredRow(x: seq<Limb>, y: seq<Limb>, n1: nat, n2: nat, j: nat, l: nat)
    requires Gathered(x, y, n1, n2, j, n1, 0) && l < STRIP_LEN && j + STRIP_LEN <= n2
    ensures RowIs(y, l, Column(x, n1, n2, j + l))
  {
    RowInside(l, STRIP_LEN, n1);
    var a, b := Row(y, l, n1), Column(x, n1, n2, j + l);
    forall r | 0 <= r < n1 ensures a[r] == b[r] {
      assert GatheredAt(x, y, n1, n2, j, r, l);
    }
  }

  // Copying a strip of columns to the rows of a smaller buffer.
  method GatherStrip(buf1: array<Limb>, o: nat, buf2: array<Limb>, n1: nat, n2: nat, j: nat)
    requires buf1 != buf2 && o + n1 * n2 <= buf1.Length && buf2.Length == STRIP_LEN * n1 && j + STRIP_LEN <= n2
    modifies buf2
    ensures RowsAre(buf2[..], StripOf(buf1[o..o + n1 * n2], n1, n2, j))
  {
    ghost var x := buf1[o..o + n1 * n2];
    hide GatheredAt;
    hide Column;
    hide RowIs;
    var i := 0;
    while i < n1
      invariant 0 <= i <= n1 && Gathered(x, buf2[..], n1, n2, j, i, 0)
    {
      var l := 0;
      while l < STRIP_LEN
        invariant 0 <= l <= STRIP_LEN && Gathered(x, buf2[..], n1, n2, j, i, l)
      {
        GatherStep(x, buf2[..], n1, n2, j, i, l);
        assert x[Cell(i, j + l, n2)] == buf1[o + Cell(i, j + l, n2)];
        buf2[Cell(l, i, n1)] := buf1[o + Cell(i, j + l, n2)];
        l := l + 1;
      }
      i := i + 1;
    }
    ghost var strip := StripOf(x, n1, n2, j);
    forall l: nat | l < STRIP_LEN ensures RowIs(buf2[..], l, strip[l]) {
      GatheredRow(x, buf2[..], n1, n2, j, l);
    }
  }

  // The strip of columns from j on has been replaced by the rows of y, down to row i and the first l
  // columns of that row; nothing else of the table x has changed.
  ghost predicate Scattered(was: seq<Limb>, x: seq<Limb>, y: seq<Limb>, n1: nat, n2: nat, j: nat, i: nat, l: nat) {
    && |x| == |was| == n1 * n2 && |y| == STRIP_LEN * n1
    && forall r: nat, c: nat :: r < n1 && c < n2 ==> ScatteredAt(was, x, y, n1, n2, j, i, l, r, c)
  }

  ghost predicate ScatteredAt(was: seq<Limb>, x: seq<Limb>, y: seq<Limb>, n1: nat, n2: nat, j: nat, i: nat, l: nat,
                              r: nat, c: nat) {
    && Cell(r, c, n2) < |x| == |was|
    && if j <= c < j + STRIP_LEN && (r < i || (r == i && c < j + l)) then
         Cell(c - j, r, n1) < |y| && x[Cell(r, c, n2)] == y[Cell(c - j, r, n1)]
       else x[Cell(r, c, n2)] == was[Cell(r, c, n2)]
  }

  lemma ScatterStart(was: seq<Limb>, y: seq<Limb>, n1: nat, n2: nat, j: nat)
    requires |was| == n1 * n2 && |y| == STRIP_LEN * n1
    ensures Scattered(was, was, y, n1, n2, j, 0, 0)
  {
    forall r: nat, c: nat | r < n1 && c < n2 ensures ScatteredAt(was, was, y, n1, n2, j, 0, 0, r, c) {
      CellInside(r, c, n1, n2);
    }
  }

  lemma ScatterStep(was: seq<Limb>, x: seq<Limb>, y: seq<Limb>, n1: nat, n2: nat, j: nat, i: nat, l: nat)
    requires Scattered(was, x, y, n1, n2, j, i, l) && i < n1 && l < STRIP_LEN && j + STRIP_LEN <= n2
    ensures Cell(i, j + l, n2) < |x| && Cell(l, i, n1) < |y|
    ensures Scattered(was, x[Cell(i, j + l, n2) := y[Cell(l, i, n1)]], y, n1, n2, j, i, l + 1)
  {
    CellInside(i, j + l, n1, n2);
    CellInside(l, i, STRIP_LEN, n1);
    hide Cell;
    var x', l' := x[Cell(i, j + l, n2) := y[Cell(l, i, n1)]], l + 1;
    forall r: nat, c: nat | r < n1 && c < n2 ensures ScatteredAt(was, x', y, n1, n2, j, i, l', r, c) {
      assert ScatteredAt(was, x, y, n1, n2, j, i, l, r, c);
      if Cell(r, c, n2) == Cell(i, j + l, n2) {
        CellUnique(r, c, i, j + l, n2);
      }
    }
  }

  lemma ScatterRow(was: seq<Limb>, x: seq<Limb>, y: seq<Limb>, n1: nat, n2: nat, j: nat, i: nat)
    requires Scattered(was, x, y, n1, n2, j, i, STRIP_LEN) && i < n1
    ensures Scattered(was, x, y, n1, n2, j, i + 1, 0)
  {
    hide Cell;
    var i' := i + 1;
    forall r: nat, c: nat | r < n1 && c < n2 ensures ScatteredAt(was, x, y, n1, n2, j, i', 0, r, c) {
      assert ScatteredAt(was, x, y, n1, n2, j, i, STRIP_LEN, r, c);
    }
  }

  lemma ScatteredColumn(was: seq<Limb>, x: seq<Limb>, y: seq<Limb>, n1: nat, n2: nat, j: nat, c: nat)
    requires Scattered(was, x, y, n1, n2, j, n1, 0) && c < n2 && j + STRIP_LEN <= n2
    ensures if j <= c < j + STRIP_LEN then RowIs(y, c - j, Column(x, n1, n2, c))
            else Column(x, n1, n2, c) == Column(was, n1, n2, c)
  {
    var a, b := Column(x, n1, n2, c), Column(was, n1, n2, c);
    if j <= c < j + STRIP_LEN {
      RowInside(c - j, STRIP_LEN, n1);
      var d := Row(y, c - j, n1);
      forall r | 0 <= r < n1 ensures a[r] == d[r] {
        assert ScatteredAt(was, x, y, n1, n2, j, n1, 0, r, c);
      }
    } else {
      hide Cell;
      forall r | 0 <= r < n1 ensures a[r] == b[r] {
        assert ScatteredAt(was, x, y, n1, n2, j, n1, 0, r, c);
      }
    }
  }

  // Copying the rows of the smaller buffer back.
  method ScatterStrip(buf1: array<Limb>, o: nat, buf2: array<Limb>, n1: nat, n2: nat, j: nat)
    requires buf1 != buf2 && o + n1 * n2 <= buf1.Length && buf2.Length == STRIP_LEN * n1 && j + STRIP_LEN <= n2
    modifies buf1
    ensures Scattered(old(buf1[o..o + n1 * n2]), buf1[o..o + n1 * n2], buf2[..], n1, n2, j, n1, 0)
    ensures Outside(old(buf1[..]), buf1[..], o, n1 * n2)
  {
    ghost var n, was, y := n1 * n2, buf1[o..o + n1 * n2], buf2[..];
    ScatterStart(was, y, n1, n2, j);
    hide ScatteredAt;
    var i := 0;
    while i < n1
      invariant 0 <= i <= n1 && Scattered(was, buf1[o..o + n], y, n1, n2, j, i, 0)
      invariant Outside(old(buf1[..]), buf1[..], o, n)
    {
      var l := 0;
      while l < STRIP_LEN
        invariant 0 <= l <= STRIP_LEN && Scattered(was, buf1[o..o + n], y, n1, n2, j, i, l)
        invariant Outside(old(buf1[..]), buf1[..], o, n)
      {
        ghost var x := buf1[o..o + n];
        ScatterStep(was, x, y, n1, n2, j, i, l);
        hide Scattered;
        buf1[o + Cell(i, j + l, n2)] := buf2[Cell(l, i, n1)];
        assert buf1[o..o + n] == x[Cell(i, j + l, n2) := y[Cell(l, i, n1)]];
        l := l + 1;
      }
      ScatterRow(was, buf1[o..o + n], y, n1, n2, j, i);
      i := i + 1;
    }
  }

  // ----- The columns of a strip -----

  lemma RowKept(was: seq<Limb>, now: seq<Limb>, l: nat, r: nat, n: nat, s: seq<Limb>)
    requires Outside(was, now, l * n, n) && |s| == n && r != l && RowIs(was, r, s)
    ensures RowIs(now, r, s)
  {
    if r < l {
      MulMono(r + 1, l, n);
    } else {
      MulMono(l + 1, r, n);
    }
    assert (r + 1) * n == r * n + n && (l + 1) * n == l * n + n;
  }

  // The first l rows of y are the transformed columns of the strip, which starts at column j; the other
  // rows are still the columns themselves.
  ghost predicate StripDone(strip: seq<seq<Limb>>, y: seq<Limb>, n1: nat, w: int, w1: int, j: nat, inverse: bool,
                            m: int, l: nat)
    requires m > 0
  {
    && |strip| == STRIP_LEN && |y| == STRIP_LEN * n1
    && forall r: nat :: r < STRIP_LEN ==> StripAt(strip[r], y, n1, w1, Exp(w, j + r), inverse, m, l, r)
  }

  ghost predicate StripAt(col: seq<Limb>, y: seq<Limb>, n1: nat, w1: int, z: int, inverse: bool, m: int, l: nat, r: nat)
    requires m > 0
  {
    && |col| == n1 && r * n1 + n1 <= |y|
    && if r < l then ColumnDone(col, Row(y, r, n1), w1, z, inverse, m) else Row(y, r, n1) == col
  }

  lemma StripStart(strip: seq<seq<Limb>>, y: seq<Limb>, n1: nat, w: int, w1: int, j: nat, inverse: bool, m: int)
    requires m > 0 && |y| == STRIP_LEN * n1 && RowsAre(y, strip) && StripBelow(strip, n1, 2 * m)
    ensures StripDone(strip, y, n1, w, w1, j, inverse, m, 0)
  {
    hide ColumnDone;
    hide Exp;
    hide Below;
    forall r: nat | r < STRIP_LEN ensures StripAt(strip[r], y, n1, w1, Exp(w, j + r), inverse, m, 0, r) {
      assert RowIs(y, r, strip[r]);
    }
  }

  lemma StripStep(strip: seq<seq<Limb>>, y: seq<Limb>, y': seq<Limb>, n1: nat, w: int, w1: int, j: nat, inverse: bool,
                  m: int, l: nat)
    requires m > 0 && StripDone(strip, y, n1, w, w1, j, inverse, m, l) && l < STRIP_LEN
    requires l * n1 + n1 <= |y| && Outside(y, y', l * n1, n1)
    requires ColumnDone(Row(y, l, n1), Row(y', l, n1), w1, Exp(w, j + l), inverse, m)
    ensures StripDone(strip, y', n1, w, w1, j, inverse, m, l + 1)
  {
    hide ColumnDone;
    hide Exp;
    var l' := l + 1;
    forall r: nat | r < STRIP_LEN ensures StripAt(strip[r], y', n1, w1, Exp(w, j + r), inverse, m, l', r) {
      assert StripAt(strip[r], y, n1, w1, Exp(w, j + r), inverse, m, l, r);
      if r != l {
        RowKept(y, y', l, r, n1, Row(y, r, n1));
      }
    }
  }

  lemma StripInput(strip: seq<seq<Limb>>, y: seq<Limb>, n1: nat, w: int, w1: int, j: nat, inverse: bool, m: int, l: nat)
    requires m > 0 && StripDone(strip, y, n1, w, w1, j, inverse, m, l) && l < STRIP_LEN && StripBelow(strip, n1, 2 * m)
    ensures l * n1 + n1 <= |y| && Row(y, l, n1) == strip[l] && Below(Row(y, l, n1), 2 * m)
  {
    hide ColumnDone;
    hide Exp;
    assert StripAt(strip[l], y, n1, w1, Exp(w, j + l), inverse, m, l, l);
  }

  // Column l of a strip, and the factor of the next one.
  method TransformColumn(buf2: array<Limb>, buf3: array<Limb>, k1: nat, c0: Limb, cMul: Limb, roots: seq<Limb>, m: Limb,
                         mInv: Limb, inverse: bool, ghost j: nat, l: nat, ghost strip: seq<seq<Limb>>)
    returns (next: Limb)
    requires Modulus(m) && mInv == WIDE / m && ValidRoots(roots, m) && 1 <= k1 <= NTT_TRIG_K_MAX && buf2 != buf3
    requires l < STRIP_LEN && buf2.Length == STRIP_LEN * Pow2(k1) && Pow2(k1) <= buf3.Length && k1 < |roots|
    requires c0 < m && cMul < m && Cong(cMul, Exp(c0, j + l), m) && StripBelow(strip, Pow2(k1), 2 * m)
    requires StripDone(strip, buf2[..], Pow2(k1), c0, roots[k1], j, inverse, m, l)
    modifies buf2, buf3
    ensures StripDone(strip, buf2[..], Pow2(k1), c0, roots[k1], j, inverse, m, l + 1)
    ensures next < m && Cong(next, Exp(c0, j + l + 1), m)
  {
    hide ValidRoots;
    hide Cong;
    hide Exp;
    hide StripDone;
    hide ColumnDone;
    hide Below;
    hide Outside;
    hide StripBelow;
    var n1 := Pow2(k1);
    hide Pow2;
    ghost var y := buf2[..];
    StripInput(strip, y, n1, c0, roots[k1], j, inverse, m, l);
    assert buf2[l * n1..l * n1 + n1] == Row(y, l, n1);
    OneColumn(buf2, l * n1, buf3, k1, cMul, roots, m, mInv, inverse, Exp(c0, j + l));
    assert buf2[l * n1..l * n1 + n1] == Row(buf2[..], l, n1);
    StripStep(strip, y, buf2[..], n1, c0, roots[k1], j, inverse, m, l);
    ProductRange(cMul, c0, m);
    next := MulModFast(cMul, c0, m, mInv);
    NextPower(next, cMul, c0, j + l, m);
  }

  // The loop over the columns of a strip. cMul is the factor of its first column.
  method TransformStrip(buf2: array<Limb>, buf3: array<Limb>, k1: nat, k: nat, cMul0: Limb, roots: seq<Limb>, m: Limb,
                        mInv: Limb, inverse: bool, ghost j: nat, ghost strip: seq<seq<Limb>>)
    returns (cMul: Limb)
    requires Modulus(m) && mInv == WIDE / m && ValidRoots(roots, m) && 1 <= k1 <= NTT_TRIG_K_MAX && buf2 != buf3
    requires k1 <= k <= NTT_PROOT_2EXP && buf2.Length == STRIP_LEN * Pow2(k1) && Pow2(k1) <= buf3.Length
    requires cMul0 < m && Cong(cMul0, Exp(roots[k], j), m)
    requires RowsAre(buf2[..], strip) && StripBelow(strip, Pow2(k1), 2 * m)
    modifies buf2, buf3
    ensures StripDone(strip, buf2[..], Pow2(k1), roots[k], roots[k1], j, inverse, m, STRIP_LEN)
    ensures cMul < m && Cong(cMul, Exp(roots[k], j + STRIP_LEN), m)
  {
    assert |roots| == NTT_PROOT_2EXP + 1 && roots[k] < m;
    hide ValidRoots;
    hide Cong;
    hide Exp;
    hide StripDone;
    hide ColumnDone;
    hide Below;
    hide Outside;
    var n1, c0 := Pow2(k1), roots[k];
    hide Pow2;
    StripStart(strip, buf2[..], n1, c0, roots[k1], j, inverse, m);
    hide StripBelow;
    hide RowsAre;
    cMul := cMul0;
    var l := 0;
    while l < STRIP_LEN
      invariant 0 <= l <= STRIP_LEN && cMul < m && Cong(cMul, Exp(c0, j + l), m)
      invariant StripDone(strip, buf2[..], n1, c0, roots[k1], j, inverse, m, l)
    {
      cMul := TransformColumn(buf2, buf3, k1, c0, cMul, roots, m, mInv, inverse, j, l, strip);
      l := l + 1;
    }
  }

  // ----- ntt_fft_partial -----

  // Columns before j are done, the others unchanged.
  ghost predicate ColumnsDone(was: seq<Limb>, now: seq<Limb>, n1: nat, n2: nat, w: int, w1: int, inverse: bool, m: int,
                              j: nat)
    requires m > 0
  {
    && |was| == |now| == n1 * n2
    && forall c: nat :: c < n2 ==> ColumnsAt(was, now, n1, n2, w, w1, inverse, m, j, c)
  }

  ghost predicate ColumnsAt(was: seq<Limb>, now: seq<Limb>, n1: nat, n2: nat, w: int, w1: int, inverse: bool, m: int,
                            j: nat, c: nat)
    requires m > 0 && |was| == |now| == n1 * n2 && c < n2
  {
    if c < j then ColumnDone(Column(was, n1, n2, c), Column(now, n1, n2, c), w1, Exp(w, c), inverse, m)
    else Column(now, n1, n2, c) == Column(was, n1, n2, c)
  }

  // A strip of columns of the table, copied, transformed and copied back.
  lemma StripColumns(was: seq<Limb>, x: seq<Limb>, x': seq<Limb>, y: seq<Limb>, n1: nat, n2: nat, w: int, w1: int,
                     inverse: bool, m: int, j: nat)
    requires m > 0 && j + STRIP_LEN <= n2 && ColumnsDone(was, x, n1, n2, w, w1, inverse, m, j)
    requires StripDone(StripOf(x, n1, n2, j), y, n1, w, w1, j, inverse, m, STRIP_LEN)
    requires Scattered(x, x', y, n1, n2, j, n1, 0)
    ensures ColumnsDone(was, x', n1, n2, w, w1, inverse, m, j + STRIP_LEN)
  {
    hide ColumnDone;
    hide Exp;
    hide Scattered;
    hide Column;
    assert |x'| == n1 * n2 by {
      ScatteredSize(x, x', y, n1, n2, j);
    }
    var j' := j + STRIP_LEN;
    forall c: nat | c < n2 ensures ColumnsAt(was, x', n1, n2, w, w1, inverse, m, j', c) {
      ScatteredColumn(x, x', y, n1, n2, j, c);
      assert ColumnsAt(was, x, n1, n2, w, w1, inverse, m, j, c);
      if j <= c < j' {
        assert StripAt(StripOf(x, n1, n2, j)[c - j], y, n1, w1, Exp(w, c), inverse, m, STRIP_LEN, c - j) by {
          assert j + (c - j) == c;
        }
      }
    }
  }

  lemma ScatteredSize(was: seq<Limb>, x: seq<Limb>, y: seq<Limb>, n1: nat, n2: nat, j: nat)
    requires Scattered(was, x, y, n1, n2, j, n1, 0)
    ensures |x| == n1 * n2
  {
  }

  lemma ColumnsStart(was: seq<Limb>, n1: nat, n2: nat, w: int, w1: int, inverse: bool, m: int)
    requires m > 0 && |was| == n1 * n2
    ensures ColumnsDone(was, was, n1, n2, w, w1, inverse, m, 0)
  {
    hide ColumnDone;
    hide Column;
    hide Exp;
  }

  // The strip about to be transformed is still as it was.
  lemma StripUnchanged(was: seq<Limb>, x: seq<Limb>, n1: nat, n2: nat, w: int, w1: int, inverse: bool, m: int, j: nat)
    requires m > 0 && ColumnsDone(was, x, n1, n2, w, w1, inverse, m, j) && j + STRIP_LEN <= n2 && Below(was, 2 * m)
    ensures StripBelow(StripOf(x, n1, n2, j), n1, 2 * m)
  {
    hide ColumnDone;
    hide Below;
    hide Exp;
    var strip := StripOf(x, n1, n2, j);
    forall r: nat | r < STRIP_LEN ensures |strip[r]| == n1 && Below(strip[r], 2 * m) {
      assert ColumnsAt(was, x, n1, n2, w, w1, inverse, m, j, j + r);
      ColumnBelow(was, n1, n2, j + r, 2 * m);
    }
  }

  // Every entry is in some column.
  lemma ColumnsBelow(was: seq<Limb>, now: seq<Limb>, n1: nat, n2: nat, w: int, w1: int, inverse: bool, m: int)
    requires m > 0 && n2 > 0 && ColumnsDone(was, now, n1, n2, w, w1, inverse, m, n2)
    ensures Below(now, 2 * m)
  {
    forall q: nat | q < |now| ensures now[q] < 2 * m {
      var r, c := q / n2, q % n2;
      assert q == r * n2 + c;
      RowBelow(q, n1, n2);
      assert ColumnsAt(was, now, n1, n2, w, w1, inverse, m, n2, c);
      assert ColumnDone(Column(was, n1, n2, c), Column(now, n1, n2, c), w1, Exp(w, c), inverse, m);
      hide ColumnDone;
      assert Column(now, n1, n2, c)[r] == now[Cell(r, c, n2)];
    }
  }

  lemma RowBelow(q: nat, n1: nat, n2: nat)
    requires q < n1 * n2
    ensures n2 > 0 && 0 <= q / n2 < n1
  {
    assert n2 != 0;
    var r := q / n2;
    assert q == r * n2 + q % n2;
    DivNonNeg(q, n2);
    if r >= n1 {
      MulMono(n1, r, n2);
    }
  }

  predicate WholeStrips(n: nat) {
    n % STRIP_LEN == 0
  }

  lemma PowerWholeStrips(k2: nat)
    requires k2 >= 4
    ensures WholeStrips(Pow2(k2))
  {
    Pow2Small();
    Pow2Add(k2 - 4, 4);
    assert Pow2(4) == 2 * Pow2(3) && Pow2(3) == 2 * Pow2(2) && Pow2(2) == 2 * Pow2(1);
    hide Pow2;
    StripMultiple(Pow2(k2 - 4));
  }

  lemma StripMultiple(q: nat)
    ensures WholeStrips(q * STRIP_LEN)
  {
  }

  lemma NextStrip(j: nat, n2: nat)
    requires WholeStrips(j) && WholeStrips(n2) && j < n2
    ensures j + STRIP_LEN <= n2 && WholeStrips(j + STRIP_LEN)
  {
  }

  // What ntt_fft_partial leaves in a buffer of 2^(k1 + k2) entries.
  ghost predicate PartialDone(was: seq<Limb>, now: seq<Limb>, k1: nat, k2: nat, roots: seq<Limb>, inverse: bool, m: int)
    requires m > 0 && k1 + k2 < |roots|
  {
    if k2 == 0 then Transformed(was, now, k1, roots[k1], m)
    else ColumnsDone(was, now, Pow2(k1), Pow2(k2), roots[k1 + k2], roots[k1], inverse, m, Pow2(k2))
  }

  // One strip of columns.
  method OneStrip(buf1: array<Limb>, o: nat, buf2: array<Limb>, buf3: array<Limb>, k1: nat, k: nat, n2: nat, j: nat,
                  cMul0: Limb, roots: seq<Limb>, m: Limb, mInv: Limb, inverse: bool, ghost was: seq<Limb>, ghost n: nat)
    returns (cMul: Limb)
    requires Modulus(m) && mInv == WIDE / m && ValidRoots(roots, m) && 1 <= k1 <= NTT_TRIG_K_MAX
    requires buf1 != buf2 && buf1 != buf3 && buf2 != buf3 && buf2.Length == STRIP_LEN * Pow2(k1)
    requires k1 <= k <= NTT_PROOT_2EXP && Pow2(k1) <= buf3.Length
    requires n == Pow2(k1) * n2 && o + n <= buf1.Length && j + STRIP_LEN <= n2 && Below(was, 2 * m)
    requires cMul0 < m && Cong(cMul0, Exp(roots[k], j), m)
    requires ColumnsDone(was, buf1[o..o + n], Pow2(k1), n2, roots[k], roots[k1], inverse, m, j)
    modifies buf1, buf2, buf3
    ensures ColumnsDone(was, buf1[o..o + n], Pow2(k1), n2, roots[k], roots[k1], inverse, m, j + STRIP_LEN)
    ensures cMul < m && Cong(cMul, Exp(roots[k], j + STRIP_LEN), m)
    ensures Outside(old(buf1[..]), buf1[..], o, n)
  {
    assert |roots| == NTT_PROOT_2EXP + 1;
    hide ValidRoots;
    hide Cong;
    hide Exp;
    hide StripDone;
    hide StripBelow;
    hide Scattered;
    hide RowsAre;
    hide Below;
    hide Outside;
    var n1 := Pow2(k1);
    hide Pow2;
    ghost var x := buf1[o..o + n];
    StripUnchanged(was, x, n1, n2, roots[k], roots[k1], inverse, m, j);
    ColumnsSize(was, x, n1, n2, roots[k], roots[k1], inverse, m, j);
    hide ColumnsDone;
    ghost var strip := StripOf(x, n1, n2, j);
    GatherStrip(buf1, o, buf2, n1, n2, j);
    cMul := TransformStrip(buf2, buf3, k1, k, cMul0, roots, m, mInv, inverse, j, strip);
    ScatterStrip(buf1, o, buf2, n1, n2, j);
    StripColumns(was, x, buf1[o..o + n], buf2[..], n1, n2, roots[k], roots[k1], inverse, m, j);
  }

  lemma ColumnsSize(was: seq<Limb>, x: seq<Limb>, n1: nat, n2: nat, w: int, w1: int, inverse: bool, m: int, j: nat)
    requires m > 0 && ColumnsDone(was, x, n1, n2, w, w1, inverse, m, j)
    ensures |was| == |x| == n1 * n2
  {
  }

  // The strips of the columns.
  method TransformColumns(buf1: array<Limb>, o: nat, k1: nat, k2: nat, roots: seq<Limb>, m: Limb, mInv: Limb,
                          inverse: bool, ghost n: nat)
    requires Modulus(m) && mInv == WIDE / m && ValidRoots(roots, m) && 1 <= k1 <= NTT_TRIG_K_MAX && 4 <= k2
    requires k1 + k2 <= NTT_PROOT_2EXP && n == Pow2(k1) * Pow2(k2) && o + n <= buf1.Length
    requires Below(buf1[o..o + n], 2 * m)
    modifies buf1
    ensures ColumnsDone(old(buf1[o..o + n]), buf1[o..o + n], Pow2(k1), Pow2(k2), roots[k1 + k2], roots[k1], inverse, m,
                        Pow2(k2))
    ensures Outside(old(buf1[..]), buf1[..], o, n)
  {
    assert |roots| == NTT_PROOT_2EXP + 1;
    PowerWholeStrips(k2);
    hide WholeStrips;
    var n1, n2 := Pow2(k1), Pow2(k2);
    hide Pow2;
    var buf3 := new Limb[n1];
    var buf2 := new Limb[STRIP_LEN * n1];
    ghost var w: int, w1: int := roots[k1 + k2], roots[k1];
    ghost var all, was := buf1[..], buf1[o..o + n];
    hide ValidRoots;
    ColumnsStart(was, n1, n2, w, w1, inverse, m);
    hide ColumnsDone;
    OutsideSelf(all, o, n);
    hide Outside;
    ExpZero(w);
    hide Exp;
    CongSelf(1, m);
    hide Cong;
    hide Below;
    var cMul: Limb := 1;
    var j := 0;
    while j < n2
      invariant 0 <= j <= n2 && WholeStrips(j) && cMul < m && Cong(cMul, Exp(w, j), m)
      invariant ColumnsDone(was, buf1[o..o + n], n1, n2, w, w1, inverse, m, j)
      invariant Outside(all, buf1[..], o, n)
    {
      NextStrip(j, n2);
      ghost var mid := buf1[..];
      cMul := OneStrip(buf1, o, buf2, buf3, k1, k1 + k2, n2, j, cMul, roots, m, mInv, inverse, was, n);
      StripOutside(all, mid, buf1[..], o, n);
      j := j + STRIP_LEN;
    }
  }

  lemma StripOutside(was: seq<Limb>, mid: seq<Limb>, now: seq<Limb>, o: nat, n: nat)
    requires Outside(was, mid, o, n) && Outside(mid, now, o, n)
    ensures Outside(was, now, o, n)
  {
  }

  // ntt_fft_partial
  method FftPartial(buf1: array<Limb>, o: nat, k1: nat, k2: nat, roots: seq<Limb>, m: Limb, mInv: Limb, inverse: bool)
    requires Modulus(m) && mInv == WIDE / m && ValidRoots(roots, m) && 1 <= k1 <= NTT_TRIG_K_MAX
    requires k1 + k2 <= NTT_PROOT_2EXP && (k2 == 0 || 4 <= k2)
    requires o + Pow2(k1 + k2) <= buf1.Length && Below(buf1[o..o + Pow2(k1 + k2)], 2 * m)
    modifies buf1
    ensures PartialDone(old(buf1[o..o + Pow2(k1 + k2)]), buf1[o..o + Pow2(k1 + k2)], k1, k2, roots, inverse, m)
    ensures Below(buf1[o..o + Pow2(k1 + k2)], 2 * m)
    ensures Outside(old(buf1[..]), buf1[..], o, Pow2(k1 + k2))
  {
    assert |roots| == NTT_PROOT_2EXP + 1;
    hide ValidRoots;
    hide Cong;
    hide Outside;
    hide ColumnsDone;
    hide Dft;
    Pow2Add(k1, k2);
    hide Pow2;
    if k2 == 0 {
      var buf3 := new Limb[Pow2(k1)];
      Fft(buf1, o, buf3, k1, roots, m);
    } else {
      hide Below;
      ghost var was := buf1[o..o + Pow2(k1) * Pow2(k2)];
      TransformColumns(buf1, o, k1, k2, roots, m, mInv, inverse, Pow2(k1) * Pow2(k2));
      ColumnsBelow(was, buf1[o..o + Pow2(k1) * Pow2(k2)], Pow2(k1), Pow2(k2), roots[k1 + k2], roots[k1], inverse, m);
    }
  }

  // ----- Rows of the transformed table -----

  lemma ColumnDft(x: seq<Limb>, n1: nat, n2: nat, c: nat, w: int, f: nat)
    requires |x| == n1 * n2 && c < n2
    ensures Dft(Strided(SeqFn(x), c, n2), n1, w, f) == Dft(SeqFn(Column(x, n1, n2, c)), n1, w, f)
  {
    hide Exp;
    hide Sum;
    var z, col := Exp(w, f), Column(x, n1, n2, c);
    forall i: nat | i < n1 ensures Term(Strided(SeqFn(x), c, n2), z)(i) == Term(SeqFn(col), z)(i) {
      TermValue(Strided(SeqFn(x), c, n2), z, i);
      TermValue(SeqFn(col), z, i);
      assert col[i] == x[Cell(i, c, n2)];
      SeqValue(x, Cell(i, c, n2));
    }
    SumSame(Term(Strided(SeqFn(x), c, n2), z), Term(SeqFn(col), z), n1);
  }

  lemma RowEntry(x: seq<Limb>, n1: nat, n2: nat, r: nat, c: nat)
    requires |x| == n1 * n2 && r < n1 && c < n2
    ensures r * n2 + n2 <= |x| && SeqFn(Row(x, r, n2))(c) == Column(x, n1, n2, c)[r]
  {
    RowInside(r, n1, n2);
    assert Row(x, r, n2)[c] == x[Cell(r, c, n2)];
  }

  // An output of the whole is an output of the transform of a row that ntt_fft_partial leaves.
  lemma ForwardRow(a: seq<Limb>, y: seq<Limb>, n1: nat, n2: nat, w: int, w1: int, w2: int, f1: nat, f2: nat, m: int)
    requires m > 0 && SplitRoots(w, w1, w2, n1, n2, m) && ColumnsDone(a, y, n1, n2, w, w1, false, m, n2) && f1 < n1
    ensures f1 * n2 + n2 <= |y|
    ensures Cong(Dft(SeqFn(a), n1 * n2, w, f1 + n1 * f2), Dft(SeqFn(Row(y, f1, n2)), n2, w2, f2), m)
  {
    hide Cong;
    hide Exp;
    hide Dft;
    RowInside(f1, n1, n2);
    var row := SeqFn(Row(y, f1, n2));
    forall c: nat | c < n2 ensures Cong(row(c), Twisted(SeqFn(a), n1, n2, w, w1, c, f1), m) {
      RowEntry(y, n1, n2, f1, c);
      ColumnDft(a, n1, n2, c, w1, f1);
      assert ColumnsAt(a, y, n1, n2, w, w1, false, m, n2, c);
    }
    hide ColumnsDone;
    FourStep(SeqFn(a), row, n1, n2, w, w1, w2, f1, f2, m);
  }

  // Transforming a column that has been transformed backward.
  lemma ColumnBack(p: seq<Limb>, r: seq<Limb>, k1: nat, w1: int, v1: int, z: int, f: nat, m: int)
    requires m > 0 && 1 <= k1 && |p| == Pow2(k1) && ColumnDone(p, r, v1, z, true, m) && f < |p|
    requires PrimitiveRoot(w1, k1, m) && Cong(w1 * v1, 1, m)
    ensures Cong(Dft(SeqFn(r), |p|, w1, f), |p| * (p[f] * Exp(z, f)), m)
  {
    hide Cong;
    hide Exp;
    hide Dft;
    hide PrimitiveRoot;
    hide Pow2;
    var n, x := |p|, Term(SeqFn(p), z);
    forall i: nat | i < n ensures Cong(SeqFn(r)(i), DftFn(x, n, v1)(i), m) {
      SeqValue(r, i);
    }
    DftCong(SeqFn(r), DftFn(x, n, v1), n, w1, f, m);
    InverseRoot(w1, v1, k1, m);
    assert v1 * w1 == w1 * v1;
    InverseDft(x, k1, v1, w1, f, m);
    TermValue(SeqFn(p), z, f);
    CongTrans(Dft(SeqFn(r), n, w1, f), Dft(DftFn(x, n, v1), n, w1, f), n * x(f), m);
  }

  // Twisting by powers of a root and of its inverse cancels.
  lemma TwistCancels(d: int, n: int, x: int, w: int, v: int, c: nat, f: nat, m: int)
    requires m > 0 && Cong(w * v, 1, m) && Cong(d, n * (x * Exp(Exp(v, c), f)), m)
    ensures Cong(n * x, d * Exp(Exp(w, c), f), m)
  {
    hide Cong;
    hide Exp;
    var p, q := Exp(Exp(v, c), f), Exp(Exp(w, c), f);
    ExpMul(w, v, c);
    ExpMul(Exp(w, c), Exp(v, c), f);
    ExpCong(w * v, 1, c, m);
    ExpOne(c);
    ExpCong(Exp(w * v, c), 1, f, m);
    ExpOne(f);
    assert q * p == Exp(Exp(w * v, c), f);
    CongSelf(q, m);
    CongMul(d, n * (x * p), q, q, m);
    CancelProduct(n, x, p, q);
    CongSelf(n * x, m);
    CongMul(q * p, 1, n * x, n * x, m);
    CongTrans(d * q, (q * p) * (n * x), n * x, m);
    CongSym(d * q, n * x, m);
  }

  lemma CancelProduct(n: int, x: int, p: int, q: int)
    ensures (n * (x * p)) * q == (q * p) * (n * x)
  {
    Assoc3(n, x, p);
    Regroup(n * x, p, q);
    assert (n * x) * (p * q) == (q * p) * (n * x);
  }

  lemma BackwardEntry(p: seq<Limb>, r: seq<Limb>, k1: nat, n2: nat, w: int, w1: int, v: int, v1: int, f1: nat, c: nat,
                      m: int)
    requires m > 0 && 1 <= k1 && ColumnsDone(p, r, Pow2(k1), n2, v, v1, true, m, n2)
    requires f1 < Pow2(k1) && c < n2 && PrimitiveRoot(w1, k1, m) && Cong(w1 * v1, 1, m) && Cong(w * v, 1, m)
    ensures f1 * n2 + n2 <= |p|
    ensures Cong(Pow2(k1) * SeqFn(Row(p, f1, n2))(c), Twisted(SeqFn(r), Pow2(k1), n2, w, w1, c, f1), m)
  {
    hide Cong;
    hide Exp;
    hide Dft;
    hide PrimitiveRoot;
    var n1 := Pow2(k1);
    RowEntry(p, n1, n2, f1, c);
    ColumnDft(r, n1, n2, c, w1, f1);
    assert ColumnsAt(p, r, n1, n2, v, v1, true, m, n2, c);
    hide ColumnsDone;
    hide ColumnDone;
    var pc, rc := Column(p, n1, n2, c), Column(r, n1, n2, c);
    ColumnBack(pc, rc, k1, w1, v1, Exp(v, c), f1, m);
    TwistCancels(Dft(SeqFn(rc), n1, w1, f1), n1, pc[f1], w, v, c, f1, m);
  }

  // Undoing the backward pass of ntt_fft_partial gives the rows back, times the number of rows.
  lemma BackwardRow(p: seq<Limb>, r: seq<Limb>, k1: nat, n2: nat, w: int, w1: int, w2: int, v: int, v1: int,
                    f1: nat, f2: nat, m: int)
    requires m > 0 && 1 <= k1 && SplitRoots(w, w1, w2, Pow2(k1), n2, m)
    requires ColumnsDone(p, r, Pow2(k1), n2, v, v1, true, m, n2) && f1 < Pow2(k1)
    requires PrimitiveRoot(w1, k1, m) && Cong(w1 * v1, 1, m) && Cong(w * v, 1, m)
    ensures f1 * n2 + n2 <= |p|
    ensures Cong(Dft(SeqFn(r), Pow2(k1) * n2, w, f1 + Pow2(k1) * f2),
                 Pow2(k1) * Dft(SeqFn(Row(p, f1, n2)), n2, w2, f2), m)
  {
    var n1 := Pow2(k1);
    assert |p| == n1 * n2;
    hide Pow2;
    hide Cong;
    hide Exp;
    hide Dft;
    hide PrimitiveRoot;
    hide SplitRoots;
    hide ColumnsDone;
    hide Twisted;
    hide ScaleFn;
    RowInside(f1, n1, n2);
    var row := SeqFn(Row(p, f1, n2));
    forall c: nat | c < n2 ensures Cong(ScaleFn(row, n1)(c), Twisted(SeqFn(r), n1, n2, w, w1, c, f1), m) {
      BackwardEntry(p, r, k1, n2, w, w1, v, v1, f1, c, m);
      ScaleValue(row, n1, c);
    }
    FourStep(SeqFn(r), ScaleFn(row, n1), n1, n2, w, w1, w2, f1, f2, m);
    DftScale(row, n1, n2, w2, f2);
  }
}
