// The bytecode of quickjs/libregexp.c: instructions, their byte encoding and decoding.

module RegexpCode {
  import opened Basics

  // ----- Little-endian numbers -----

  const TWO16: int := 0x1_0000
  const TWO31: int := 0x8000_0000
  const TWO32: int := 0x1_0000_0000

  function U16(x: int): (r: seq<byte>)
    requires 0 <= x < TWO16
    ensures |r| == 2
  {
    [x % 256, x / 256]
  }

  function U32(x: int): (r: seq<byte>)
    requires 0 <= x < TWO32
    ensures |r| == 4
  {
    [x % 256, x / 256 % 256, x / 65536 % 256, x / 16777216]
  }

  function GetU16(code: seq<byte>, p: int): int
    requires 0 <= p && p + 2 <= |code|
  {
    code[p] as int + 256 * (code[p + 1] as int)
  }

  function GetU32(code: seq<byte>, p: int): int
    requires 0 <= p && p + 4 <= |code|
  {
    code[p] as int + 256 * (code[p + 1] as int) + 65536 * (code[p + 2] as int) + 16777216 * (code[p + 3] as int)
  }

  lemma GetU16Put(code: seq<byte>, p: int, x: int)
    requires 0 <= p && p + 2 <= |code| && 0 <= x < TWO16
    requires code[p] == U16(x)[0] && code[p + 1] == U16(x)[1]
    ensures GetU16(code, p) == x
  {
  }

  lemma GetU32Put(code: seq<byte>, p: int, x: int)
    requires 0 <= p && p + 4 <= |code| && 0 <= x < TWO32
    requires forall k :: 0 <= k < 4 ==> code[p + k] == U32(x)[k]
    ensures GetU32(code, p) == x
  {
    assert code[p + 0] == U32(x)[0] && code[p + 1] == U32(x)[1];
    assert code[p + 2] == U32(x)[2] && code[p + 3] == U32(x)[3];
    FourBytes(x);
  }

  lemma FourBytes(x: int)
    requires 0 <= x < TWO32
    ensures x % 256 + 256 * (x / 256 % 256) + 65536 * (x / 65536 % 256) + 16777216 * (x / 16777216) == x
  {
    assert x / 65536 == x / 256 / 256 && x / 16777216 == x / 65536 / 256;
  }

  // A signed displacement stored in an unsigned word, and read back through (int).
  function ToU32(x: int): (r: int)
    requires -TWO31 <= x < TWO31
    ensures 0 <= r < TWO32
  {
    if x < 0 then x + TWO32 else x
  }

  function ToI32(x: int): int
    requires 0 <= x < TWO32
  {
    if x >= TWO31 then x - TWO32 else x
  }

  // ----- Instructions -----

  datatype Pair = Pair(lo: int, hi: int)

  datatype Instr =
    | IChar(c: int)
    | IChar32(c: int)
    | IDot
    | IAny
    | ILineStart
    | ILineEnd
    | IGoto(off: int)
    | ISplit(nextFirst: bool, off: int)
    | IMatch
    | ISave(end: bool, n: int)
    | ISaveReset(lo: int, hi: int)
    | ILoop(off: int)
    | IPushI32(v: int)
    | IDrop
    | IWordBoundary(neg: bool)
    | IBackRef(backward: bool, n: int)
    | IRange(pairs: seq<Pair>)
    | IRange32(pairs: seq<Pair>)
    | ILook(neg: bool, off: int)
    | IPushCharPos
    | IBneCharPos(off: int)
    | IPrev
    | IGreedy(next: int, min: int, max: int, count: int)
  {
    function Size(): (n: nat)
      ensures n >= 1
    {
      match this
      case IChar(_) => 3
      case IChar32(_) => 5
      case IGoto(_) => 5
      case ISplit(_, _) => 5
      case ISave(_, _) => 2
      case ISaveReset(_, _) => 3
      case ILoop(_) => 5
      case IPushI32(_) => 5
      case IBackRef(_, _) => 2
      case IRange(pairs) => 3 + 4 * |pairs|
      case IRange32(pairs) => 3 + 8 * |pairs|
      case ILook(_, _) => 5
      case IBneCharPos(_) => 5
      case IGreedy(_, _, _, _) => 17
      case _ => 1
    }

    // The operands fit their fields.
    ghost predicate Valid() {
      match this
      case IChar(c) => 0 <= c < TWO16
      case IChar32(c) => 0 <= c < TWO32
      case IGoto(off) => -TWO31 <= off < TWO31
      case ISplit(_, off) => -TWO31 <= off < TWO31
      case ISave(_, n) => 0 <= n < 256
      case ISaveReset(lo, hi) => 0 <= lo < 256 && 0 <= hi < 256
      case ILoop(off) => -TWO31 <= off < TWO31
      case IPushI32(v) => 0 <= v < TWO32
      case IBackRef(_, n) => 0 <= n < 256
      case IRange(pairs) => |pairs| < TWO16 && ValidPairs(pairs, TWO16)
      case IRange32(pairs) => |pairs| < TWO16 && ValidPairs(pairs, TWO32)
      case ILook(_, off) => -TWO31 <= off < TWO31
      case IBneCharPos(off) => -TWO31 <= off < TWO31
      case IGreedy(next, min, max, count) =>
        -TWO31 <= next < TWO31 && 0 <= min < TWO32 && 0 <= max < TWO32 && 0 <= count < TWO32
      case _ => true
    }
  }

  ghost predicate ValidPairs(pairs: seq<Pair>, limit: int) {
    forall k :: 0 <= k < |pairs| ==> 0 <= pairs[k].lo < limit && 0 <= pairs[k].hi < limit
  }

  function BoolBit(b: bool): int {
    if b then 1 else 0
  }

  // Opcode numbers, in the order of libregexp-opcode.h.
  function Opcode(i: Instr): (op: byte)
  {
    match i
    case IChar(_) => 1
    case IChar32(_) => 2
    case IDot => 3
    case IAny => 4
    case ILineStart => 5
    case ILineEnd => 6
    case IGoto(_) => 7
    case ISplit(nextFirst, _) => 8 + BoolBit(nextFirst)
    case IMatch => 10
    case ISave(end, _) => 11 + BoolBit(end)
    case ISaveReset(_, _) => 13
    case ILoop(_) => 14
    case IPushI32(_) => 15
    case IDrop => 16
    case IWordBoundary(neg) => 17 + BoolBit(neg)
    case IBackRef(backward, _) => 19 + BoolBit(backward)
    case IRange(_) => 21
    case IRange32(_) => 22
    case ILook(neg, _) => 23 + BoolBit(neg)
    case IPushCharPos => 25
    case IBneCharPos(_) => 26
    case IPrev => 27
    case IGreedy(_, _, _, _) => 28
  }

  function EncPairs16(pairs: seq<Pair>): (r: seq<byte>)
    requires ValidPairs(pairs, TWO16)
    ensures |r| == 4 * |pairs|
  {
    if pairs == [] then [] else U16(pairs[0].lo) + U16(pairs[0].hi) + EncPairs16(pairs[1..])
  }

  function EncPairs32(pairs: seq<Pair>): (r: seq<byte>)
    requires ValidPairs(pairs, TWO32)
    ensures |r| == 8 * |pairs|
  {
    if pairs == [] then [] else U32(pairs[0].lo) + U32(pairs[0].hi) + EncPairs32(pairs[1..])
  }

  function Operands(i: Instr): (r: seq<byte>)
    requires i.Valid()
    ensures |r| == i.Size() - 1
  {
    match i
    case IChar(c) => U16(c)
    case IChar32(c) => U32(c)
    case IGoto(off) => U32(ToU32(off))
    case ISplit(_, off) => U32(ToU32(off))
    case ISave(_, n) => [n]
    case ISaveReset(lo, hi) => [lo, hi]
    case ILoop(off) => U32(ToU32(off))
    case IPushI32(v) => U32(v)
    case IBackRef(_, n) => [n]
    case IRange(pairs) => U16(|pairs|) + EncPairs16(pairs)
    case IRange32(pairs) => U16(|pairs|) + EncPairs32(pairs)
    case ILook(_, off) => U32(ToU32(off))
    case IBneCharPos(off) => U32(ToU32(off))
    case IGreedy(next, min, max, count) => U32(ToU32(next)) + U32(min) + U32(max) + U32(count)
    case _ => []
  }

  function Enc(i: Instr): (r: seq<byte>)
    requires i.Valid()
    ensures |r| == i.Size()
  {
    [Opcode(i)] + Operands(i)
  }

  // ----- Decoding at a byte position -----

  function DecPairs16(code: seq<byte>, p: int, n: nat): (r: seq<Pair>)
    requires 0 <= p && p + 4 * n <= |code|
    ensures |r| == n
    decreases n
  {
    if n == 0 then [] else [Pair(GetU16(code, p), GetU16(code, p + 2))] + DecPairs16(code, p + 4, n - 1)
  }

  function DecPairs32(code: seq<byte>, p: int, n: nat): (r: seq<Pair>)
    requires 0 <= p && p + 8 * n <= |code|
    ensures |r| == n
    decreases n
  {
    if n == 0 then [] else [Pair(GetU32(code, p), GetU32(code, p + 4))] + DecPairs32(code, p + 8, n - 1)
  }

  // Number of bytes of the instruction at p, 0 if there is none.
  function SizeAt(code: seq<byte>, p: int): nat
    requires 0 <= p < |code|
  {
    var op := code[p];
    if op == 1 || op == 13 then 3
    else if op == 2 || op == 7 || op == 8 || op == 9 || op == 14 || op == 15 || op == 23 || op == 24 || op == 26 then 5
    else if op == 11 || op == 12 || op == 19 || op == 20 then 2
    else if op == 28 then 17
    else if op == 21 then (if p + 3 <= |code| then 3 + 4 * GetU16(code, p + 1) else 0)
    else if op == 22 then (if p + 3 <= |code| then 3 + 8 * GetU16(code, p + 1) else 0)
    else if op == 0 || op > 28 then 0
    else 1
  }

  function Decode(code: seq<byte>, p: int): Option<Instr>
  {
    if p < 0 || p >= |code| then None
    else
      var n := SizeAt(code, p);
      if n == 0 || p + n > |code| then None
      else
        var op, q := code[p], p + 1;
        if op == 1 then Some(IChar(GetU16(code, q)))
        else if op == 2 then Some(IChar32(GetU32(code, q)))
        else if op == 3 then Some(IDot)
        else if op == 4 then Some(IAny)
        else if op == 5 then Some(ILineStart)
        else if op == 6 then Some(ILineEnd)
        else if op == 7 then Some(IGoto(Disp(code, q)))
        else if op <= 9 then Some(ISplit(op == 9, Disp(code, q)))
        else if op == 10 then Some(IMatch)
        else if op <= 12 then Some(ISave(op == 12, code[q]))
        else if op == 13 then Some(ISaveReset(code[q], code[q + 1]))
        else if op == 14 then Some(ILoop(Disp(code, q)))
        else if op == 15 then Some(IPushI32(GetU32(code, q)))
        else if op == 16 then Some(IDrop)
        else if op <= 18 then Some(IWordBoundary(op == 18))
        else if op <= 20 then Some(IBackRef(op == 20, code[q]))
        else if op == 21 then Some(IRange(DecPairs16(code, q + 2, GetU16(code, q))))
        else if op == 22 then Some(IRange32(DecPairs32(code, q + 2, GetU16(code, q))))
        else if op <= 24 then Some(ILook(op == 24, Disp(code, q)))
        else if op == 25 then Some(IPushCharPos)
        else if op == 26 then Some(IBneCharPos(Disp(code, q)))
        else if op == 27 then Some(IPrev)
        else Some(IGreedy(Disp(code, q), GetU32(code, q + 4), GetU32(code, q + 8), GetU32(code, q + 12)))
  }

  function Disp(code: seq<byte>, p: int): int
    requires 0 <= p && p + 4 <= |code|
  {
    ToI32(GetU32(code, p))
  }

  // Instruction i is stored at byte p.
  ghost predicate At(code: seq<byte>, p: int, i: Instr) {
    && i.Valid() && 0 <= p && p + i.Size() <= |code|
    && code[p..p + i.Size()] == Enc(i)
  }

  lemma AtBytes(code: seq<byte>, p: int, i: Instr)
    requires At(code, p, i)
    ensures code[p] == Opcode(i)
    ensures forall k :: 0 <= k < i.Size() - 1 ==> code[p + 1 + k] == Operands(i)[k]
  {
    var s := code[p..p + i.Size()];
    assert s[0] == code[p];
    forall k | 0 <= k < i.Size() - 1
      ensures code[p + 1 + k] == Operands(i)[k]
    {
      assert s[1 + k] == code[p + (1 + k)];
      assert Enc(i)[1 + k] == Operands(i)[k];
    }
  }

  lemma {:induction false} DecPairs16Enc(code: seq<byte>, p: int, pairs: seq<Pair>)
    requires ValidPairs(pairs, TWO16)
    requires 0 <= p && p + 4 * |pairs| <= |code|
    requires forall k :: 0 <= k < 4 * |pairs| ==> code[p + k] == EncPairs16(pairs)[k]
    ensures DecPairs16(code, p, |pairs|) == pairs
    decreases |pairs|
  {
    if pairs != [] {
      var e := EncPairs16(pairs);
      assert forall k :: 0 <= k < 2 ==> e[k] == U16(pairs[0].lo)[k];
      assert forall k :: 2 <= k < 4 ==> e[k] == U16(pairs[0].hi)[k - 2];
      assert code[p + 0] == e[0] && code[p + 1] == e[1] && code[p + 2] == e[2] && code[p + 3] == e[3];
      GetU16Put(code, p, pairs[0].lo);
      GetU16Put(code, p + 2, pairs[0].hi);
      forall k | 0 <= k < 4 * |pairs[1..]|
        ensures code[p + 4 + k] == EncPairs16(pairs[1..])[k]
      {
        assert code[p + (4 + k)] == e[4 + k];
      }
      DecPairs16Enc(code, p + 4, pairs[1..]);
    }
  }

  lemma {:induction false} DecPairs32Enc(code: seq<byte>, p: int, pairs: seq<Pair>)
    requires ValidPairs(pairs, TWO32)
    requires 0 <= p && p + 8 * |pairs| <= |code|
    requires forall k :: 0 <= k < 8 * |pairs| ==> code[p + k] == EncPairs32(pairs)[k]
    ensures DecPairs32(code, p, |pairs|) == pairs
    decreases |pairs|
  {
    if pairs != [] {
      var e := EncPairs32(pairs);
      forall k | 0 <= k < 4
        ensures code[p + k] == U32(pairs[0].lo)[k] && code[p + 4 + k] == U32(pairs[0].hi)[k]
      {
        assert e[k] == U32(pairs[0].lo)[k] && e[4 + k] == U32(pairs[0].hi)[k];
        assert code[p + (4 + k)] == e[4 + k];
      }
      GetU32Put(code, p, pairs[0].lo);
      GetU32Put(code, p + 4, pairs[0].hi);
      forall k | 0 <= k < 8 * |pairs[1..]|
        ensures code[p + 8 + k] == EncPairs32(pairs[1..])[k]
      {
        assert code[p + (8 + k)] == e[8 + k];
      }
      DecPairs32Enc(code, p + 8, pairs[1..]);
    }
  }

  lemma WordAt(code: seq<byte>, p: int, i: Instr, k: nat, x: int)
    requires At(code, p, i) && k + 4 <= i.Size() - 1 && 0 <= x < TWO32
    requires forall j :: 0 <= j < 4 ==> Operands(i)[k + j] == U32(x)[j]
    ensures GetU32(code, p + 1 + k) == x
  {
    AtBytes(code, p, i);
    forall j | 0 <= j < 4 ensures code[p + 1 + k + j] == U32(x)[j] {
      assert code[p + 1 + (k + j)] == Operands(i)[k + j];
    }
    GetU32Put(code, p + 1 + k, x);
  }

  lemma CountAt(code: seq<byte>, p: int, i: Instr, pairs: seq<Pair>)
    requires At(code, p, i) && (i == IRange(pairs) || i == IRange32(pairs))
    ensures GetU16(code, p + 1) == |pairs|
  {
    AtBytes(code, p, i);
    assert code[p + 1 + 0] == U16(|pairs|)[0] && code[p + 1 + 1] == U16(|pairs|)[1];
    GetU16Put(code, p + 1, |pairs|);
  }

  // Decoding inverts encoding, wherever the instruction sits.
  lemma DecodeEnc(code: seq<byte>, p: int, i: Instr)
    requires At(code, p, i)
    ensures Decode(code, p) == Some(i) && SizeAt(code, p) == i.Size()
  {
    match i
    case IChar(_) => DecodeEncSmall(code, p, i);
    case IChar32(_) => DecodeEncWord(code, p, i);
    case IGoto(_) => DecodeEncDisp(code, p, i);
    case ISplit(_, _) => DecodeEncDisp(code, p, i);
    case ISave(_, _) => DecodeEncSmall(code, p, i);
    case ISaveReset(_, _) => DecodeEncSmall(code, p, i);
    case ILoop(_) => DecodeEncDisp(code, p, i);
    case IPushI32(_) => DecodeEncWord(code, p, i);
    case IBackRef(_, _) => DecodeEncSmall(code, p, i);
    case IRange(_) => DecodeEncRange(code, p, i);
    case IRange32(_) => DecodeEncRange32(code, p, i);
    case ILook(_, _) => DecodeEncDisp(code, p, i);
    case IBneCharPos(_) => DecodeEncDisp(code, p, i);
    case IGreedy(_, _, _, _) => DecodeEncGreedy(code, p, i);
    case _ => AtBytes(code, p, i);
  }

  lemma DecodeEncSmall(code: seq<byte>, p: int, i: Instr)
    requires At(code, p, i) && (i.IChar? || i.ISave? || i.ISaveReset? || i.IBackRef?)
    ensures Decode(code, p) == Some(i) && SizeAt(code, p) == i.Size()
  {
    AtBytes(code, p, i);
    assert code[p + 1 + 0] == Operands(i)[0];
    if i.IChar? {
      assert code[p + 1 + 1] == Operands(i)[1];
      GetU16Put(code, p + 1, i.c);
    } else if i.ISaveReset? {
      assert code[p + 1 + 1] == Operands(i)[1];
    }
  }

  lemma DecodeEncWord(code: seq<byte>, p: int, i: Instr)
    requires At(code, p, i) && (i.IChar32? || i.IPushI32?)
    ensures Decode(code, p) == Some(i) && SizeAt(code, p) == i.Size()
  {
    AtBytes(code, p, i);
    WordAt(code, p, i, 0, if i.IChar32? then i.c else i.v);
  }

  lemma DecodeEncDisp(code: seq<byte>, p: int, i: Instr)
    requires At(code, p, i)
    requires i.IGoto? || i.ISplit? || i.ILoop? || i.ILook? || i.IBneCharPos?
    ensures Decode(code, p) == Some(i) && SizeAt(code, p) == i.Size()
  {
    AtBytes(code, p, i);
    WordAt(code, p, i, 0, ToU32(i.off));
  }

  lemma DecodeEncGreedy(code: seq<byte>, p: int, i: Instr)
    requires At(code, p, i) && i.IGreedy?
    ensures Decode(code, p) == Some(i) && SizeAt(code, p) == i.Size()
  {
    AtBytes(code, p, i);
    WordAt(code, p, i, 0, ToU32(i.next));
    WordAt(code, p, i, 4, i.min);
    WordAt(code, p, i, 8, i.max);
    WordAt(code, p, i, 12, i.count);
  }

  lemma DecodeEncRange(code: seq<byte>, p: int, i: Instr)
    requires At(code, p, i) && i.IRange?
    ensures Decode(code, p) == Some(i) && SizeAt(code, p) == i.Size()
  {
    var pairs := i.pairs;
    AtBytes(code, p, i);
    CountAt(code, p, i, pairs);
    forall k | 0 <= k < 4 * |pairs| ensures code[p + 3 + k] == EncPairs16(pairs)[k] {
      assert code[p + 1 + (2 + k)] == Operands(i)[2 + k];
    }
    DecPairs16Enc(code, p + 3, pairs);
  }

  lemma DecodeEncRange32(code: seq<byte>, p: int, i: Instr)
    requires At(code, p, i) && i.IRange32?
    ensures Decode(code, p) == Some(i) && SizeAt(code, p) == i.Size()
  {
    var pairs := i.pairs;
    AtBytes(code, p, i);
    CountAt(code, p, i, pairs);
    forall k | 0 <= k < 8 * |pairs| ensures code[p + 3 + k] == EncPairs32(pairs)[k] {
      assert code[p + 1 + (2 + k)] == Operands(i)[2 + k];
    }
    DecPairs32Enc(code, p + 3, pairs);
  }

  // ----- Blocks of instructions -----

  function TotalSize(b: seq<Instr>): nat {
    if b == [] then 0 else b[0].Size() + TotalSize(b[1..])
  }

  ghost predicate AllValid(b: seq<Instr>) {
    forall k :: 0 <= k < |b| ==> b[k].Valid()
  }

  function EncAll(b: seq<Instr>): (r: seq<byte>)
    requires AllValid(b)
    ensures |r| == TotalSize(b)
  {
    if b == [] then [] else Enc(b[0]) + EncAll(b[1..])
  }

  // What the machine fetches at each byte position of a program.
  type Fetch = int -> Option<Instr>

  function Fetcher(code: seq<byte>): Fetch {
    pc => Decode(code, pc)
  }

  // The block b is found at p.
  ghost predicate AtAll(fetch: Fetch, p: int, b: seq<Instr>)
    decreases |b|
  {
    b == [] || (fetch(p) == Some(b[0]) && AtAll(fetch, p + b[0].Size(), b[1..]))
  }

  lemma TotalSizeOne(i: Instr)
    ensures TotalSize([i]) == i.Size()
  {
    assert TotalSize([i][1..]) == 0;
  }

  lemma {:induction false} TotalSizeConcat(a: seq<Instr>, b: seq<Instr>)
    ensures TotalSize(a + b) == TotalSize(a) + TotalSize(b)
  {
    if a == [] {
      assert a + b == b;
    } else {
      TotalSizeConcat(a[1..], b);
      assert (a + b)[1..] == a[1..] + b;
    }
  }

  lemma {:induction false} AtAllConcat(fetch: Fetch, p: int, a: seq<Instr>, b: seq<Instr>)
    ensures AtAll(fetch, p, a + b) <==> AtAll(fetch, p, a) && AtAll(fetch, p + TotalSize(a), b)
    decreases |a|
  {
    if a == [] {
      assert a + b == b;
    } else {
      AtAllConcat(fetch, p + a[0].Size(), a[1..], b);
      assert (a + b)[1..] == a[1..] + b;
    }
  }

  lemma AllValidParts(a: seq<Instr>, b: seq<Instr>)
    ensures AllValid(a) && AllValid(b) <==> AllValid(a + b)
    ensures a != [] && AllValid(a) ==> a[0].Valid() && AllValid(a[1..])
  {
    if AllValid(a + b) {
      forall k | 0 <= k < |a| ensures a[k].Valid() {
        assert (a + b)[k] == a[k];
      }
      forall k | 0 <= k < |b| ensures b[k].Valid() {
        assert (a + b)[|a| + k] == b[k];
      }
    }
  }

  lemma {:induction false} EncAllConcat(a: seq<Instr>, b: seq<Instr>)
    requires AllValid(a) && AllValid(b)
    ensures AllValid(a + b) && EncAll(a + b) == EncAll(a) + EncAll(b)
  {
    AllValidParts(a, b);
    hide Enc;
    hide AllValid;
    hide TotalSize;
    if a == [] {
      assert a + b == b && EncAll(a) == [];
    } else {
      EncAllConcat(a[1..], b);
      assert (a + b)[1..] == a[1..] + b;
      EncAllHead(a + b);
      EncAllHead(a);
      hide EncAll;
      assert EncAll(a + b) == Enc(a[0]) + (EncAll(a[1..]) + EncAll(b));
    }
  }

  lemma EncAllHead(a: seq<Instr>)
    requires a != [] && AllValid(a)
    ensures a[0].Valid() && AllValid(a[1..]) && EncAll(a) == Enc(a[0]) + EncAll(a[1..])
  {
    hide Enc;
  }

  lemma SliceSplit(code: seq<byte>, p: int, m: nat, n: nat, x: seq<byte>, y: seq<byte>)
    requires 0 <= p && p + m + n <= |code| && |x| == m && |y| == n
    requires code[p..p + (m + n)] == x + y
    ensures code[p..p + m] == x && code[p + m..p + m + n] == y
  {
    var s := code[p..p + (m + n)];
    assert x == s[..m] && y == s[m..];
  }

  // A block whose encoding is found at p is fetched from p.
  lemma {:induction false} EncAllAt(code: seq<byte>, p: int, b: seq<Instr>)
    requires AllValid(b) && 0 <= p && p + TotalSize(b) <= |code|
    requires code[p..p + TotalSize(b)] == EncAll(b)
    ensures AtAll(Fetcher(code), p, b)
    decreases |b|
  {
    hide Decode;
    hide At;
    hide Enc;
    if b != [] {
      var n, rest := b[0].Size(), b[1..];
      SliceSplit(code, p, n, TotalSize(rest), Enc(b[0]), EncAll(rest));
      DecodeEnc(code, p, b[0]);
      EncAllAt(code, p + n, rest);
    }
  }
}
