// The emitting half of the parser of quickjs/libregexp.c: bytes are appended, inserted, copied,
// rotated and patched in one buffer. Everything is proved against RegexpCompile.

module RegexpEmit {
  import opened Basics
  import opened CharRanges
  import opened RegexpCode
  import opened RegexpCompile
  import opened RegexpClosed
  import opened RegexpCorrect
  import opened RegexpScan
  import opened RegexpTheorem

  // ----- Encodings of composite blocks -----

  lemma EncOne(i: Instr)
    requires i.Valid()
    ensures AllValid([i]) && EncAll([i]) == Enc(i)
  {
    assert EncAll([i][1..]) == [];
    assert EncAll([i]) == Enc(i) + [];
  }

  lemma EncSnoc(b: seq<Instr>, i: Instr)
    requires AllValid(b) && i.Valid()
    ensures AllValid(b + [i]) && EncAll(b + [i]) == EncAll(b) + Enc(i)
  {
    EncOne(i);
    EncAllConcat(b, [i]);
  }

  lemma EncCons(i: Instr, b: seq<Instr>)
    requires AllValid(b) && i.Valid()
    ensures AllValid([i] + b) && EncAll([i] + b) == Enc(i) + EncAll(b)
  {
    EncOne(i);
    EncAllConcat([i], b);
  }

  lemma EncBetween(i: Instr, b: seq<Instr>, j: Instr)
    requires AllValid(b) && i.Valid() && j.Valid()
    ensures AllValid([i] + b + [j]) && EncAll([i] + b + [j]) == Enc(i) + EncAll(b) + Enc(j)
  {
    EncCons(i, b);
    EncSnoc([i] + b, j);
  }

  // Bytes of an instruction with a single 32-bit operand.
  lemma EncWord(i: Instr, op: byte, v: int)
    requires i.Valid() && op == Opcode(i) && 0 <= v < TWO32 && Operands(i) == U32(v)
    ensures Enc(i) == Word(op, v)
  {
  }

  // An opcode with a 32-bit operand.
  function Word(op: byte, v: int): (r: seq<byte>)
    requires 0 <= v < TWO32
    ensures |r| == 5
  {
    [op] + U32(v)
  }

  lemma Wrap(x: int)
    requires -TWO31 <= x < TWO31
    ensures x % TWO32 == ToU32(x)
  {
  }

  // The code of a loop, part by part.
  lemma StarEnc(atom: seq<Instr>, greedy: bool, check: bool)
    requires AllValid(atom) && 2 * TotalSize(atom) + 64 < TWO31
    ensures var len, z := TotalSize(atom), BoolBit(check);
      && AllValid(StarCode(atom, greedy, check))
      && EncAll(StarCode(atom, greedy, check))
         == Word(8 + BoolBit(greedy), len + 5 + z) + (if check then [25] else []) + EncAll(atom)
            + Word(if check then 26 else 7, ToU32(-(len + 10 + z)))
  {
    hide EncAll;
    hide TotalSize;
    hide U32;
    hide AllValid;
    hide StarCode;
    var len: int, z := TotalSize(atom), BoolBit(check);
    var head, last := ISplit(greedy, len + 5 + z), if check then IBneCharPos(-(len + 10 + z))
                                                   else IGoto(-(len + 10 + z));
    var inner := if check then [IPushCharPos] + atom else atom;
    StarParts(atom, greedy, check, len, z);
    EncWord(head, 8 + BoolBit(greedy), len + 5 + z);
    EncWord(last, if check then 26 else 7, ToU32(-(len + 10 + z)));
    hide Enc;
    hide Word;
    PushEnc(atom);
    EncBetween(head, inner, last);
  }

  lemma StarParts(atom: seq<Instr>, greedy: bool, check: bool, len: int, z: int)
    requires len == TotalSize(atom) && z == BoolBit(check)
    ensures StarCode(atom, greedy, check)
         == [ISplit(greedy, len + 5 + z)] + (if check then [IPushCharPos] + atom else atom)
            + [if check then IBneCharPos(-(len + 10 + z)) else IGoto(-(len + 10 + z))]
  {
    hide TotalSize;
  }

  lemma PushEnc(atom: seq<Instr>)
    requires AllValid(atom)
    ensures AllValid([IPushCharPos] + atom) && EncAll([IPushCharPos] + atom) == [25] + EncAll(atom)
  {
    hide EncAll;
    EncCons(IPushCharPos, atom);
    assert Enc(IPushCharPos) == [25];
  }

  lemma UpToEnc(atom: seq<Instr>, n: int, greedy: bool)
    requires AllValid(atom) && 2 * TotalSize(atom) + 64 < TWO31 && 0 <= n <= INT32_MAX
    ensures var len := TotalSize(atom);
      && AllValid(UpToCode(atom, n, greedy))
      && EncAll(UpToCode(atom, n, greedy))
         == Word(15, n) + Word(8 + BoolBit(greedy), len + 5) + EncAll(atom) + Word(14, ToU32(-(len + 10))) + [16]
  {
    hide EncAll;
    hide TotalSize;
    hide U32;
    var len: int := TotalSize(atom);
    var push, split, loop := IPushI32(n), ISplit(greedy, len + 5), ILoop(-(len + 10));
    EncBetween(split, atom, loop);
    EncBetween(push, [split] + atom + [loop], IDrop);
    assert UpToCode(atom, n, greedy) == [push] + ([split] + atom + [loop]) + [IDrop];
    assert Enc(IDrop) == [16];
  }

  lemma ExactEnc(atom: seq<Instr>, n: int)
    requires AllValid(atom) && 2 * TotalSize(atom) + 64 < TWO31 && 0 <= n <= INT32_MAX
    ensures var len := TotalSize(atom);
      && AllValid(ExactCode(atom, n))
      && EncAll(ExactCode(atom, n)) == Word(15, n) + EncAll(atom) + Word(14, ToU32(-(len + 5))) + [16]
  {
    hide EncAll;
    hide TotalSize;
    hide U32;
    var push, loop := IPushI32(n), ILoop(-(TotalSize(atom) + 5));
    EncSnoc(atom, loop);
    EncBetween(push, atom + [loop], IDrop);
    assert ExactCode(atom, n) == [push] + (atom + [loop]) + [IDrop];
    assert Enc(IDrop) == [16];
  }

  lemma PlusEnc(atom: seq<Instr>, greedy: bool)
    requires AllValid(atom) && 2 * TotalSize(atom) + 64 < TWO31
    ensures var b := atom + [ISplit(!greedy, -(TotalSize(atom) + 5))];
      AllValid(b) && EncAll(b) == EncAll(atom) + Word(9 - BoolBit(greedy), ToU32(-(TotalSize(atom) + 5)))
  {
    hide EncAll;
    hide U32;
    EncSnoc(atom, ISplit(!greedy, -(TotalSize(atom) + 5)));
  }

  lemma EncNil()
    ensures AllValid([]) && EncAll([]) == []
  {
  }

  lemma {:induction false} SimpleBound(b: seq<Instr>)
    ensures SimpleCount(b) <= TotalSize(b)
  {
    if b != [] {
      SimpleBound(b[1..]);
    }
  }

  // QuantCode, case by case.
  function FromZeroCode(atom: seq<Instr>, lo: int, hi: int, max: int, greedy: bool, check: bool): seq<Instr> {
    (if lo != hi then [ISaveReset(lo, hi - 1)] else [])
      + (if max == 0 then []
         else if max == 1 then [ISplit(greedy, TotalSize(atom))] + atom
         else if max == INT32_MAX then StarCode(atom, greedy, check)
         else UpToCode(atom, max, greedy))
  }

  function FromMinCode(atom: seq<Instr>, min: int, max: int, greedy: bool, check: bool): seq<Instr> {
    (if min == 1 then atom else ExactCode(atom, min))
      + (if max == INT32_MAX then StarCode(atom, greedy, check)
         else if max > min then UpToCode(atom, max - min, greedy)
         else [])
  }

  // ----- Trees the parser can build -----

  // Everything WellFormed asks for except the number of ranges, which re_emit_range checks.
  ghost predicate Parsed(r: Re) {
    match r
    case Chr(c) => 0 <= c < TWO32
    case Class(points) => StrictlyAscending(points) && |points| % 2 == 0
    case BackRef(n) => 0 <= n < CAPTURE_COUNT_MAX
    case Group(b) => Parsed(b)
    case Capture(b) => Parsed(b)
    case Look(_, _, b) => Parsed(b)
    case Quant(b, min, max, _) => Parsed(b) && 0 <= min <= max <= INT32_MAX
    case Cat(ts) => ParsedAll(ts)
    case Disj(ts) => ts != [] && ParsedAll(ts)
    case _ => true
  }

  ghost predicate ParsedAll(ts: seq<Re>) {
    ts == [] || (ParsedAll(ts[..|ts| - 1]) && Parsed(ts[|ts| - 1]))
  }

  ghost predicate Small(b: seq<Instr>) {
    2 * TotalSize(b) + 64 < TWO31
  }

  // Displacements inside the code fit the int in which the parser computes them.
  ghost predicate Fits(r: Re, dotall: bool, back: bool, cc: nat)
    decreases r, 1
  {
    match r
    case Group(b) => Fits(b, dotall, back, cc)
    case Capture(b) => Fits(b, dotall, back, cc + 1)
    case Look(_, behind, b) => Fits(b, dotall, behind, cc) && Small(Compile(b, dotall, behind, cc))
    case Quant(b, _, _, _) => Fits(b, dotall, back, cc) && Small(Compile(b, dotall, back, cc))
    case Cat(ts) => FitsAll(ts, dotall, back, cc)
    case Disj(ts) => FitsAll(ts, dotall, back, cc) && FitsAlts(ts, dotall, back, cc)
    case _ => true
  }

  ghost predicate FitsAll(ts: seq<Re>, dotall: bool, back: bool, cc: nat)
    decreases ts, 0
  {
    ts == [] || (FitsAll(ts[..|ts| - 1], dotall, back, cc)
                 && Fits(ts[|ts| - 1], dotall, back, cc + CapsAll(ts[..|ts| - 1])))
  }

  ghost predicate FitsAlts(ts: seq<Re>, dotall: bool, back: bool, cc: nat)
    decreases ts, 0
  {
    ts == [] || (FitsAlts(ts[..|ts| - 1], dotall, back, cc)
                 && Small(CompileDisj(ts[..|ts| - 1], dotall, back, cc))
                 && Small(Compile(ts[|ts| - 1], dotall, back, cc + CapsAll(ts[..|ts| - 1]))))
  }

  // A prefix of the terms inherits what is known of all of them.
  lemma {:induction false} TermsPrefix(ts: seq<Re>, i: nat, dotall: bool, back: bool, cc: nat)
    requires i <= |ts|
    ensures ParsedAll(ts) ==> ParsedAll(ts[..i])
    ensures WellFormedAll(ts) ==> WellFormedAll(ts[..i])
    ensures FitsAll(ts, dotall, back, cc) ==> FitsAll(ts[..i], dotall, back, cc)
    ensures FitsAlts(ts, dotall, back, cc) ==> FitsAlts(ts[..i], dotall, back, cc)
    ensures CapsAll(ts[..i]) <= CapsAll(ts)
    decreases |ts|
  {
    hide Parsed;
    hide WellFormed;
    hide Fits;
    hide Small;
    hide Caps;
    if i == |ts| {
      assert ts[..i] == ts;
    } else {
      TermsPrefix(ts[..|ts| - 1], i, dotall, back, cc);
      assert ts[..|ts| - 1][..i] == ts[..i];
    }
  }

  // The next term, and the prefix that ends with it.
  lemma TermNext(ts: seq<Re>, i: nat, dotall: bool, back: bool, cc: nat)
    requires i < |ts|
    ensures var sofar, t, upto := ts[..i], ts[i], ts[..i + 1];
      && upto[..i] == sofar && upto[|upto| - 1] == t
      && CapsAll(upto) == CapsAll(sofar) + Caps(t) <= CapsAll(ts)
      && (ParsedAll(ts) ==> Parsed(t))
      && (WellFormedAll(ts) ==> WellFormed(t))
      && (WellFormedAll(upto) <==> WellFormedAll(sofar) && WellFormed(t))
      && (FitsAll(ts, dotall, back, cc) ==> Fits(t, dotall, back, cc + CapsAll(sofar)))
      && (FitsAlts(ts, dotall, back, cc) ==>
            Small(CompileDisj(sofar, dotall, back, cc)) && Small(Compile(t, dotall, back, cc + CapsAll(sofar))))
  {
    hide Parsed;
    hide WellFormed;
    hide Fits;
    hide Small;
    hide Caps;
    hide Compile;
    hide CompileCat;
    hide CompileDisj;
    TermsPrefix(ts, i + 1, dotall, back, cc);
    assert ts[..i + 1][..i] == ts[..i];
  }

  lemma GroupsConcat(a: seq<Instr>, b: seq<Instr>)
    requires GroupsFit(a) && GroupsFit(b)
    ensures GroupsFit(a + b)
  {
  }

  lemma GroupsAround(i: Instr, b: seq<Instr>, j: Instr)
    requires GroupInRange(i) && GroupsFit(b) && GroupInRange(j)
    ensures GroupsFit([i] + b + [j])
  {
    hide GroupInRange;
  }

  lemma GroupsNil()
    ensures GroupsFit([])
  {
  }

  lemma GroupsOne(i: Instr)
    requires GroupInRange(i)
    ensures GroupsFit([i])
  {
  }

  lemma GroupsStar(atom: seq<Instr>, greedy: bool, check: bool)
    requires GroupsFit(atom)
    ensures GroupsFit(StarCode(atom, greedy, check))
  {
    hide GroupsFit;
    hide TotalSize;
    var z := if check then 1 else 0;
    var back := -(TotalSize(atom) as int + 10 + z);
    var head, last := ISplit(greedy, TotalSize(atom) + 5 + z), if check then IBneCharPos(back) else IGoto(back);
    if check {
      GroupsOne(IPushCharPos);
      GroupsConcat([IPushCharPos], atom);
      GroupsAround(head, [IPushCharPos] + atom, last);
      assert StarCode(atom, greedy, check) == [head] + ([IPushCharPos] + atom) + [last];
    } else {
      GroupsAround(head, atom, last);
      assert StarCode(atom, greedy, check) == [head] + atom + [last];
    }
  }

  lemma GroupsUpTo(atom: seq<Instr>, n: int, greedy: bool)
    requires GroupsFit(atom)
    ensures GroupsFit(UpToCode(atom, n, greedy))
  {
    hide GroupsFit;
    hide TotalSize;
    var split, loop := ISplit(greedy, TotalSize(atom) + 5), ILoop(-(TotalSize(atom) as int + 10));
    GroupsAround(split, atom, loop);
    GroupsAround(IPushI32(n), [split] + atom + [loop], IDrop);
    assert UpToCode(atom, n, greedy) == [IPushI32(n)] + ([split] + atom + [loop]) + [IDrop];
  }

  lemma GroupsExact(atom: seq<Instr>, n: int)
    requires GroupsFit(atom)
    ensures GroupsFit(ExactCode(atom, n))
  {
    hide GroupsFit;
    hide TotalSize;
    var loop := ILoop(-(TotalSize(atom) as int + 5));
    GroupsAround(IPushI32(n), atom, loop);
    GroupsOne(IDrop);
    GroupsConcat([IPushI32(n)] + atom + [loop], [IDrop]);
    assert ExactCode(atom, n) == ([IPushI32(n)] + atom + [loop]) + [IDrop];
  }

  lemma GroupsQuant(atom: seq<Instr>, lo: int, hi: int, min: int, max: int, greedy: bool)
    requires GroupsFit(atom) && 0 <= lo <= hi <= CAPTURE_COUNT_MAX
    ensures GroupsFit(QuantCode(atom, lo, hi, min, max, greedy))
  {
    hide SimpleCount;
    hide CheckAdvance;
    hide TotalSize;
    hide GroupsFit;
    hide StarCode;
    hide UpToCode;
    hide ExactCode;
    var check := greedy && CheckAdvance(atom) == 0;
    var len: int := TotalSize(atom);
    GroupsStar(atom, greedy, check);
    GroupsUpTo(atom, max, greedy);
    GroupsUpTo(atom, max - min, greedy);
    GroupsExact(atom, min);
    GroupsNil();
    GroupsOne(ISplit(greedy, len));
    GroupsOne(ISplit(!greedy, -(len + 5)));
    GroupsOne(ISaveReset(lo, hi - 1));
    GroupsAround(IGreedy(len + 1, min, max, SimpleCount(atom)), atom, IMatch);
    GroupsConcat([ISplit(greedy, len)], atom);
    GroupsConcat(atom, [ISplit(!greedy, -(len + 5))]);
    GroupsConcat(if lo != hi then [ISaveReset(lo, hi - 1)] else [],
              if max == 0 then []
              else if max == 1 then [ISplit(greedy, len)] + atom
              else if max == INT32_MAX then StarCode(atom, greedy, check)
              else UpToCode(atom, max, greedy));
    GroupsConcat(if min == 1 then atom else ExactCode(atom, min),
              if max == INT32_MAX then StarCode(atom, greedy, check)
              else if max > min then UpToCode(atom, max - min, greedy)
              else []);
  }

  lemma {:induction false} GroupsCompile(r: Re, dotall: bool, back: bool, cc: nat)
    requires Parsed(r) && cc + Caps(r) <= CAPTURE_COUNT_MAX
    ensures GroupsFit(Compile(r, dotall, back, cc))
    decreases r, 1
  {
    hide QuantCode;
    hide TotalSize;
    hide Oriented;
    hide RangeInstr;
    match r
    case Group(b) => GroupsCompile(b, dotall, back, cc);
    case Capture(b) => GroupsCompile(b, dotall, back, cc + 1);
    case Look(_, behind, b) => GroupsCompile(b, dotall, behind, cc);
    case Quant(b, min, max, greedy) =>
      GroupsCompile(b, dotall, back, cc);
      GroupsQuant(Compile(b, dotall, back, cc), cc, cc + Caps(b), min, max, greedy);
    case Cat(ts) => GroupsCompileAll(ts, dotall, back, cc);
    case Disj(ts) => GroupsCompileAll(ts, dotall, back, cc);
    case _ => GroupsLeaf(r, dotall, back, cc);
  }

  lemma GroupsLeaf(r: Re, dotall: bool, back: bool, cc: nat)
    requires Parsed(r) && !(r.Group? || r.Capture? || r.Look? || r.Quant? || r.Cat? || r.Disj?)
    ensures GroupsFit(Compile(r, dotall, back, cc))
  {
    hide Pairs16;
    hide Pairs32;
  }

  lemma {:induction false} GroupsCompileAll(ts: seq<Re>, dotall: bool, back: bool, cc: nat)
    requires ParsedAll(ts) && cc + CapsAll(ts) <= CAPTURE_COUNT_MAX
    ensures GroupsFit(CompileCat(ts, dotall, back, cc)) && GroupsFit(CompileDisj(ts, dotall, back, cc))
    decreases ts, 0
  {
    hide TotalSize;
    hide Parsed;
    hide Caps;
    hide GroupsFit;
    hide Compile;
    hide CompileCat;
    hide CompileDisj;
    GroupsNil();
    CatStep(ts, dotall, back, cc);
    if ts == [] {
      EmptyDisj(dotall, back, cc);
    } else {
      var n := |ts| - 1;
      var x, y := CompileCat(ts[..n], dotall, back, cc), CompileDisj(ts[..n], dotall, back, cc);
      var last := Compile(ts[n], dotall, back, cc + CapsAll(ts[..n]));
      GroupsCompileAll(ts[..n], dotall, back, cc);
      GroupsCompile(ts[n], dotall, back, cc + CapsAll(ts[..n]));
      GroupsConcat(x, last);
      GroupsConcat(last, x);
      GroupsAround(ISplit(true, TotalSize(y) + 5), y, IGoto(TotalSize(last)));
      GroupsConcat([ISplit(true, TotalSize(y) + 5)] + y + [IGoto(TotalSize(last))], last);
      if n == 0 {
        assert ts == [ts[0]] && ts[..0] == [] && CapsAll([]) == 0;
        DisjOne(ts[0], dotall, back, cc);
      } else {
        DisjStep(ts, dotall, back, cc, y, last);
      }
    }
  }

  // One more term or alternative.
  lemma CatStep(ts: seq<Re>, dotall: bool, back: bool, cc: nat)
    ensures CompileCat(ts, dotall, back, cc) ==
      if ts == [] then []
      else
        var n := |ts| - 1;
        var init, last := CompileCat(ts[..n], dotall, back, cc), Compile(ts[n], dotall, back, cc + CapsAll(ts[..n]));
        if back then last + init else init + last
  {
    hide Compile;
  }

  lemma EmptyDisj(dotall: bool, back: bool, cc: nat)
    ensures CompileDisj([], dotall, back, cc) == []
  {
  }

  lemma DisjOne(r: Re, dotall: bool, back: bool, cc: nat)
    ensures CompileDisj([r], dotall, back, cc) == Compile(r, dotall, back, cc)
  {
    hide Compile;
    assert [r][..0] == [] && CapsAll([]) == 0;
  }

  function AltCode(init: seq<Instr>, last: seq<Instr>): seq<Instr> {
    [ISplit(true, TotalSize(init) + 5)] + init + [IGoto(TotalSize(last))] + last
  }

  lemma DisjStep(ts: seq<Re>, dotall: bool, back: bool, cc: nat, init: seq<Instr>, last: seq<Instr>)
    requires |ts| >= 2 && init == CompileDisj(ts[..|ts| - 1], dotall, back, cc)
    requires last == Compile(ts[|ts| - 1], dotall, back, cc + CapsAll(ts[..|ts| - 1]))
    ensures CompileDisj(ts, dotall, back, cc) == AltCode(init, last)
  {
    hide Compile;
    hide CapsAll;
  }

  // ----- Interval lists -----

  lemma RangeValid(points: seq<u32>)
    requires StrictlyAscending(points) && |points| % 2 == 0 && |points| / 2 < 65535
    ensures RangeInstr(points).Valid()
  {
    if points != [] && RangeInstr(points).IRange? {
      HighBound(points);
      forall k | 0 <= k < |points| / 2
        ensures 0 <= Pairs16(points)[k].lo < TWO16 && 0 <= Pairs16(points)[k].hi < TWO16
      {
        assert points[2 * k] < points[2 * k + 1];
      }
    } else if points != [] {
      forall k | 0 <= k < |points| / 2
        ensures 0 <= Pairs32(points)[k].lo < TWO32 && 0 <= Pairs32(points)[k].hi < TWO32
      {
        assert points[2 * k] < points[2 * k + 1];
      }
    }
  }

  lemma {:induction false} EncPairs16Snoc(ps: seq<Pair>, x: Pair)
    requires ValidPairs(ps + [x], TWO16)
    ensures ValidPairs(ps, TWO16) && 0 <= x.lo < TWO16 && 0 <= x.hi < TWO16
    ensures EncPairs16(ps + [x]) == EncPairs16(ps) + U16(x.lo) + U16(x.hi)
  {
    var all := ps + [x];
    assert all[|ps|] == x;
    forall k | 0 <= k < |ps| ensures 0 <= ps[k].lo < TWO16 && 0 <= ps[k].hi < TWO16 {
      assert all[k] == ps[k];
    }
    if ps == [] {
      assert all == [x] && all[1..] == [];
    } else {
      assert all[1..] == ps[1..] + [x];
      EncPairs16Snoc(ps[1..], x);
    }
  }

  lemma {:induction false} EncPairs32Snoc(ps: seq<Pair>, x: Pair)
    requires ValidPairs(ps + [x], TWO32)
    ensures ValidPairs(ps, TWO32) && 0 <= x.lo < TWO32 && 0 <= x.hi < TWO32
    ensures EncPairs32(ps + [x]) == EncPairs32(ps) + U32(x.lo) + U32(x.hi)
  {
    hide U32;
    var all := ps + [x];
    assert all[|ps|] == x;
    forall k | 0 <= k < |ps| ensures 0 <= ps[k].lo < TWO32 && 0 <= ps[k].hi < TWO32 {
      assert all[k] == ps[k];
    }
    if ps == [] {
      assert all == [x] && all[1..] == [];
    } else {
      assert all[1..] == ps[1..] + [x];
      EncPairs32Snoc(ps[1..], x);
    }
  }

  lemma OrientedEnc(i: Instr, back: bool)
    requires i.Valid()
    ensures AllValid(Oriented(i, back))
    ensures EncAll(Oriented(i, back)) == if back then [27] + Enc(i) + [27] else Enc(i)
  {
    EncOne(i);
    if back {
      EncBetween(IPrev, [i], IPrev);
      assert Oriented(i, back) == [IPrev] + [i] + [IPrev];
      assert Enc(IPrev) == [27];
    }
  }

  // What is known of a node, in terms of its child.
  lemma NodeFields(r: Re, dotall: bool, back: bool, cc: nat)
    requires r.Capture? || r.Look?
    ensures WellFormed(r) <==> WellFormed(r.body)
    ensures Parsed(r) ==> Parsed(r.body)
    ensures Caps(r) == Caps(r.body) + if r.Capture? then 1 else 0
    ensures r.Capture? && Fits(r, dotall, back, cc) ==> Fits(r.body, dotall, back, cc + 1)
    ensures r.Look? && Fits(r, dotall, back, cc) ==>
            Fits(r.body, dotall, r.behind, cc) && Small(Compile(r.body, dotall, r.behind, cc))
  {
    hide Small;
    hide Compile;
  }

  lemma CaptureEnc(r: Re, dotall: bool, back: bool, cc: nat)
    requires r.Capture? && cc < CAPTURE_COUNT_MAX
    ensures var c := Compile(r.body, dotall, back, cc + 1);
      AllValid(c) ==>
        && AllValid(Compile(r, dotall, back, cc))
        && EncAll(Compile(r, dotall, back, cc))
              == ([11 + BoolBit(back)] + [cc]) + EncAll(c) + ([11 + BoolBit(!back)] + [cc])
  {
    hide EncAll;
    hide CompileCat;
    hide CompileDisj;
    hide QuantCode;
    var c := Compile(r.body, dotall, back, cc + 1);
    if AllValid(c) {
      EncBetween(ISave(back, cc), c, ISave(!back, cc));
      assert Compile(r, dotall, back, cc) == [ISave(back, cc)] + c + [ISave(!back, cc)];
    }
  }

  lemma LookEnc(r: Re, dotall: bool, back: bool, cc: nat)
    requires r.Look? && Small(Compile(r.body, dotall, r.behind, cc))
    ensures var c := Compile(r.body, dotall, r.behind, cc);
      AllValid(c) ==>
        && AllValid(Compile(r, dotall, back, cc))
        && EncAll(Compile(r, dotall, back, cc)) == Word(23 + BoolBit(r.neg), TotalSize(c) + 1) + EncAll(c) + [10]
  {
    hide EncAll;
    hide U32;
    hide TotalSize;
    hide CompileCat;
    hide CompileDisj;
    hide QuantCode;
    var c := Compile(r.body, dotall, r.behind, cc);
    var i := ILook(r.neg, TotalSize(c) + 1);
    if AllValid(c) {
      EncBetween(i, c, IMatch);
      EncWord(i, 23 + BoolBit(r.neg), TotalSize(c) + 1);
      assert Enc(IMatch) == [10];
      assert Compile(r, dotall, back, cc) == [i] + c + [IMatch];
    }
  }

  lemma AltEnc(init: seq<Instr>, last: seq<Instr>)
    requires AllValid(init) && AllValid(last) && Small(init) && Small(last)
    ensures AllValid(AltCode(init, last))
    ensures EncAll(AltCode(init, last))
         == Word(9, TotalSize(init) + 5) + EncAll(init) + Word(7, TotalSize(last)) + EncAll(last)
  {
    hide EncAll;
    hide U32;
    var split, goto := ISplit(true, TotalSize(init) + 5), IGoto(TotalSize(last));
    EncBetween(split, init, goto);
    EncAllConcat([split] + init + [goto], last);
    assert Enc(split) == Word(9, TotalSize(init) + 5) && Enc(goto) == Word(7, TotalSize(last));
  }

  class REParseState {
    var byteCode: seq<byte>
    var captureCount: nat
    const dotall: bool

    constructor (dotall: bool)
      ensures byteCode == [] && captureCount == 1 && this.dotall == dotall
    {
      byteCode, captureCount, this.dotall := [], 1, dotall;
    }

    // ----- Buffer operations -----

    method EmitOp(op: byte)
      modifies this`byteCode
      ensures byteCode == old(byteCode) + [op]
    {
      byteCode := byteCode + [op];
    }

    method EmitOpU8(op: byte, val: byte)
      modifies this`byteCode
      ensures byteCode == old(byteCode) + ([op] + [val])
    {
      byteCode := byteCode + [op];
      byteCode := byteCode + [val];
    }

    method EmitOpU16(op: byte, val: int)
      requires 0 <= val < TWO16
      modifies this`byteCode
      ensures byteCode == old(byteCode) + ([op] + U16(val))
    {
      byteCode := byteCode + [op];
      byteCode := byteCode + U16(val);
    }

    method EmitOpU32(op: byte, val: int) returns (pos: int)
      requires 0 <= val < TWO32
      modifies this`byteCode
      ensures byteCode == old(byteCode) + Word(op, val) && pos == |old(byteCode)| + 1
    {
      byteCode := byteCode + [op];
      pos := |byteCode|;
      byteCode := byteCode + U32(val);
    }

    // Jump back (or on) to the absolute position val.
    method EmitGoto(op: byte, val: int)
      requires -TWO31 <= val - (|byteCode| + 5) < TWO31
      modifies this`byteCode
      ensures byteCode == old(byteCode) + Word(op, ToU32(val - (|old(byteCode)| + 5)))
    {
      hide U32;
      hide ToU32;
      Wrap(val - (|byteCode| + 5));
      byteCode := byteCode + [op];
      var pos := |byteCode|;
      byteCode := byteCode + U32((val - (pos + 4)) % TWO32);
    }

    // dbuf_insert: the inserted bytes are whatever the buffer happens to hold.
    method Insert(pos: int, len: nat)
      requires 0 <= pos <= |byteCode|
      modifies this`byteCode
      ensures |byteCode| == |old(byteCode)| + len
      ensures byteCode[..pos] == old(byteCode[..pos]) && byteCode[pos + len..] == old(byteCode[pos..])
    {
      var junk := seq(len, _ => 0);
      byteCode := byteCode[..pos] + junk + byteCode[pos..];
    }

    method PutSelf(offset: int, len: nat)
      requires 0 <= offset && offset + len <= |byteCode|
      modifies this`byteCode
      ensures byteCode == old(byteCode) + old(byteCode[offset..offset + len])
    {
      byteCode := byteCode + byteCode[offset..offset + len];
    }

    method PutU32(pos: int, val: int)
      requires 0 <= pos && pos + 4 <= |byteCode| && 0 <= val < TWO32
      modifies this`byteCode
      ensures byteCode == old(byteCode[..pos]) + U32(val) + old(byteCode[pos + 4..])
    {
      byteCode := byteCode[..pos] + U32(val) + byteCode[pos + 4..];
    }

    // Insert an opcode and its 32-bit operand in front of what was emitted from start on.
    method InsertOpU32(start: int, op: byte, val: int, ghost pre: seq<byte>, ghost post: seq<byte>)
      requires byteCode == pre + post && start == |pre| && 0 <= val < TWO32
      modifies this`byteCode
      ensures byteCode == pre + Word(op, val) + post
    {
      Insert(start, 5);
      assert byteCode[..start] == pre && byteCode[start + 5..] == post;
      byteCode := byteCode[start := op];
      assert byteCode[..start + 1] == pre + [op] && byteCode[start + 5..] == post;
      PutU32(start + 1, val);
    }

    // Let the jump whose operand is at pos lead to the end of the buffer.
    method PatchJump(pos: int, op: byte, ghost front: seq<byte>, ghost tail: seq<byte>)
      requires pos == |front| + 1 && byteCode == front + Word(op, 0) + tail && |tail| < TWO32
      modifies this`byteCode
      ensures byteCode == front + Word(op, |tail|) + tail
    {
      hide U32;
      assert byteCode[..pos] == front + [op] && byteCode[pos + 4..] == tail;
      PutU32(pos, |byteCode| - (pos + 4));
    }

    // ----- Quantifiers -----

    // The atom just emitted, after the bytes pre.
    ghost predicate Atom(pre: seq<byte>, start: int, atom: seq<Instr>)
      reads this`byteCode
    {
      start == |pre| && AllValid(atom) && byteCode == pre + EncAll(atom) && 2 * TotalSize(atom) + 64 < TWO31
    }

    // Fill in the next operand of a freshly inserted instruction.
    method Patch(pos: int, val: int, room: nat, ghost pre: seq<byte>, ghost post: seq<byte>)
      requires pos == |pre| && |byteCode| == pos + 4 + room + |post| && 0 <= val < TWO32
      requires byteCode[..pos] == pre && byteCode[pos + 4 + room..] == post
      modifies this`byteCode
      ensures |byteCode| == |old(byteCode)|
      ensures byteCode[..pos + 4] == pre + U32(val) && byteCode[pos + 4 + room..] == post
    {
      hide U32;
      PutU32(pos, val);
    }

    method InsertGreedy(start: int, min: int, max: int, count: int, ghost pre: seq<byte>, ghost post: seq<byte>)
      requires byteCode == pre + post && start == |pre| && |post| < TWO31
      requires 0 <= min <= INT32_MAX && 0 <= max <= INT32_MAX && 0 <= count < TWO32
      modifies this`byteCode
      ensures byteCode == pre + Enc(IGreedy(|post|, min, max, count)) + post
    {
      hide U32;
      Insert(start, 17);
      assert byteCode[..start] == pre && byteCode[start + 17..] == post;
      byteCode := byteCode[start := 28];
      ghost var p1 := pre + [28];
      assert byteCode[..start + 1] == p1 && byteCode[start + 17..] == post;
      Patch(start + 1, |byteCode| - start - 17, 12, p1, post);
      Patch(start + 5, min, 8, p1 + U32(|post|), post);
      Patch(start + 9, max, 4, p1 + U32(|post|) + U32(min), post);
      Patch(start + 13, count, 0, p1 + U32(|post|) + U32(min) + U32(max), post);
      assert byteCode == byteCode[..start + 17] + byteCode[start + 17..];
      assert p1 + U32(|post|) + U32(min) + U32(max) + U32(count)
          == pre + ([28] + (U32(|post|) + U32(min) + U32(max) + U32(count)));
    }

    method QuantSimple(start: int, min: int, max: int, count: int, ghost pre: seq<byte>, ghost atom: seq<Instr>)
      requires Atom(pre, start, atom) && 0 <= min <= INT32_MAX && 0 <= max <= INT32_MAX && 0 <= count < TWO32
      modifies this`byteCode
      ensures var b := [IGreedy(TotalSize(atom) + 1, min, max, count)] + atom + [IMatch];
        AllValid(b) && byteCode == pre + EncAll(b)
    {
      hide EncAll;
      hide U32;
      ghost var head := IGreedy(TotalSize(atom) + 1, min, max, count);
      EncBetween(head, atom, IMatch);
      EmitOp(10);
      ghost var post := EncAll(atom) + Enc(IMatch);
      assert byteCode == pre + post;
      InsertGreedy(start, min, max, count, pre, post);
    }

    method InsertReset(start: int, lo: byte, hi: byte, ghost pre: seq<byte>, ghost post: seq<byte>)
      requires byteCode == pre + post && start == |pre|
      modifies this`byteCode
      ensures byteCode == pre + Enc(ISaveReset(lo, hi)) + post
    {
      Insert(start, 3);
      assert byteCode[..start] == pre && byteCode[start + 3..] == post;
      byteCode := byteCode[start := 13];
      byteCode := byteCode[start + 1 := lo];
      byteCode := byteCode[start + 2 := hi];
      assert Enc(ISaveReset(lo, hi)) == [13, lo, hi];
    }

    method QuantOption(start: int, greedy: bool, ghost pre: seq<byte>, ghost atom: seq<Instr>)
      requires Atom(pre, start, atom)
      modifies this`byteCode
      ensures var b := [ISplit(greedy, TotalSize(atom))] + atom; AllValid(b) && byteCode == pre + EncAll(b)
    {
      hide EncAll;
      hide Word;
      var len := |byteCode| - start;
      ghost var split := ISplit(greedy, len);
      InsertOpU32(start, 8 + BoolBit(greedy), len, pre, EncAll(atom));
      EncWord(split, 8 + BoolBit(greedy), len);
      EncCons(split, atom);
    }

    method InsertSplitPush(start: int, op: byte, val: int, ghost pre: seq<byte>, ghost post: seq<byte>)
      requires byteCode == pre + post && start == |pre| && 0 <= val < TWO32
      modifies this`byteCode
      ensures byteCode == pre + (Word(op, val) + [25]) + post
    {
      hide U32;
      Insert(start, 6);
      assert byteCode[..start] == pre && byteCode[start + 6..] == post;
      byteCode := byteCode[start := op];
      ghost var p1 := pre + [op];
      assert byteCode[..start + 1] == p1 && byteCode[start + 6..] == post;
      Patch(start + 1, val, 1, p1, post);
      byteCode := byteCode[start + 5 := 25];
      assert byteCode == byteCode[..start + 5] + [25] + byteCode[start + 6..];
      assert byteCode[..start + 5] == p1 + U32(val);
    }

    method QuantStar(start: int, greedy: bool, check: bool, ghost pre: seq<byte>, ghost atom: seq<Instr>)
      requires Atom(pre, start, atom)
      modifies this`byteCode
      ensures var b := StarCode(atom, greedy, check); AllValid(b) && byteCode == pre + EncAll(b)
    {
      hide EncAll;
      hide Word;
      hide StarCode;
      StarEnc(atom, greedy, check);
      var len := |byteCode| - start;
      if check {
        InsertSplitPush(start, 8 + BoolBit(greedy), len + 6, pre, EncAll(atom));
        EmitGoto(26, start);
      } else {
        InsertOpU32(start, 8 + BoolBit(greedy), len + 5, pre, EncAll(atom));
        EmitGoto(7, start);
      }
    }

    method InsertPushSplit(start: int, n: int, op: byte, val: int, ghost pre: seq<byte>, ghost post: seq<byte>)
      requires byteCode == pre + post && start == |pre| && 0 <= n < TWO32 && 0 <= val < TWO32
      modifies this`byteCode
      ensures byteCode == pre + (Word(15, n) + Word(op, val)) + post
    {
      hide U32;
      Insert(start, 10);
      assert byteCode[..start] == pre && byteCode[start + 10..] == post;
      byteCode := byteCode[start := 15];
      ghost var p1 := pre + [15];
      assert byteCode[..start + 1] == p1 && byteCode[start + 10..] == post;
      Patch(start + 1, n, 5, p1, post);
      byteCode := byteCode[start + 5 := op];
      ghost var p2 := p1 + U32(n) + [op];
      assert byteCode[..start + 6] == p2 && byteCode[start + 10..] == post;
      Patch(start + 6, val, 0, p2, post);
      assert byteCode == byteCode[..start + 10] + byteCode[start + 10..];
      assert p2 + U32(val) == pre + (Word(15, n) + Word(op, val));
    }

    method QuantUpTo(start: int, n: int, greedy: bool, ghost pre: seq<byte>, ghost atom: seq<Instr>)
      requires Atom(pre, start, atom) && 0 <= n <= INT32_MAX
      modifies this`byteCode
      ensures var b := UpToCode(atom, n, greedy); AllValid(b) && byteCode == pre + EncAll(b)
    {
      hide EncAll;
      hide Word;
      hide UpToCode;
      UpToEnc(atom, n, greedy);
      var len := |byteCode| - start;
      InsertPushSplit(start, n, 8 + BoolBit(greedy), len + 5, pre, EncAll(atom));
      EmitGoto(14, start + 5);
      EmitOp(16);
    }

    method QuantExact(start: int, n: int, ghost pre: seq<byte>, ghost atom: seq<Instr>)
      requires Atom(pre, start, atom) && 0 <= n <= INT32_MAX
      modifies this`byteCode
      ensures var b := ExactCode(atom, n); AllValid(b) && byteCode == pre + EncAll(b)
      ensures start + 5 + TotalSize(atom) <= |byteCode| &&
              byteCode[start + 5..start + 5 + TotalSize(atom)] == EncAll(atom)
    {
      hide EncAll;
      hide Word;
      hide ExactCode;
      ExactEnc(atom, n);
      InsertOpU32(start, 15, n, pre, EncAll(atom));
      EmitGoto(14, start + 5);
      EmitOp(16);
    }

    method QuantPlus(start: int, greedy: bool, ghost pre: seq<byte>, ghost atom: seq<Instr>)
      requires Atom(pre, start, atom)
      modifies this`byteCode
      ensures var b := atom + [ISplit(!greedy, -(TotalSize(atom) + 5))]; AllValid(b) && byteCode == pre + EncAll(b)
    {
      hide EncAll;
      hide Word;
      PlusEnc(atom, greedy);
      EmitGoto(9 - BoolBit(greedy), start);
    }

    // A loop over a second copy of the atom, which is found at offset from.
    method StarCopy(from: int, len: nat, greedy: bool, check: bool, ghost atom: seq<Instr>)
      requires AllValid(atom) && 2 * TotalSize(atom) + 64 < TWO31 && len == TotalSize(atom)
      requires 0 <= from && from + len <= |byteCode| && byteCode[from..from + len] == EncAll(atom)
      modifies this`byteCode
      ensures var b := StarCode(atom, greedy, check); AllValid(b) && byteCode == old(byteCode) + EncAll(b)
    {
      hide EncAll;
      hide Word;
      hide StarCode;
      StarEnc(atom, greedy, check);
      ghost var was := byteCode;
      var pos := |byteCode|;
      var _ := EmitOpU32(8 + BoolBit(greedy), len + 5 + BoolBit(check));
      if check {
        EmitOp(25);
      }
      assert byteCode[from..from + len] == was[from..from + len];
      PutSelf(from, len);
      if check {
        EmitGoto(26, pos);
      } else {
        EmitGoto(7, pos);
      }
    }

    method UpToCopy(from: int, len: nat, n: int, greedy: bool, ghost atom: seq<Instr>)
      requires AllValid(atom) && 2 * TotalSize(atom) + 64 < TWO31 && len == TotalSize(atom) && 0 <= n <= INT32_MAX
      requires 0 <= from && from + len <= |byteCode| && byteCode[from..from + len] == EncAll(atom)
      modifies this`byteCode
      ensures var b := UpToCode(atom, n, greedy); AllValid(b) && byteCode == old(byteCode) + EncAll(b)
    {
      hide EncAll;
      hide Word;
      hide UpToCode;
      UpToEnc(atom, n, greedy);
      ghost var was := byteCode;
      var _ := EmitOpU32(15, n);
      var pos := |byteCode|;
      var _ := EmitOpU32(8 + BoolBit(greedy), len + 5);
      assert byteCode[from..from + len] == was[from..from + len];
      PutSelf(from, len);
      EmitGoto(14, pos);
      EmitOp(16);
    }

    // The quantifier part of re_parse_term, applied to the atom that starts at lastAtomStart.
    method Quantifier(lastAtomStart: int, lastCaptureCount: nat, min: int, max: int, greedy: bool,
                      ghost pre: seq<byte>, ghost atom: seq<Instr>)
      requires Atom(pre, lastAtomStart, atom) && GroupsFit(atom)
      requires 0 <= min <= max <= INT32_MAX && lastCaptureCount <= captureCount <= CAPTURE_COUNT_MAX
      modifies this`byteCode
      ensures var b := QuantCode(atom, lastCaptureCount, captureCount, min, max, greedy);
        AllValid(b) && byteCode == pre + EncAll(b)
    {
      hide EncAll;
      hide SimpleCount;
      hide CheckAdvance;
      hide StarCode;
      hide UpToCode;
      hide ExactCode;
      hide AllValid;
      assert byteCode[lastAtomStart..] == EncAll(atom) && AllValid(atom);
      hide GroupsFit;
      var addZeroAdvanceCheck := false;
      if greedy {
        if max > 0 {
          var len := IsSimpleQuantifier(byteCode[lastAtomStart..], atom);
          if len > 0 {
            SimpleBound(atom);
            QuantSimple(lastAtomStart, min, max, len, pre, atom);
            return;
          }
        }
        var advance := CheckAdvanceScan(byteCode[lastAtomStart..], atom);
        addZeroAdvanceCheck := advance == 0;
      }
      if min == 0 {
        QuantFromZero(lastAtomStart, lastCaptureCount, max, greedy, addZeroAdvanceCheck, pre, atom);
      } else if min == 1 && max == INT32_MAX && !addZeroAdvanceCheck {
        QuantPlus(lastAtomStart, greedy, pre, atom);
      } else {
        QuantFromMin(lastAtomStart, min, max, greedy, addZeroAdvanceCheck, pre, atom);
      }
    }

    method QuantFromZero(start0: int, lastCaptureCount: nat, max: int, greedy: bool, check: bool,
                         ghost pre0: seq<byte>, ghost atom: seq<Instr>)
      requires Atom(pre0, start0, atom) && 0 <= max <= INT32_MAX &&
               lastCaptureCount <= captureCount <= CAPTURE_COUNT_MAX
      modifies this`byteCode
      ensures var b := FromZeroCode(atom, lastCaptureCount, captureCount, max, greedy, check);
        AllValid(b) && byteCode == pre0 + EncAll(b)
    {
      hide EncAll;
      hide StarCode;
      hide UpToCode;
      var start := start0;
      ghost var reset: seq<Instr> := [];
      if lastCaptureCount != captureCount {
        InsertReset(start, lastCaptureCount, captureCount - 1, pre0, EncAll(atom));
        start := start + 3;
        reset := [ISaveReset(lastCaptureCount, captureCount - 1)];
        EncOne(reset[0]);
      } else {
        EncNil();
      }
      ghost var pre := pre0 + EncAll(reset);
      ghost var body: seq<Instr> := [];
      assert Atom(pre, start, atom);
      if max == 0 {
        byteCode := byteCode[..start];
        EncNil();
      } else if max == 1 {
        QuantOption(start, greedy, pre, atom);
        body := [ISplit(greedy, TotalSize(atom))] + atom;
      } else if max == INT32_MAX {
        QuantStar(start, greedy, check, pre, atom);
        body := StarCode(atom, greedy, check);
      } else {
        QuantUpTo(start, max, greedy, pre, atom);
        body := UpToCode(atom, max, greedy);
      }
      EncAllConcat(reset, body);
      assert byteCode == pre0 + (EncAll(reset) + EncAll(body));
    }

    method QuantFromMin(start: int, min: int, max: int, greedy: bool, check: bool, ghost pre: seq<byte>,
                        ghost atom: seq<Instr>)
      requires Atom(pre, start, atom) && 0 < min <= max <= INT32_MAX
      modifies this`byteCode
      ensures var b := FromMinCode(atom, min, max, greedy, check); AllValid(b) && byteCode == pre + EncAll(b)
    {
      hide EncAll;
      hide StarCode;
      hide UpToCode;
      hide ExactCode;
      var len := |byteCode| - start;
      var from := start;
      ghost var head, tail: seq<Instr> := atom, [];
      assert byteCode[start..start + len] == EncAll(atom);
      if min != 1 {
        QuantExact(start, min, pre, atom);
        from := start + 5;
        head := ExactCode(atom, min);
      }
      ghost var was := byteCode;
      if max == INT32_MAX {
        StarCopy(from, len, greedy, check, atom);
        tail := StarCode(atom, greedy, check);
      } else if max > min {
        UpToCopy(from, len, max - min, greedy, atom);
        tail := UpToCode(atom, max - min, greedy);
      } else {
        EncNil();
      }
      EncAllConcat(head, tail);
      assert byteCode == pre + (EncAll(head) + EncAll(tail));
    }

    // ----- Character classes -----

    // re_emit_range: fails on too many ranges.
    method EmitRange(points: seq<u32>) returns (ok: bool)
      requires StrictlyAscending(points) && |points| % 2 == 0
      modifies this`byteCode
      ensures ok <==> |points| / 2 < 65535
      ensures ok ==> RangeInstr(points).Valid() && byteCode == old(byteCode) + Enc(RangeInstr(points))
    {
      hide U16;
      hide U32;
      hide EncPairs16;
      hide EncPairs32;
      hide StrictlyAscending;
      var len := |points| / 2;
      if len >= 65535 {
        return false;
      }
      RangeValid(points);
      if len == 0 {
        var _ := EmitOpU32(2, UINT32_MAX);
      } else {
        var high: int := points[|points| - 1];
        if high == UINT32_MAX {
          high := points[|points| - 2];
        }
        if high <= 0xFFFF {
          EmitOpU16(21, len);
          EmitPairs16(points);
        } else {
          EmitOpU16(22, len);
          EmitPairs32(points);
        }
      }
      ok := true;
    }

    method EmitPairs16(points: seq<u32>)
      requires |points| % 2 == 0 && ValidPairs(Pairs16(points), TWO16)
      modifies this`byteCode
      ensures byteCode == old(byteCode) + EncPairs16(Pairs16(points))
    {
      hide U16;
      hide EncPairs16;
      ghost var ps, was := Pairs16(points), byteCode;
      var i := 0;
      FirstPairs(ps, 0, TWO16);
      while i < |points|
        invariant 0 <= i <= |points| && i % 2 == 0 && ValidPairs(ps[..i / 2], TWO16)
        invariant byteCode == was + EncPairs16(ps[..i / 2])
      {
        ghost var k := i / 2;
        FirstPairs(ps, k + 1, TWO16);
        EncPairs16Snoc(ps[..k], ps[k]);
        assert ps[k] == Pair(points[2 * k], if points[2 * k + 1] == UINT32_MAX then 0xFFFF
                                            else points[2 * k + 1] as int - 1);
        byteCode := byteCode + U16(points[i]);
        var high := points[i + 1] as int - 1;
        if high == UINT32_MAX - 1 {
          high := 0xFFFF;
        }
        byteCode := byteCode + U16(high);
        i := i + 2;
        assert i / 2 == k + 1;
      }
      assert ps[..i / 2] == ps;
    }

    method EmitPairs32(points: seq<u32>)
      requires |points| % 2 == 0 && ValidPairs(Pairs32(points), TWO32)
      modifies this`byteCode
      ensures byteCode == old(byteCode) + EncPairs32(Pairs32(points))
    {
      hide U32;
      hide EncPairs32;
      ghost var ps, was := Pairs32(points), byteCode;
      var i := 0;
      FirstPairs(ps, 0, TWO32);
      while i < |points|
        invariant 0 <= i <= |points| && i % 2 == 0 && ValidPairs(ps[..i / 2], TWO32)
        invariant byteCode == was + EncPairs32(ps[..i / 2])
      {
        ghost var k := i / 2;
        FirstPairs(ps, k + 1, TWO32);
        EncPairs32Snoc(ps[..k], ps[k]);
        assert ps[k] == Pair(points[2 * k], points[2 * k + 1] as int - 1);
        byteCode := byteCode + U32(points[i]);
        byteCode := byteCode + U32(points[i + 1] as int - 1);
        i := i + 2;
        assert i / 2 == k + 1;
      }
      assert ps[..i / 2] == ps;
    }

    lemma FirstPairs(ps: seq<Pair>, k: nat, limit: int)
      requires ValidPairs(ps, limit) && k <= |ps|
      ensures ValidPairs(ps[..k], limit) && (k == 0 ==> ps[..k] == [])
      ensures k > 0 ==> ps[..k] == ps[..k - 1] + [ps[k - 1]]
      ensures limit == TWO16 && k == 0 ==> EncPairs16(ps[..k]) == []
      ensures limit == TWO32 && k == 0 ==> EncPairs32(ps[..k]) == []
    {
    }

    // ----- Terms, alternatives and disjunctions -----

    // Either the code of r has been appended, or the parser reports an error: too many ranges in a
    // class or too many captures.
    ghost predicate Emitted(pre: seq<byte>, cc: nat, r: Re, back: bool, ok: bool)
      reads this
    {
      && (ok <==> WellFormed(r) && cc + Caps(r) <= CAPTURE_COUNT_MAX)
      && (ok ==>
            && captureCount == cc + Caps(r)
            && AllValid(Compile(r, dotall, back, cc))
            && byteCode == pre + EncAll(Compile(r, dotall, back, cc)))
    }

    // The opcode of a character, a dot or a class.
    method EmitAtom(r: Re) returns (ok: bool)
      requires Parsed(r) && (r.Chr? || r.Dot? || r.Class?)
      modifies this`byteCode
      ensures ok <==> WellFormed(r)
      ensures ok ==> LeafOp(r, dotall).Valid() && byteCode == old(byteCode) + Enc(LeafOp(r, dotall))
    {
      hide U16;
      hide U32;
      hide RangeInstr;
      hide StrictlyAscending;
      ok := true;
      match r {
        case Chr(c) =>
          if c <= 0xFFFF {
            EmitOpU16(1, c);
          } else {
            var _ := EmitOpU32(2, c);
          }
        case Dot =>
          EmitOp(if dotall then 4 else 3);
          assert Enc(LeafOp(r, dotall)) == [if dotall then 4 else 3];
        case Class(points) =>
          ok := EmitRange(points);
      }
    }

    method EmitLeaf(r: Re, back: bool) returns (ok: bool)
      requires Parsed(r) && (r.Chr? || r.Dot? || r.Class?) && captureCount <= CAPTURE_COUNT_MAX
      modifies this`byteCode
      ensures Emitted(old(byteCode), old(captureCount), r, back, ok)
    {
      hide EncAll;
      hide Enc;
      hide Oriented;
      hide Parsed;
      hide WellFormed;
      hide Compile;
      hide Caps;
      hide LeafOp;
      hide AllValid;
      LeafFields(r, dotall, back, captureCount);
      ghost var pre := byteCode;
      if back {
        EmitOp(27);
      }
      ok := EmitAtom(r);
      if !ok {
        return;
      }
      ghost var op := Enc(LeafOp(r, dotall));
      if back {
        EmitOp(27);
        assert pre + [27] + op + [27] == pre + ([27] + op + [27]);
      }
      OrientedEnc(LeafOp(r, dotall), back);
    }

    lemma LeafFields(r: Re, dotall: bool, back: bool, cc: nat)
      requires r.Chr? || r.Dot? || r.Class?
      ensures Compile(r, dotall, back, cc) == Oriented(LeafOp(r, dotall), back) && Caps(r) == 0
    {
    }

    // Assertions and back references.
    method EmitOne(r: Re, back: bool)
      requires Parsed(r) && (r.LineStart? || r.LineEnd? || r.WordBoundary? || r.BackRef?)
      requires captureCount <= CAPTURE_COUNT_MAX
      modifies this`byteCode
      ensures Emitted(old(byteCode), old(captureCount), r, back, true)
    {
      hide EncAll;
      hide EncPairs16;
      hide EncPairs32;
      hide U32;
      match r {
        case LineStart =>
          EncOne(ILineStart);
          EmitOp(5);
        case LineEnd =>
          EncOne(ILineEnd);
          EmitOp(6);
        case WordBoundary(neg) =>
          EncOne(IWordBoundary(neg));
          EmitOp(17 + BoolBit(neg));
        case BackRef(n) =>
          EncOne(IBackRef(back, n));
          EmitOpU8(19 + BoolBit(back), n);
      }
    }

    // re_parse_term, for a term that is already a tree.
    method Emit(r: Re, back: bool) returns (ok: bool)
      requires Parsed(r) && Fits(r, dotall, back, captureCount) && captureCount <= CAPTURE_COUNT_MAX
      modifies this
      ensures Emitted(old(byteCode), old(captureCount), r, back, ok)
      decreases r, 1
    {
      GroupFields(r, dotall, back, captureCount);
      hide EncAll;
      hide Compile;
      hide WellFormed;
      hide Caps;
      ok := true;
      match r {
        case Group(b) => ok := Emit(b, back);
        case Capture(b) => ok := EmitCapture(r, back);
        case Look(neg, behind, b) => ok := EmitLook(r, back);
        case Quant(b, min, max, greedy) => ok := EmitQuant(r, back);
        case Cat(ts) => ok := Alternative(ts, back);
        case Disj(ts) => ok := Disjunction(ts, back);
        case Chr(_) => ok := EmitLeaf(r, back);
        case Dot => ok := EmitLeaf(r, back);
        case Class(_) => ok := EmitLeaf(r, back);
        case _ => EmitOne(r, back);
      }
    }

    lemma GroupFields(r: Re, dotall: bool, back: bool, cc: nat)
      ensures r.Group? ==>
                && (WellFormed(r) <==> WellFormed(r.body)) && Caps(r) == Caps(r.body)
                && Compile(r, dotall, back, cc) == Compile(r.body, dotall, back, cc)
    {
    }

    method EmitCapture(r: Re, back: bool) returns (ok: bool)
      requires r.Capture? && Parsed(r) && Fits(r, dotall, back, captureCount) && captureCount <= CAPTURE_COUNT_MAX
      modifies this
      ensures Emitted(old(byteCode), old(captureCount), r, back, ok)
      decreases r, 0
    {
      hide EncAll;
      hide WellFormed;
      hide Parsed;
      hide Fits;
      hide Caps;
      hide Compile;
      NodeFields(r, dotall, back, captureCount);
      if captureCount >= CAPTURE_COUNT_MAX {
        return false;
      }
      CaptureEnc(r, dotall, back, captureCount);
      var captureIndex := captureCount;
      captureCount := captureCount + 1;
      EmitOpU8(11 + BoolBit(back), captureIndex);
      ok := Emit(r.body, back);
      if !ok {
        return;
      }
      EmitOpU8(11 + BoolBit(!back), captureIndex);
    }

    method EmitLook(r: Re, back: bool) returns (ok: bool)
      requires r.Look? && Parsed(r) && Fits(r, dotall, back, captureCount) && captureCount <= CAPTURE_COUNT_MAX
      modifies this
      ensures Emitted(old(byteCode), old(captureCount), r, back, ok)
      decreases r, 0
    {
      hide EncAll;
      hide Word;
      hide TotalSize;
      hide WellFormed;
      hide Parsed;
      hide Fits;
      hide Caps;
      hide Compile;
      NodeFields(r, dotall, back, captureCount);
      LookEnc(r, dotall, back, captureCount);
      ghost var cc, was := captureCount, byteCode;
      var pos := EmitOpU32(23 + BoolBit(r.neg), 0);
      ok := Emit(r.body, r.behind);
      if !ok {
        return;
      }
      ghost var c := Compile(r.body, dotall, r.behind, cc);
      EmitOp(10);
      PatchJump(pos, 23 + BoolBit(r.neg), was, EncAll(c) + [10]);
    }

    method EmitQuant(r: Re, back: bool) returns (ok: bool)
      requires r.Quant? && Parsed(r) && Fits(r, dotall, back, captureCount) && captureCount <= CAPTURE_COUNT_MAX
      modifies this
      ensures Emitted(old(byteCode), old(captureCount), r, back, ok)
      decreases r, 0
    {
      hide EncAll;
      hide QuantCode;
      var lastAtomStart, lastCaptureCount := |byteCode|, captureCount;
      ghost var pre := byteCode;
      ok := Emit(r.body, back);
      if !ok {
        return;
      }
      ghost var atom := Compile(r.body, dotall, back, lastCaptureCount);
      GroupsCompile(r.body, dotall, back, lastCaptureCount);
      Quantifier(lastAtomStart, lastCaptureCount, r.min, r.max, r.greedy, pre, atom);
    }

    // Move the bytes from termStart on in front of those from start on.
    method Rotate(start: int, termStart: int)
      requires 0 <= start <= termStart <= |byteCode|
      modifies this`byteCode
      ensures byteCode == old(byteCode[..start] + byteCode[termStart..] + byteCode[start..termStart])
    {
      var end := |byteCode|;
      var termSize := end - termStart;
      ghost var was := byteCode;
      var buf := byteCode[..start + termSize] + byteCode[start..end];
      assert buf[end..end + termSize] == was[termStart..] && buf[start + termSize..] == was[start..];
      buf := buf[..start] + buf[end..end + termSize] + buf[start + termSize..];
      byteCode := buf[..end];
      assert byteCode == was[..start] + was[termStart..] + was[start..][..termStart - start];
    }

    // What an alternative has emitted after its first i terms.
    ghost predicate TermsDone(pre: seq<byte>, cc: nat, ts: seq<Re>, i: nat, back: bool)
      requires i <= |ts|
      reads this
    {
      var c := CompileCat(ts[..i], dotall, back, cc);
      && WellFormedAll(ts[..i])
      && captureCount == cc + CapsAll(ts[..i]) <= CAPTURE_COUNT_MAX
      && AllValid(c) && byteCode == pre + EncAll(c)
    }

    // The next term: matching backward, it is moved to the front.
    method NextTerm(ts: seq<Re>, i: nat, start: nat, back: bool, ghost pre: seq<byte>, ghost cc: nat)
      returns (ok: bool)
      requires i < |ts| && start == |pre| && TermsDone(pre, cc, ts, i, back)
      requires ParsedAll(ts) && FitsAll(ts, dotall, back, cc)
      modifies this
      ensures ok ==> TermsDone(pre, cc, ts, i + 1, back)
      ensures !ok ==> !(WellFormedAll(ts) && cc + CapsAll(ts) <= CAPTURE_COUNT_MAX)
      decreases ts, 0
    {
      hide EncAll;
      hide WellFormed;
      hide WellFormedAll;
      hide Parsed;
      hide ParsedAll;
      hide Fits;
      hide FitsAll;
      hide Caps;
      hide CapsAll;
      hide Compile;
      hide CompileCat;
      hide CompileDisj;
      hide FitsAlts;
      hide Small;
      hide TotalSize;
      TermNext(ts, i, dotall, back, cc);
      CatStep(ts[..i + 1], dotall, back, cc);
      ghost var init, t := CompileCat(ts[..i], dotall, back, cc), Compile(ts[i], dotall, back, captureCount);
      var termStart := |byteCode|;
      ok := Emit(ts[i], back);
      if !ok {
        return;
      }
      EncAllConcat(t, init);
      EncAllConcat(init, t);
      hide AllValid;
      if back {
        Rotated(pre, EncAll(init), EncAll(t));
        Rotate(start, termStart);
      } else {
        assert pre + EncAll(init) + EncAll(t) == pre + (EncAll(init) + EncAll(t));
      }
    }

    lemma Rotated(pre: seq<byte>, x: seq<byte>, y: seq<byte>)
      ensures var b := pre + x + y;
        b[..|pre|] + b[|pre + x|..] + b[|pre|..|pre + x|] == pre + (y + x)
    {
    }

    // re_parse_alternative
    method Alternative(ts: seq<Re>, back: bool) returns (ok: bool)
      requires ParsedAll(ts) && FitsAll(ts, dotall, back, captureCount) && captureCount <= CAPTURE_COUNT_MAX
      modifies this
      ensures Emitted(old(byteCode), old(captureCount), Cat(ts), back, ok)
      decreases ts, 1
    {
      hide EncAll;
      hide WellFormed;
      hide WellFormedAll;
      hide Parsed;
      hide ParsedAll;
      hide Fits;
      hide FitsAll;
      hide Caps;
      hide CapsAll;
      hide Compile;
      hide CompileCat;
      hide CompileDisj;
      var start := |byteCode|;
      ghost var cc, pre := captureCount, byteCode;
      var i := 0;
      NoTerms(ts, back);
      CatFields(ts, dotall, back, cc);
      while i < |ts|
        invariant 0 <= i <= |ts| && TermsDone(pre, cc, ts, i, back)
      {
        ok := NextTerm(ts, i, start, back, pre, cc);
        if !ok {
          return;
        }
        i := i + 1;
      }
      assert ts[..i] == ts;
      ok := true;
    }

    lemma NoTerms(ts: seq<Re>, back: bool)
      requires captureCount <= CAPTURE_COUNT_MAX
      ensures TermsDone(byteCode, captureCount, ts, 0, back)
    {
      assert ts[..0] == [];
    }

    lemma CatFields(ts: seq<Re>, dotall: bool, back: bool, cc: nat)
      ensures WellFormed(Cat(ts)) <==> WellFormedAll(ts)
      ensures Caps(Cat(ts)) == CapsAll(ts) && Compile(Cat(ts), dotall, back, cc) == CompileCat(ts, dotall, back, cc)
    {
    }

    // What a disjunction has emitted after its first i alternatives.
    ghost predicate AltsDone(pre: seq<byte>, cc: nat, ts: seq<Re>, i: nat, back: bool)
      requires i <= |ts|
      reads this
    {
      var c := CompileDisj(ts[..i], dotall, back, cc);
      && WellFormedAll(ts[..i])
      && captureCount == cc + CapsAll(ts[..i]) <= CAPTURE_COUNT_MAX
      && AllValid(c) && byteCode == pre + EncAll(c)
    }

    // re_parse_disjunction: each further alternative puts a split in front of everything before it.
    method Disjunction(ts: seq<Re>, back: bool) returns (ok: bool)
      requires ts != [] && ParsedAll(ts) && captureCount <= CAPTURE_COUNT_MAX
      requires FitsAll(ts, dotall, back, captureCount) && FitsAlts(ts, dotall, back, captureCount)
      modifies this
      ensures Emitted(old(byteCode), old(captureCount), Disj(ts), back, ok)
      decreases ts, 1
    {
      hide EncAll;
      hide WellFormed;
      hide WellFormedAll;
      hide Parsed;
      hide ParsedAll;
      hide Fits;
      hide FitsAll;
      hide FitsAlts;
      hide Caps;
      hide CapsAll;
      hide Compile;
      hide CompileCat;
      hide CompileDisj;
      var start := |byteCode|;
      ghost var cc, pre := captureCount, byteCode;
      TermNext(ts, 0, dotall, back, cc);
      NoAlternatives(ts);
      DisjFields(ts, dotall, back, cc);
      DisjOne(ts[0], dotall, back, cc);
      ok := Emit(ts[0], back);
      if !ok {
        return;
      }
      assert ts[..1] == [ts[0]];
      var i := 1;
      while i < |ts|
        invariant 1 <= i <= |ts| && AltsDone(pre, cc, ts, i, back)
      {
        ok := NextAlternative(ts, i, back, start, pre, cc);
        if !ok {
          return;
        }
        i := i + 1;
      }
      assert ts[..i] == ts;
      ok := true;
    }

    // One turn of the loop of re_parse_disjunction.
    method NextAlternative(ts: seq<Re>, i: nat, back: bool, start: int, ghost pre: seq<byte>, ghost cc: nat)
      returns (ok: bool)
      requires 1 <= i < |ts| && ParsedAll(ts) && FitsAll(ts, dotall, back, cc) && FitsAlts(ts, dotall, back, cc)
      requires start == |pre| && AltsDone(pre, cc, ts, i, back)
      modifies this
      ensures !ok ==> !(WellFormedAll(ts) && cc + CapsAll(ts) <= CAPTURE_COUNT_MAX)
      ensures ok ==> AltsDone(pre, cc, ts, i + 1, back)
      decreases ts, 0
    {
      hide EncAll;
      hide WellFormed;
      hide WellFormedAll;
      hide Parsed;
      hide ParsedAll;
      hide Fits;
      hide FitsAll;
      hide FitsAlts;
      hide Caps;
      hide CapsAll;
      hide Compile;
      hide CompileCat;
      hide CompileDisj;
      hide AltCode;
      hide Word;
      hide AllValid;
      TermNext(ts, i, dotall, back, cc);
      ghost var init, last := CompileDisj(ts[..i], dotall, back, cc), Compile(ts[i], dotall, back, captureCount);
      DisjStep(ts[..i + 1], dotall, back, cc, init, last);
      var len := |byteCode| - start;
      InsertOpU32(start, 9, len + 5, pre, EncAll(init));
      ghost var front := byteCode;
      var pos := EmitOpU32(7, 0);
      ok := Emit(ts[i], back);
      if !ok {
        return;
      }
      AltEnc(init, last);
      PatchJump(pos, 7, front, EncAll(last));
    }

    lemma NoAlternatives(ts: seq<Re>)
      ensures ts[..0] == [] && CapsAll(ts[..0]) == 0 && WellFormedAll(ts[..0])
    {
      assert ts[..0] == [];
    }

    lemma DisjFields(ts: seq<Re>, dotall: bool, back: bool, cc: nat)
      requires ts != []
      ensures WellFormed(Disj(ts)) <==> WellFormedAll(ts)
      ensures Caps(Disj(ts)) == CapsAll(ts) && Compile(Disj(ts), dotall, back, cc) == CompileDisj(ts, dotall, back, cc)
    {
    }
  }
}
