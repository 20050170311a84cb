// The linear scans of quickjs/libregexp.c over emitted bytes, each proved to compute the function
// of the instruction list that the correctness proofs use.

module RegexpScan {
  import opened Basics
  import opened CharRanges
  import opened RegexpCode
  import opened RegexpCompile
  import opened RegexpClosed
  import opened RegexpExec

  const CAPTURE_COUNT_MAX: int := 255
  const STACK_SIZE_MAX: int := 255

  // reopcode_info[opcode].size
  function OpSize(opcode: byte): int {
    if opcode == 1 || opcode == 13 || opcode == 21 || opcode == 22 then 3
    else if opcode == 2 || (7 <= opcode <= 9) || opcode == 14 || opcode == 15 || opcode == 23 || opcode == 24 ||
        opcode == 26 then 5
    else if opcode == 11 || opcode == 12 || opcode == 19 || opcode == 20 then 2
    else if opcode == 28 then 17
    else 1
  }

  // The bytes from pos on are the code of the instructions rest.
  ghost predicate Remaining(buf: seq<byte>, pos: int, rest: seq<Instr>) {
    0 <= pos && pos + TotalSize(rest) == |buf| && AtAll(Fetcher(buf), pos, rest)
  }

  lemma RemainingAll(b: seq<Instr>)
    requires AllValid(b)
    ensures Remaining(EncAll(b), 0, b)
  {
    var buf := EncAll(b);
    assert buf[0..0 + TotalSize(b)] == buf;
    EncAllAt(buf, 0, b);
  }

  lemma RemainingHead(buf: seq<byte>, pos: int, rest: seq<Instr>)
    requires Remaining(buf, pos, rest)
    ensures 0 <= pos && (pos < |buf| <==> rest != [])
    ensures rest != [] ==> Decode(buf, pos) == Some(rest[0]) && Remaining(buf, pos + rest[0].Size(), rest[1..])
    ensures rest != [] ==> Opcode(rest[0]) == buf[pos] && pos + rest[0].Size() <= |buf|
    ensures rest != [] && !rest[0].IRange? && !rest[0].IRange32? ==> rest[0].Size() == OpSize(buf[pos])
    ensures rest != [] && rest[0].IRange? ==> rest[0].Size() == 3 + 4 * GetU16(buf, pos + 1)
    ensures rest != [] && rest[0].IRange32? ==> rest[0].Size() == 3 + 8 * GetU16(buf, pos + 1)
  {
    hide Decode;
    if rest != [] {
      assert Fetcher(buf)(pos) == Decode(buf, pos);
      Fields(buf, pos, rest[0]);
    }
  }

  // Size of the instruction at pos, variable part included.
  function ScanSize(buf: seq<byte>, pos: int): int
    requires 0 <= pos < |buf| && (buf[pos] == 21 || buf[pos] == 22 ==> pos + 3 <= |buf|)
  {
    if buf[pos] == 21 then OpSize(21) + GetU16(buf, pos + 1) * 4
    else if buf[pos] == 22 then OpSize(22) + GetU16(buf, pos + 1) * 8
    else OpSize(buf[pos])
  }

  // re_is_simple_quantifier
  method IsSimpleQuantifier(buf: seq<byte>, ghost b: seq<Instr>) returns (count: int)
    requires AllValid(b) && buf == EncAll(b)
    ensures count == SimpleCount(b)
  {
    hide Decode;
    hide EncAll;
    hide Remaining;
    RemainingAll(b);
    count := 0;
    var pos := 0;
    ghost var rest := b;
    while pos < |buf|
      invariant Remaining(buf, pos, rest) && count >= 0
      invariant SimpleCount(b) == if SimpleCount(rest) < 0 then -1 else count + SimpleCount(rest)
      decreases |rest|
    {
      RemainingHead(buf, pos, rest);
      var opcode := buf[pos];
      if (1 <= opcode <= 4) || opcode == 21 || opcode == 22 {
        count := count + 1;
      } else if opcode == 5 || opcode == 6 || opcode == 17 || opcode == 18 {
      } else {
        return -1;
      }
      pos := pos + ScanSize(buf, pos);
      rest := rest[1..];
    }
    RemainingHead(buf, pos, rest);
  }

  // compute_stack_size: -1 when the depth exceeds STACK_SIZE_MAX.
  method ComputeStackSize(buf: seq<byte>, ghost b: seq<Instr>) returns (stackSizeMax: int)
    requires AllValid(b) && buf == EncAll(b)
    ensures stackSizeMax == if MaxDepth(b, 0) > STACK_SIZE_MAX then -1 else MaxDepth(b, 0)
  {
    hide Decode;
    hide EncAll;
    hide Remaining;
    RemainingAll(b);
    var stackSize, pos := 0, 0;
    stackSizeMax := 0;
    ghost var rest := b;
    while pos < |buf|
      invariant Remaining(buf, pos, rest)
      invariant stackSize <= stackSizeMax <= STACK_SIZE_MAX
      invariant MaxDepth(b, 0) == if MaxDepth(rest, stackSize) > stackSizeMax then MaxDepth(rest, stackSize)
                                  else stackSizeMax
      decreases |rest|
    {
      RemainingHead(buf, pos, rest);
      var opcode := buf[pos];
      if opcode == 15 || opcode == 25 {
        stackSize := stackSize + 1;
        if stackSize > stackSizeMax {
          if stackSize > STACK_SIZE_MAX {
            return -1;
          }
          stackSizeMax := stackSize;
        }
      } else if opcode == 16 || opcode == 26 {
        stackSize := stackSize - 1;
      }
      pos := pos + ScanSize(buf, pos);
      rest := rest[1..];
    }
    RemainingHead(buf, pos, rest);
  }

  // ----- re_check_advance -----

  // Group numbers are indices of the bitmap.
  ghost predicate GroupInRange(i: Instr) {
    && (i.ISave? || i.IBackRef? ==> 0 <= i.n < CAPTURE_COUNT_MAX)
    && (i.ISaveReset? ==> 0 <= i.lo && i.hi <= CAPTURE_COUNT_MAX)
  }

  ghost predicate GroupsFit(b: seq<Instr>) {
    forall k :: 0 <= k < |b| ==> GroupInRange(b[k])
  }

  // Bit 0 of entry k: group k is set by the code; bit 1: it is referred to.
  ghost predicate Marks(bitmap: array<bv8>, saves: set<int>, refs: set<int>)
    reads bitmap
  {
    && bitmap.Length == CAPTURE_COUNT_MAX
    && (forall k :: 0 <= k < CAPTURE_COUNT_MAX ==> Marked(bitmap[k], k in saves, k in refs))
    && (forall k :: k in saves ==> 0 <= k < CAPTURE_COUNT_MAX)
    && (forall k :: k in refs ==> 0 <= k < CAPTURE_COUNT_MAX)
  }

  predicate Marked(v: bv8, saved: bool, referred: bool) {
    v == (if saved then 1 else 0) | (if referred then 2 else 0)
  }

  lemma MarkSave(v: bv8, saved: bool, referred: bool)
    requires Marked(v, saved, referred)
    ensures Marked(v | 1, true, referred) && Marked(v | 2, saved, true)
    ensures v == 3 <==> saved && referred
  {
  }

  lemma {:induction false} SpanIs(lo: int, hi: int, k: int)
    ensures k in Span(lo, hi) <==> lo <= k < hi
    decreases hi - lo
  {
    if lo < hi {
      SpanIs(lo + 1, hi, k);
    }
  }

  method MarkOne(bitmap: array<bv8>, val: int, bit: bv8, ghost saves: set<int>, ghost refs: set<int>)
    requires Marks(bitmap, saves, refs) && 0 <= val < CAPTURE_COUNT_MAX && (bit == 1 || bit == 2)
    modifies bitmap
    ensures bit == 1 ==> Marks(bitmap, saves + {val}, refs)
    ensures bit == 2 ==> Marks(bitmap, saves, refs + {val})
  {
    hide Marked;
    ghost var v := bitmap[val];
    MarkSave(v, val in saves, val in refs);
    bitmap[val] := bitmap[val] | bit;
    forall k | 0 <= k < CAPTURE_COUNT_MAX
      ensures bit == 1 ==> Marked(bitmap[k], k in saves + {val}, k in refs)
      ensures bit == 2 ==> Marked(bitmap[k], k in saves, k in refs + {val})
    {
      assert k != val ==> bitmap[k] == old(bitmap[k]) && (k in saves + {val} <==> k in saves) &&
                          (k in refs + {val} <==> k in refs);
    }
  }

  method MarkSpan(bitmap: array<bv8>, lo: int, last: int, ghost saves: set<int>, ghost refs: set<int>)
    requires Marks(bitmap, saves, refs) && 0 <= lo && last <= CAPTURE_COUNT_MAX
    modifies bitmap
    ensures Marks(bitmap, saves + Span(lo, last), refs)
  {
    hide Marked;
    var val := lo;
    assert saves + Span(lo, lo) == saves;
    while val < last
      invariant lo <= val && (val <= last || val == lo)
      invariant Marks(bitmap, saves + Span(lo, val), refs)
    {
      MarkOne(bitmap, val, 1, saves + Span(lo, val), refs);
      SpanSnoc(lo, val);
      assert saves + Span(lo, val) + {val} == saves + Span(lo, val + 1);
      val := val + 1;
    }
    if last < lo {
      assert Span(lo, last) == Span(lo, val);
    }
  }

  lemma SpanSnoc(lo: int, hi: int)
    requires lo <= hi
    ensures Span(lo, hi + 1) == Span(lo, hi) + {hi}
  {
    forall k ensures k in Span(lo, hi + 1) <==> k in Span(lo, hi) + {hi} {
      SpanIs(lo, hi + 1, k);
      SpanIs(lo, hi, k);
    }
  }

  // What the scan knows so far of the first opcode with a say.
  ghost predicate KindSoFar(ret: int, b: seq<Instr>, rest: seq<Instr>) {
    || (ret == -2 && FirstKind(b) == FirstKind(rest))
    || (ret == 1 && FirstKind(b) == Advances)
    || (ret == 0 && FirstKind(b) == Unpredictable)
  }

  ghost predicate MarksSoFar(bitmap: array<bv8>, b: seq<Instr>, rest: seq<Instr>, saves: set<int>, refs: set<int>)
    reads bitmap
  {
    Marks(bitmap, saves, refs) && Saves(b) == saves + Saves(rest) && Refs(b) == refs + Refs(rest)
  }

  // Record what one instruction does to the groups.
  method MarkInstr(bitmap: array<bv8>, buf: seq<byte>, pos: int, ghost i: Instr, ghost saves: set<int>,
                   ghost refs: set<int>)
    returns (isRef: bool)
    requires Decode(buf, pos) == Some(i) && GroupsFit([i]) && Marks(bitmap, saves, refs)
    modifies bitmap
    ensures Marks(bitmap, saves + Saves([i]), refs + Refs([i])) && (isRef <==> i.IBackRef?)
  {
    hide Decode;
    hide Marks;
    hide GetU32;
    hide GetU16;
    Fields(buf, pos, i);
    assert GroupsFit([i]) && [i][0] == i;
    assert [i][1..] == [] && Saves([]) == {} && Refs([]) == {};
    assert saves + {} == saves && refs + {} == refs;
    var opcode := buf[pos];
    isRef := false;
    if opcode == 11 || opcode == 12 {
      MarkOne(bitmap, buf[pos + 1], 1, saves, refs);
      assert saves + Saves([i]) == saves + {i.n};
    } else if opcode == 13 {
      MarkSpan(bitmap, buf[pos + 1], buf[pos + 2], saves, refs);
      assert saves + Saves([i]) == saves + Span(i.lo, i.hi);
    } else if opcode == 19 || opcode == 20 {
      MarkOne(bitmap, buf[pos + 1], 2, saves, refs);
      assert refs + Refs([i]) == refs + {i.n};
      isRef := true;
    }
    assert saves + Saves([i]) == saves || i.ISave? || i.ISaveReset?;
    assert refs + Refs([i]) == refs || i.IBackRef?;
  }

  // What one instruction says about advancing.
  function Verdict(ret: int, opcode: byte): int {
    if (1 <= opcode <= 4) || opcode == 21 || opcode == 22 then (if ret == -2 then 1 else ret)
    else if opcode == 5 || opcode == 6 || opcode == 15 || opcode == 25 || opcode == 16 || opcode == 17 || opcode == 18
            || opcode == 27 || (11 <= opcode <= 13) || opcode == 19 || opcode == 20 then ret
    else (if ret == -2 then 0 else ret)
  }

  method CheckAdvanceScan(buf: seq<byte>, ghost b: seq<Instr>) returns (ret: int)
    requires AllValid(b) && buf == EncAll(b) && GroupsFit(b)
    ensures ret == CheckAdvance(b)
  {
    hide Decode;
    hide EncAll;
    hide Remaining;
    hide Marks;
    hide Saves;
    hide Refs;
    hide FirstKind;
    RemainingAll(b);
    ret := -2;
    var pos, hasBackReference := 0, false;
    var bitmap := new bv8[CAPTURE_COUNT_MAX](_ => 0);
    ghost var rest: seq<Instr>, saves: set<int>, refs: set<int> := b, {}, {};
    NoMarks(bitmap, b);
    while pos < |buf|
      invariant Remaining(buf, pos, rest) && KindSoFar(ret, b, rest) && GroupsFit(rest)
      invariant MarksSoFar(bitmap, b, rest, saves, refs) && (hasBackReference <==> refs != {})
      decreases |rest|
    {
      RemainingHead(buf, pos, rest);
      SplitHead(rest);
      var opcode := buf[pos];
      var isRef := MarkInstr(bitmap, buf, pos, rest[0], saves, refs);
      hasBackReference := hasBackReference || isRef;
      saves, refs := saves + Saves([rest[0]]), refs + Refs([rest[0]]);
      VerdictOk(ret, b, rest);
      ret := Verdict(ret, opcode);
      pos := pos + ScanSize(buf, pos);
      rest := rest[1..];
    }
    RemainingHead(buf, pos, rest);
    NothingLeft(rest);
    if hasBackReference {
      var bad := HasThree(bitmap, saves, refs);
      if bad {
        return -1;
      }
    }
    if ret == -2 {
      ret := 0;
    }
  }

  lemma NoMarks(bitmap: array<bv8>, b: seq<Instr>)
    requires bitmap.Length == CAPTURE_COUNT_MAX && forall k :: 0 <= k < CAPTURE_COUNT_MAX ==> bitmap[k] == 0
    ensures MarksSoFar(bitmap, b, b, {}, {}) && KindSoFar(-2, b, b)
  {
    assert {} + Saves(b) == Saves(b) && {} + Refs(b) == Refs(b);
  }

  lemma NothingLeft(rest: seq<Instr>)
    requires rest == []
    ensures Saves(rest) == {} && Refs(rest) == {} && FirstKind(rest) == Undetermined
  {
  }

  lemma SplitHead(rest: seq<Instr>)
    requires rest != [] && GroupsFit(rest)
    ensures Saves(rest) == Saves([rest[0]]) + Saves(rest[1..]) && Refs(rest) == Refs([rest[0]]) + Refs(rest[1..])
    ensures GroupsFit([rest[0]]) && GroupsFit(rest[1..])
    ensures Refs([rest[0]]) != {} <==> rest[0].IBackRef?
  {
    assert [rest[0]][1..] == [];
    if rest[0].IBackRef? {
      assert rest[0].n in Refs([rest[0]]);
    }
  }

  lemma VerdictOk(ret: int, b: seq<Instr>, rest: seq<Instr>)
    requires rest != [] && KindSoFar(ret, b, rest)
    ensures KindSoFar(Verdict(ret, Opcode(rest[0])), b, rest[1..])
  {
  }

  method HasThree(bitmap: array<bv8>, ghost saves: set<int>, ghost refs: set<int>) returns (bad: bool)
    requires Marks(bitmap, saves, refs)
    ensures bad <==> saves * refs != {}
  {
    hide Marked;
    var i := 0;
    while i < CAPTURE_COUNT_MAX
      invariant 0 <= i <= CAPTURE_COUNT_MAX && forall k :: 0 <= k < i ==> k !in saves * refs
    {
      MarkSave(bitmap[i], i in saves, i in refs);
      if bitmap[i] == 3 {
        assert i in saves * refs;
        return true;
      }
      i := i + 1;
    }
    return false;
  }
}
