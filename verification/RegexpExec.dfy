// lre_exec and lre_exec_backtrack of quickjs/libregexp.c over bytes, registers and an explicit
// stack of pending states. Every opcode is proved to take the step of the abstract machine.

module RegexpExec {
  import opened Basics
  import opened RegexpCode
  import opened RegexpCompile
  import opened RegexpSemantics
  import opened RegexpVM
  import opened RegexpBlocks
  import opened RegexpTheorem
  import opened RegexpClosed
  import opened RegexpRun

  // ----- Reading operands -----

  // What the bytes say when an instruction has been decoded.
  lemma Fields(code: seq<byte>, pc: int, i: Instr)
    requires Decode(code, pc) == Some(i)
    ensures 0 <= pc < |code| && pc + i.Size() <= |code| && code[pc] == Opcode(i)
    ensures i.IChar? ==> i.c == GetU16(code, pc + 1)
    ensures i.IChar32? ==> i.c == GetU32(code, pc + 1)
    ensures Jump(i).Some? ==> Jump(i).value == Disp(code, pc + 1)
    ensures i.ISave? ==> i.n == code[pc + 1]
    ensures i.ISaveReset? ==> i.lo == code[pc + 1] && i.hi == code[pc + 2]
    ensures i.IPushI32? ==> i.v == GetU32(code, pc + 1)
    ensures i.IBackRef? ==> i.n == code[pc + 1]
    ensures i.IRange? ==> |i.pairs| == GetU16(code, pc + 1) && i.pairs == DecPairs16(code, pc + 3, |i.pairs|)
    ensures i.IRange32? ==> |i.pairs| == GetU16(code, pc + 1) && i.pairs == DecPairs32(code, pc + 3, |i.pairs|)
    ensures i.IGreedy? ==> i.min == GetU32(code, pc + 5) && i.max == GetU32(code, pc + 9) &&
                           i.count == GetU32(code, pc + 13) >= 0
  {
    hide DecPairs16;
    hide DecPairs32;
  }

  lemma {:induction false} DecPairs16At(code: seq<byte>, p: int, n: nat, k: nat)
    requires 0 <= p && p + 4 * n <= |code| && k < n
    ensures DecPairs16(code, p, n)[k] == Pair(GetU16(code, p + 4 * k), GetU16(code, p + 4 * k + 2))
    decreases n
  {
    if k > 0 {
      DecPairs16At(code, p + 4, n - 1, k - 1);
    }
  }

  lemma {:induction false} DecPairs32At(code: seq<byte>, p: int, n: nat, k: nat)
    requires 0 <= p && p + 8 * n <= |code| && k < n
    ensures DecPairs32(code, p, n)[k] == Pair(GetU32(code, p + 8 * k), GetU32(code, p + 8 * k + 4))
    decreases n
  {
    if k > 0 {
      DecPairs32At(code, p + 8, n - 1, k - 1);
    }
  }

  // Every interval below lo ends before c, and every one above hi starts after it.
  ghost predicate Narrowed(pairs: seq<Pair>, lo: int, hi: int, c: int) {
    forall k :: 0 <= k < |pairs| ==> (k < lo ==> pairs[k].hi < c) && (k > hi ==> c < pairs[k].lo)
  }

  lemma NarrowDown(pairs: seq<Pair>, lo: int, hi: int, c: int, k: int)
    requires Sorted(pairs) && Narrowed(pairs, lo, hi, c) && 0 <= k < |pairs|
    ensures c < pairs[k].lo ==> Narrowed(pairs, lo, k - 1, c)
    ensures c > pairs[k].hi ==> Narrowed(pairs, k + 1, hi, c)
  {
  }

  // The binary search of REOP_range.
  method SearchRange(code: seq<byte>, pc: int, n: nat, c: int) returns (hit: bool)
    requires n >= 1 && 0 <= pc && pc + 4 * n <= |code| && Sorted(DecPairs16(code, pc, n))
    ensures hit <==> RangeHit(DecPairs16(code, pc, n), c)
  {
    hide DecPairs16;
    hide GetU16;
    ghost var pairs := DecPairs16(code, pc, n);
    DecPairs16At(code, pc, n, 0);
    DecPairs16At(code, pc, n, n - 1);
    var idxMin, idxMax := 0, n - 1;
    var low := GetU16(code, pc + 0 * 4);
    if c < low {
      return false;
    }
    var high := GetU16(code, pc + idxMax * 4 + 2);
    if c >= 0xFFFF && high == 0xFFFF {
      return true;
    }
    if c > high {
      return false;
    }
    while idxMin <= idxMax
      invariant 0 <= idxMin <= n && -1 <= idxMax < n
      invariant Narrowed(pairs, idxMin, idxMax, c)
      decreases idxMax - idxMin
    {
      var idx := (idxMin + idxMax) / 2;
      DecPairs16At(code, pc, n, idx);
      NarrowDown(pairs, idxMin, idxMax, c, idx);
      low := GetU16(code, pc + idx * 4);
      high := GetU16(code, pc + idx * 4 + 2);
      if c < low {
        assert idx > 0; // so the unsigned subtraction below does not wrap
        idxMax := idx - 1;
      } else if c > high {
        idxMin := idx + 1;
      } else {
        return true;
      }
    }
    return false;
  }

  // The binary search of REOP_range32.
  method SearchRange32(code: seq<byte>, pc: int, n: nat, c: int) returns (hit: bool)
    requires n >= 1 && 0 <= pc && pc + 8 * n <= |code| && Sorted(DecPairs32(code, pc, n))
    ensures hit <==> PairsHit(DecPairs32(code, pc, n), c)
  {
    hide DecPairs32;
    hide GetU32;
    ghost var pairs := DecPairs32(code, pc, n);
    DecPairs32At(code, pc, n, 0);
    DecPairs32At(code, pc, n, n - 1);
    var idxMin, idxMax := 0, n - 1;
    var low := GetU32(code, pc + 0 * 8);
    if c < low {
      return false;
    }
    var high := GetU32(code, pc + idxMax * 8 + 4);
    if c > high {
      return false;
    }
    while idxMin <= idxMax
      invariant 0 <= idxMin <= n && -1 <= idxMax < n
      invariant Narrowed(pairs, idxMin, idxMax, c)
      decreases idxMax - idxMin
    {
      var idx := (idxMin + idxMax) / 2;
      DecPairs32At(code, pc, n, idx);
      NarrowDown(pairs, idxMin, idxMax, c, idx);
      low := GetU32(code, pc + idx * 8);
      high := GetU32(code, pc + idx * 8 + 4);
      if c < low {
        assert idx > 0;
        idxMax := idx - 1;
      } else if c > high {
        idxMin := idx + 1;
      } else {
        return true;
      }
    }
    return false;
  }

  // Opcodes that read one character: accepted or not, and the size of the instruction.
  method TestChar(code: seq<byte>, pc: int, c: int, ghost i: Instr) returns (ok: bool, size: nat)
    requires Decode(code, pc) == Some(i) && IsCharOp(i) && RangesOk(i)
    ensures ok <==> CharOpAccepts(i, c)
    ensures ok ==> size == i.Size()
  {
    hide Decode;
    hide DecPairs16;
    hide DecPairs32;
    hide PairsHit;
    hide RangeHit;
    hide Sorted;
    Fields(code, pc, i);
    var opcode := code[pc];
    if opcode == 1 {
      ok, size := GetU16(code, pc + 1) == c, 3;
    } else if opcode == 2 {
      ok, size := GetU32(code, pc + 1) == c, 5;
    } else if opcode == 3 {
      ok, size := !IsLineTerminator(c), 1;
    } else if opcode == 4 {
      ok, size := true, 1;
    } else if opcode == 21 {
      var n := GetU16(code, pc + 1);
      SortedNonEmpty(i.pairs);
      ok := SearchRange(code, pc + 3, n, c);
      size := 3 + 4 * n;
    } else {
      var n := GetU16(code, pc + 1);
      SortedNonEmpty(i.pairs);
      ok := SearchRange32(code, pc + 3, n, c);
      size := 3 + 8 * n;
    }
  }

  lemma SortedNonEmpty(pairs: seq<Pair>)
    requires Sorted(pairs)
    ensures |pairs| >= 1
  {
  }

  // Opcodes that look at the position without moving.
  method TestAssert(code: seq<byte>, pc: int, env: Env, cptr: int, ghost i: Instr) returns (ok: bool)
    requires Decode(code, pc) == Some(i) && IsAssertOp(i) && 0 <= cptr <= |env.input|
    ensures ok <==> AssertOpHolds(env, i, cptr)
  {
    hide Decode;
    Fields(code, pc, i);
    var opcode := code[pc];
    if opcode == 5 {
      ok := cptr == 0 || (env.multiline && IsLineTerminator(env.input[cptr - 1]));
    } else if opcode == 6 {
      ok := cptr == |env.input| || (env.multiline && IsLineTerminator(env.input[cptr]));
    } else {
      var v1, v2 := false, false;
      if cptr != 0 {
        v1 := IsWordChar(env.input[cptr - 1]);
      }
      if cptr < |env.input| {
        v2 := IsWordChar(env.input[cptr]);
      }
      ok := (v1 != v2) == (opcode == 17);
    }
  }

  // One straight-line instruction.
  method TestSimple(code: seq<byte>, pc: int, env: Env, cptr: int, ghost i: Instr)
    returns (ok: bool, next: int, pos: int)
    requires Decode(code, pc) == Some(i) && (IsCharOp(i) || IsAssertOp(i)) && RangesOk(i)
    requires 0 <= cptr <= |env.input|
    ensures SimpleStep(env, i, cptr) == if ok then Moved(pos) else Blocked
    ensures ok ==> next == pc + i.Size()
  {
    hide Decode;
    hide CharOpAccepts;
    hide AssertOpHolds;
    Fields(code, pc, i);
    var opcode := code[pc];
    pos, next, ok := cptr, pc, false;
    if opcode == 5 || opcode == 6 || opcode == 17 || opcode == 18 {
      ok := TestAssert(code, pc, env, cptr, i);
      next := pc + 1;
    } else if cptr < |env.input| {
      var size;
      ok, size := TestChar(code, pc, env.input[cptr], i);
      next, pos := pc + size, cptr + 1;
    }
  }

  // ----- The nested call that runs the atom of a simple greedy quantifier -----

  lemma SimpleBoundary(p: Prog, body: seq<Instr>, pc: int, d: int) returns (i: Instr)
    requires ClosedProgram(p, body) && Target(body, pc, d)
    ensures p.fetch(pc) == Some(i) && RangesOk(i)
    ensures IsCharOp(i) || IsAssertOp(i) ==> Target(body, pc + i.Size(), d)
  {
    hide Target;
    hide ClosedProgram;
    hide Sorted;
    i := BoundaryInstr(p, body, pc, d);
  }

  lemma SimpleUnfold(p: Prog, pc: int, pos: int, i: Instr)
    requires SimpleRun(p, pc, pos) != Bad && p.fetch(pc) == Some(i)
    ensures 0 <= pos <= |p.env.input| && pc < p.size
    ensures i.IMatch? ==> SimpleRun(p, pc, pos) == Moved(pos)
    ensures !i.IMatch? ==> IsCharOp(i) || IsAssertOp(i)
    ensures !i.IMatch? ==> SimpleStep(p.env, i, pos) != Bad
    ensures !i.IMatch? && SimpleStep(p.env, i, pos).Moved?
        ==> SimpleRun(p, pc, pos) == SimpleRun(p, pc + i.Size(), SimpleStep(p.env, i, pos).pos)
    ensures !i.IMatch? && SimpleStep(p.env, i, pos).Blocked? ==> SimpleRun(p, pc, pos) == Blocked
  {
    hide CharOpAccepts;
    hide AssertOpHolds;
  }

  // lre_exec_backtrack with no_recurse set: the end of the run, or -1 where the source returns 0.
  method RunSimple(code: seq<byte>, env: Env, pc0: int, cptr0: int, ghost body: seq<Instr>, ghost d: int)
    returns (res: int)
    requires ClosedProgram(Prog(Fetcher(code), |code|, env, None), body) && Target(body, pc0, d)
    requires SimpleRun(Prog(Fetcher(code), |code|, env, None), pc0, cptr0) != Bad
    ensures SimpleRun(Prog(Fetcher(code), |code|, env, None), pc0, cptr0) == if res >= 0 then Moved(res) else Blocked
  {
    hide Target;
    hide ClosedProgram;
    hide SimpleRun;
    hide SimpleStep;
    hide Decode;
    hide RangesOk;
    ghost var p := Prog(Fetcher(code), |code|, env, None);
    var pc, cptr := pc0, cptr0;
    while true
      invariant Target(body, pc, d)
      invariant SimpleRun(p, pc, cptr) != Bad && SimpleRun(p, pc, cptr) == SimpleRun(p, pc0, cptr0)
      decreases |code| - pc
    {
      ghost var i := SimpleBoundary(p, body, pc, d);
      SimpleUnfold(p, pc, cptr, i);
      Fields(code, pc, i);
      if code[pc] == 10 {
        return cptr;
      }
      var ok, next, pos := TestSimple(code, pc, env, cptr, i);
      if !ok {
        return -1;
      }
      pc, cptr := next, pos;
    }
  }

  // ----- Repetition and comparison loops -----

  lemma GreedyUnfold(run: int -> Simple, limit: int, pos: int, q: int, max: int)
    requires GreedyRun(run, limit, pos, q, max).Some?
    ensures run(pos) != Bad
    ensures run(pos) == Blocked ==> GreedyRun(run, limit, pos, q, max) == Some((q, pos))
    ensures run(pos).Moved? ==> pos < run(pos).pos <= limit
    ensures run(pos).Moved? && q + 1 >= max && max != INT32_MAX
        ==> GreedyRun(run, limit, pos, q, max) == Some((q + 1, run(pos).pos))
    ensures run(pos).Moved? && !(q + 1 >= max && max != INT32_MAX)
        ==> GreedyRun(run, limit, pos, q, max) == GreedyRun(run, limit, run(pos).pos, q + 1, max)
  {
  }

  // The loop of REOP_simple_greedy_quant.
  method RunGreedy(code: seq<byte>, env: Env, pc1: int, cptr0: int, quantMax: int, ghost body: seq<Instr>, ghost d: int)
    returns (q: nat, cptr: int)
    requires ClosedProgram(Prog(Fetcher(code), |code|, env, None), body) && Target(body, pc1, d)
    requires GreedyRun(SimpleRunFn(Prog(Fetcher(code), |code|, env, None), pc1), |env.input|, cptr0, 0, quantMax).Some?
    ensures GreedyRun(SimpleRunFn(Prog(Fetcher(code), |code|, env, None), pc1), |env.input|, cptr0, 0, quantMax)
              == Some((q, cptr))
  {
    hide Target;
    hide ClosedProgram;
    hide SimpleRun;
    hide GreedyRun;
    ghost var p := Prog(Fetcher(code), |code|, env, None);
    ghost var run := SimpleRunFn(p, pc1);
    q, cptr := 0, cptr0;
    while true
      invariant GreedyRun(run, |env.input|, cptr, q, quantMax).Some?
      invariant GreedyRun(run, |env.input|, cptr, q, quantMax) == GreedyRun(run, |env.input|, cptr0, 0, quantMax)
      decreases |env.input| - cptr
    {
      GreedyUnfold(run, |env.input|, cptr, q, quantMax);
      assert run(cptr) == SimpleRun(p, pc1, cptr);
      var res := RunSimple(code, env, pc1, cptr, body, d);
      if res < 0 {
        break;
      }
      cptr := res;
      q := q + 1;
      if q >= quantMax && quantMax != INT32_MAX {
        break;
      }
    }
  }

  method MatchForward(env: Env, lo: int, hi: int, cptr0: int) returns (ok: bool, cptr: int)
    requires 0 <= lo && hi <= |env.input| && 0 <= cptr0 <= |env.input|
    ensures CompareForward(env.input, lo, hi, cptr0) == if ok then Some(cptr) else None
    ensures ok ==> 0 <= cptr <= |env.input|
  {
    cptr := cptr0;
    var cptr1 := lo;
    while cptr1 < hi
      invariant lo <= cptr1 && 0 <= cptr <= |env.input|
      invariant CompareForward(env.input, lo, hi, cptr0) == CompareForward(env.input, cptr1, hi, cptr)
    {
      if cptr >= |env.input| {
        return false, cptr;
      }
      var c1 := env.input[cptr1];
      var c2 := env.input[cptr];
      if c1 != c2 {
        return false, cptr;
      }
      cptr1 := cptr1 + 1;
      cptr := cptr + 1;
    }
    ok := true;
  }

  method MatchBackward(env: Env, lo: int, hi: int, cptr0: int) returns (ok: bool, cptr: int)
    requires 0 <= lo && hi <= |env.input| && 0 <= cptr0 <= |env.input|
    ensures CompareBackward(env.input, lo, hi, cptr0) == if ok then Some(cptr) else None
    ensures ok ==> 0 <= cptr <= |env.input|
  {
    cptr := cptr0;
    var cptr1 := hi;
    while cptr1 > lo
      invariant cptr1 <= hi && 0 <= cptr <= |env.input|
      invariant CompareBackward(env.input, lo, hi, cptr0) == CompareBackward(env.input, lo, cptr1, cptr)
    {
      if cptr == 0 {
        return false, cptr;
      }
      var c1 := env.input[cptr1 - 1];
      var c2 := env.input[cptr - 1];
      if c1 != c2 {
        return false, cptr;
      }
      cptr1 := cptr1 - 1;
      cptr := cptr - 1;
    }
    ok := true;
  }

  // ----- The execution context -----

  datatype StateType = Split | Lookahead | NegativeLookahead | GreedyQuant

  function MakeState(kind: StateType, pc: int, st: St, stk: seq<int>, count: int): Saved {
    match kind
    case Split => SSplit(pc, st, stk)
    case Lookahead => SLook(false, pc, st, stk)
    case NegativeLookahead => SLook(true, pc, st, stk)
    case GreedyQuant => SGreedy(pc, count, st, stk)
  }

  // Registers point into the subject or are null.
  ghost predicate CapsOk(env: Env, cap: seq<int>) {
    |cap| == 2 * env.capCount && forall k :: 0 <= k < |cap| ==> NULL <= cap[k] <= |env.input|
  }

  ghost predicate StatesOk(env: Env, ss: seq<Saved>) {
    forall k :: 0 <= k < |ss| ==> CapsOk(env, ss[k].st.cap)
  }

  // Back references and greedy repetition, as the machine takes them.
  lemma StepBackRefIs(p: Prog, pc: int, st: St, stk: seq<int>, ss: seq<Saved>, i: Instr)
    requires p.fetch(pc) == Some(i) && i.IBackRef? && 0 <= st.pos <= |p.env.input|
    requires CapsOk(p.env, st.cap) && i.n >= 0
    ensures Step(p, Run(pc, st, stk, ss)) ==
            if i.n >= p.env.capCount then Fail(ss)
            else
              var lo, hi := st.cap[2 * i.n], st.cap[2 * i.n + 1];
              var to := if lo == NULL || hi == NULL then Some(st.pos)
                        else if i.backward then CompareBackward(p.env.input, lo, hi, st.pos)
                        else CompareForward(p.env.input, lo, hi, st.pos);
              if to.Some? then Run(pc + 2, st.(pos := to.value), stk, ss) else Fail(ss)
  {
  }

  lemma StepGreedyIs(p: Prog, pc: int, st: St, stk: seq<int>, ss: seq<Saved>, i: Instr)
    requires p.fetch(pc) == Some(i) && i.IGreedy? && 0 <= st.pos <= |p.env.input|
    requires Step(p, Run(pc, st, stk, ss)) != Wrong
    ensures var res := GreedyRun(SimpleRunFn(p, pc + 17), |p.env.input|, st.pos, 0, i.max);
      res.Some? && var (q, pos) := res.value;
      Step(p, Run(pc, st, stk, ss)) ==
        if q < i.min then Fail(ss)
        else Run(pc + 17 + i.next, St(pos, st.cap), stk,
                 if q > i.min then ss + [SGreedy(pc + 1, q - i.min, St(pos, st.cap), stk)] else ss)
  {
    hide GreedyRun;
    hide SimpleRunFn;
  }

  lemma StepFailGreedyIs(p: Prog, rest: seq<Saved>, top: Saved, i: Instr)
    requires top.SGreedy? && p.fetch(top.pc - 1) == Some(i) && i.IGreedy?
    ensures var back := St(top.st.pos - i.count, top.st.cap);
      StepFail(p, rest + [top])
      == Run(top.pc + 16 + i.next, back, top.stk,
             if top.count == 1 then rest else rest + [SGreedy(top.pc, top.count - 1, back, top.stk)])
  {
    assert (rest + [top])[..|rest|] == rest;
  }

  // What is left to do once an attempt has ended with result ret.
  ghost function Pending(ret: bool, st: St, ss: seq<Saved>): Vm {
    if ret then StepMatch(st, ss) else Fail(ss)
  }

  lemma PendingMatch(st: St, ss: seq<Saved>)
    requires ss != []
    ensures var top, rest := ss[|ss| - 1], ss[..|ss| - 1];
      Pending(true, st, ss) ==
        if !top.SLook? then Pending(true, st, rest)
        else if top.neg then Pending(false, st, rest)
        else Run(top.pc, St(top.st.pos, st.cap), top.stk, rest)
  {
  }

  ghost predicate Final(t: Vm) {
    t.Match? || t.NoMatch?
  }

  lemma {:induction false} Stuck(p: Prog, s: Vm, n: nat)
    requires s.Match? || s.NoMatch? || s.Wrong?
    ensures StepN(p, n, s) == s
  {
    if n > 0 {
      Stuck(p, s, n - 1);
    }
  }

  // A machine that will finish has a step left to take, and it is not a wrong one.
  lemma StepLeft(p: Prog, s: Vm, n: nat, final: Vm)
    requires StepN(p, n, s) == final && Final(final) && (s.Run? || s.Fail?)
    ensures n > 0 && Step(p, s) != Wrong && StepN(p, n - 1, Step(p, s)) == final
  {
    hide Step;
    if n > 0 && Step(p, s) == Wrong {
      Stuck(p, Wrong, n - 1);
    }
  }

  // The operand stack of a state on the right track fits.
  lemma StackFits(p: Prog, body: seq<Instr>, s: Vm)
    requires s.Run? && StackOk(p, body, s)
    ensures |s.stk| <= MaxDepth(body, 0)
  {
    hide Target;
    TargetBounded(body, s.pc, |s.stk|);
  }

  class REExecContext {
    const code: seq<byte>
    const env: Env
    const capture: array<int>
    const stack: array<int>
    var stackLen: nat
    var pc: int
    var cptr: int
    var stateStack: seq<Saved>

    constructor (code: seq<byte>, env: Env, capture: array<int>, stack: array<int>)
      ensures this.code == code && this.env == env && this.capture == capture && this.stack == stack
      ensures stackLen == 0 && pc == 0 && stateStack == []
    {
      this.code, this.env, this.capture, this.stack := code, env, capture, stack;
      stackLen, pc, cptr, stateStack := 0, 0, 0, [];
    }

    ghost function P(): Prog {
      Prog(Fetcher(code), |code|, env, None)
    }

    ghost predicate Valid()
      reads this, capture
    {
      && capture != stack && stackLen <= stack.Length
      && CapsOk(env, capture[..]) && StatesOk(env, stateStack)
    }

    // The state of the abstract machine.
    ghost function Here(): Vm
      requires stackLen <= stack.Length
      reads this, capture, stack
    {
      Run(pc, St(cptr, capture[..]), stack[..stackLen], stateStack)
    }

    // After an opcode that succeeded, or jumped to no_match.
    ghost function After(ok: bool): Vm
      requires stackLen <= stack.Length
      reads this, capture, stack
    {
      if ok then Here() else Fail(stateStack)
    }

    ghost predicate Executing(i: Instr)
      reads this, capture, stack
    {
      Valid() && Decode(code, pc) == Some(i) && Step(P(), Here()) != Wrong && 0 <= cptr <= |env.input|
    }

    // push_state
    method PushState(pc1: int, kind: StateType, count: int)
      requires Valid()
      modifies this`stateStack
      ensures Valid()
      ensures stateStack == old(stateStack) + [MakeState(kind, pc1, St(cptr, capture[..]), stack[..stackLen], count)]
    {
      var buf: seq<int> := [];
      var i := 0;
      while i < capture.Length
        invariant 0 <= i <= capture.Length && buf == capture[..i]
        modifies {}
      {
        buf := buf + [capture[i]];
        i := i + 1;
      }
      var stackBuf: seq<int> := [];
      i := 0;
      while i < stackLen
        invariant 0 <= i <= stackLen && stackBuf == stack[..i]
        modifies {}
      {
        stackBuf := stackBuf + [stack[i]];
        i := i + 1;
      }
      assert buf == capture[..];
      stateStack := stateStack + [MakeState(kind, pc1, St(cptr, buf), stackBuf, count)];
    }

    method StepSimple(ghost i: Instr) returns (ok: bool)
      requires Executing(i) && (IsCharOp(i) || IsAssertOp(i)) && RangesOk(i)
      modifies this`pc, this`cptr
      ensures Valid() && After(ok) == old(Step(P(), Here()))
    {
      hide Decode;
      hide SimpleStep;
      hide RangesOk;
      var next, pos;
      ok, next, pos := TestSimple(code, pc, env, cptr, i);
      if ok {
        pc, cptr := next, pos;
      }
    }

    method StepJump(ghost i: Instr) returns (ok: bool)
      requires Executing(i) && (i.IGoto? || i.ISplit? || i.ILook?)
      modifies this`pc, this`stateStack
      ensures Valid() && After(ok) == old(Step(P(), Here()))
    {
      hide Decode;
      Fields(code, pc, i);
      var opcode := code[pc];
      var val := Disp(code, pc + 1);
      pc := pc + 5;
      if opcode == 7 {
        pc := pc + val;
      } else if opcode == 9 {
        PushState(pc + val, Split, 0);
      } else if opcode == 8 {
        var pc1 := pc;
        pc := pc + val;
        PushState(pc1, Split, 0);
      } else {
        PushState(pc + val, if opcode == 23 then Lookahead else NegativeLookahead, 0);
      }
      ok := true;
    }

    method StepPush(ghost i: Instr) returns (ok: bool)
      requires Executing(i) && (i.IPushI32? || i.IPushCharPos?) && stackLen < stack.Length
      modifies this`pc, this`stackLen, stack
      ensures Valid() && After(ok) == old(Step(P(), Here()))
    {
      hide Decode;
      Fields(code, pc, i);
      ghost var stk := stack[..stackLen];
      if code[pc] == 15 {
        stack[stackLen] := GetU32(code, pc + 1);
        pc := pc + 5;
      } else {
        stack[stackLen] := cptr;
        pc := pc + 1;
      }
      stackLen := stackLen + 1;
      assert stack[..stackLen] == stk + [stack[stackLen - 1]];
      ok := true;
    }

    method StepTop(ghost i: Instr) returns (ok: bool)
      requires Executing(i) && (i.IDrop? || i.ILoop? || i.IBneCharPos?)
      modifies this`pc, this`stackLen, stack
      ensures Valid() && After(ok) == old(Step(P(), Here()))
    {
      hide Decode;
      Fields(code, pc, i);
      var opcode := code[pc];
      ghost var stk := stack[..stackLen];
      ok := true;
      if opcode == 16 {
        stackLen := stackLen - 1;
        pc := pc + 1;
        assert stack[..stackLen] == stk[..|stk| - 1];
      } else if opcode == 14 {
        var val := Disp(code, pc + 1);
        pc := pc + 5;
        stack[stackLen - 1] := stack[stackLen - 1] - 1;
        if stack[stackLen - 1] != 0 {
          pc := pc + val;
        }
        assert stack[..stackLen] == stk[|stk| - 1 := stk[|stk| - 1] - 1];
      } else {
        var val := Disp(code, pc + 1);
        pc := pc + 5;
        stackLen := stackLen - 1;
        if stack[stackLen] != cptr {
          pc := pc + val;
        }
        assert stack[..stackLen] == stk[..|stk| - 1];
      }
    }

    method StepSave(ghost i: Instr) returns (ok: bool)
      requires Executing(i) && (i.ISave? || i.ISaveReset?)
      modifies this`pc, capture
      ensures Valid() && After(ok) == old(Step(P(), Here()))
    {
      hide Decode;
      Fields(code, pc, i);
      var opcode := code[pc];
      ok := true;
      if opcode == 11 || opcode == 12 {
        var val: int := code[pc + 1];
        capture[2 * val + (opcode as int - 11)] := cptr;
        assert capture[..] == old(capture[..])[if i.end then 2 * i.n + 1 else 2 * i.n := cptr];
        pc := pc + 2;
      } else {
        ResetLoop(code[pc + 1], code[pc + 2]);
        pc := pc + 3;
      }
    }

    method ResetLoop(val0: int, val2: int)
      requires Valid() && 0 <= val0 && 2 * val2 + 1 < capture.Length
      modifies capture
      ensures Valid() && capture[..] == ResetRegisters(old(capture[..]), val0, val2)
    {
      var val := val0;
      while val <= val2
        invariant val0 <= val && (val <= val2 + 1 || val == val0)
        invariant forall k :: 0 <= k < capture.Length ==>
          capture[k] == if val0 <= k / 2 < val then NULL else old(capture[k])
      {
        capture[2 * val] := NULL;
        capture[2 * val + 1] := NULL;
        val := val + 1;
      }
      assert capture[..] == ResetRegisters(old(capture[..]), val0, val2);
    }

    method StepBackRef(ghost i: Instr) returns (ok: bool)
      requires Executing(i) && i.IBackRef?
      modifies this`pc, this`cptr
      ensures Valid() && After(ok) == old(Step(P(), Here()))
    {
      hide Decode;
      hide Step;
      Fields(code, pc, i);
      ghost var st := St(cptr, capture[..]);
      StepBackRefIs(P(), pc, st, stack[..stackLen], stateStack, i);
      var opcode := code[pc];
      var val := code[pc + 1];
      if 2 * val >= capture.Length {
        return false;
      }
      var start, end := capture[2 * val], capture[2 * val + 1];
      assert st.cap[2 * val] == start && st.cap[2 * val + 1] == end;
      ok := true;
      if start != NULL && end != NULL {
        var pos;
        if opcode == 19 {
          ok, pos := MatchForward(env, start, end, cptr);
        } else {
          ok, pos := MatchBackward(env, start, end, cptr);
        }
        if !ok {
          return;
        }
        cptr := pos;
      }
      pc := pc + 2;
    }

    method StepPrev(ghost i: Instr) returns (ok: bool)
      requires Executing(i) && i.IPrev?
      modifies this`pc, this`cptr
      ensures Valid() && After(ok) == old(Step(P(), Here()))
    {
      hide Decode;
      Fields(code, pc, i);
      if cptr == 0 {
        return false;
      }
      cptr := cptr - 1;
      pc := pc + 1;
      ok := true;
    }

    method StepGreedy(ghost i: Instr, ghost body: seq<Instr>) returns (ok: bool)
      requires Executing(i) && i.IGreedy?
      requires ClosedProgram(P(), body) && Target(body, pc + 17, stackLen)
      modifies this`pc, this`cptr, this`stateStack
      ensures Valid() && After(ok) == old(Step(P(), Here()))
    {
      hide Decode;
      hide Target;
      hide ClosedProgram;
      hide GreedyRun;
      hide SimpleRunFn;
      hide Step;
      hide GetU32;
      hide Disp;
      Fields(code, pc, i);
      StepGreedyIs(P(), pc, St(cptr, capture[..]), stack[..stackLen], stateStack, i);
      var nextPos, quantMin, quantMax := Disp(code, pc + 1), GetU32(code, pc + 5), GetU32(code, pc + 9);
      var pc1 := pc + 17;
      var q, pos := RunGreedy(code, env, pc1, cptr, quantMax, body, stackLen);
      if q < quantMin {
        return false;
      }
      cptr := pos;
      pc := pc1 + nextPos;
      if q > quantMin {
        PushState(pc1 - 16, GreedyQuant, q - quantMin);
      }
      ok := true;
    }

    // ----- Backtracking -----

    method RestoreStack(stk: seq<int>)
      requires Valid() && |stk| <= stack.Length
      modifies this`stackLen, stack
      ensures Valid() && stack[..stackLen] == stk
    {
      stackLen := |stk|;
      forall k | 0 <= k < |stk| {
        stack[k] := stk[k];
      }
    }

    method RestoreCapture(cap: seq<int>)
      requires Valid() && CapsOk(env, cap)
      modifies capture
      ensures Valid() && capture[..] == cap
    {
      forall k | 0 <= k < capture.Length {
        capture[k] := cap[k];
      }
    }

    // Resume the topmost pending state; its alternative has been used up.
    method PopState(restore: bool)
      requires Valid() && stateStack != [] && |stateStack[|stateStack| - 1].stk| <= stack.Length
      modifies this, capture, stack
      ensures Valid()
      ensures var top := old(stateStack[|stateStack| - 1]);
        Here() == Run(top.pc, St(top.st.pos, if restore then top.st.cap else old(capture[..])), top.stk,
                      old(stateStack[..|stateStack| - 1]))
    {
      var rs := stateStack[|stateStack| - 1];
      if restore {
        RestoreCapture(rs.st.cap);
      }
      pc := rs.pc;
      cptr := rs.st.pos;
      RestoreStack(rs.stk);
      stateStack := stateStack[..|stateStack| - 1];
    }

    // One repetition fewer.
    method PopGreedy(ghost i: Instr)
      requires Valid() && stateStack != [] && stateStack[|stateStack| - 1].SGreedy?
      requires |stateStack[|stateStack| - 1].stk| <= stack.Length
      requires Decode(code, stateStack[|stateStack| - 1].pc - 1) == Some(i) && i.IGreedy?
      modifies this, capture, stack
      ensures Valid() && Here() == old(StepFail(P(), stateStack))
    {
      hide Decode;
      hide StepFail;
      hide GetU32;
      hide Disp;
      hide StepInstr;
      var n := |stateStack| - 1;
      var rs := stateStack[n];
      ghost var rest := stateStack[..n];
      assert stateStack == rest + [rs];
      StepFailGreedyIs(P(), rest, rs, i);
      Fields(code, rs.pc - 1, i);
      RestoreCapture(rs.st.cap);
      RestoreStack(rs.stk);
      var charCount := GetU32(code, rs.pc + 12);
      cptr := GoBack(rs.st.pos, charCount);
      pc := rs.pc + 16 + Disp(code, rs.pc);
      OneLess(rs, cptr);
    }

    // Record the shorter repetition in the topmost state, or drop it.
    method OneLess(rs: Saved, cptr1: int)
      requires Valid() && stateStack != [] && stateStack[|stateStack| - 1] == rs && rs.SGreedy?
      modifies this`stateStack
      ensures Valid()
      ensures stateStack == old(stateStack[..|stateStack| - 1])
        + if rs.count == 1 then [] else [SGreedy(rs.pc, rs.count - 1, St(cptr1, rs.st.cap), rs.stk)]
    {
      var n := |stateStack| - 1;
      ghost var rest := stateStack[..n];
      var count := rs.count - 1;
      var less := SGreedy(rs.pc, count, St(cptr1, rs.st.cap), rs.stk);
      stateStack := stateStack[n := less];
      assert stateStack == rest + [less];
      if count == 0 {
        stateStack := stateStack[..n];
        assert stateStack == rest + [];
      }
    }

    method GoBack(from: int, charCount: nat) returns (pos: int)
      ensures pos == from - charCount
    {
      pos := from;
      var i := 0;
      while i < charCount
        invariant 0 <= i <= charCount && pos == from - i
      {
        pos := pos - 1;
        i := i + 1;
      }
    }

    // The machine is n steps from its final state, on boundaries of a closed program that fits.
    ghost predicate OnTrack(body: seq<Instr>, s: Vm, n: nat, final: Vm) {
      && ClosedProgram(P(), body) && MaxDepth(body, 0) <= stack.Length
      && StackOk(P(), body, s) && StepN(P(), n, s) == final && Final(final)
    }

    lemma StepOnTrack(body: seq<Instr>, s: Vm, n: nat, final: Vm)
      requires OnTrack(body, s, n, final) && (s.Run? || s.Fail?)
      ensures n > 0 && Step(P(), s) != Wrong && OnTrack(body, Step(P(), s), n - 1, final)
      ensures Step(P(), s).Run? ==> |Step(P(), s).stk| <= stack.Length
    {
      hide ClosedProgram;
      hide StackOk;
      hide Step;
      StepLeft(P(), s, n, final);
      StepKeepsStack(P(), body, s);
      if Step(P(), s).Run? {
        StackFits(P(), body, Step(P(), s));
      }
    }

    // From the label "recurse": pop pending states until one resumes, or return ret.
    method Backtrack(ret0: bool, ghost body: seq<Instr>, ghost n0: nat, ghost final: Vm)
      returns (done: bool, ret: bool, ghost n: nat)
      requires Valid() && OnTrack(body, Pending(ret0, St(cptr, capture[..]), stateStack), n0, final)
      modifies this, capture, stack
      ensures Valid() && n <= n0
      ensures done ==> final == if ret then Match(St(cptr, capture[..])) else NoMatch
      ensures !done ==> OnTrack(body, Here(), n, final)
    {
      hide OnTrack;
      hide Decode;
      ret, n := ret0, n0;
      while true
        invariant Valid() && n <= n0
        invariant OnTrack(body, Pending(ret, St(cptr, capture[..]), stateStack), n, final)
        decreases |stateStack|
      {
        if |stateStack| == 0 {
          FinishedTrack(body, ret, St(cptr, capture[..]), n, final);
          return true, ret, n;
        }
        var rs := stateStack[|stateStack| - 1];
        PendingTrack(body, ret, St(cptr, capture[..]), stateStack, n, final);
        if rs.SSplit? {
          if !ret {
            PopState(true);
            return false, ret, n - 1;
          }
        } else if rs.SGreedy? {
          if !ret {
            PopGreedy(Decode(code, rs.pc - 1).value);
            return false, ret, n - 1;
          }
        } else {
          n := if ret then n else n - 1;
          ret := ret != rs.neg;
          if ret {
            PopState(rs.neg);
            return false, ret, n;
          }
        }
        stateStack := stateStack[..|stateStack| - 1];
      }
    }

    lemma FinishedTrack(body: seq<Instr>, ret: bool, st: St, n: nat, final: Vm)
      requires OnTrack(body, Pending(ret, st, []), n, final)
      ensures final == if ret then Match(st) else NoMatch
    {
      hide ClosedProgram;
      if ret {
        Stuck(P(), Match(st), n);
      } else {
        StepOnTrack(body, Fail([]), n, final);
        Stuck(P(), NoMatch, n - 1);
      }
    }

    // What one turn of the unwinding loop does to the state of the machine.
    lemma PendingTrack(body: seq<Instr>, ret: bool, st: St, ss: seq<Saved>, n: nat, final: Vm)
      requires OnTrack(body, Pending(ret, st, ss), n, final) && ss != []
      ensures var top, rest := ss[|ss| - 1], ss[..|ss| - 1];
        && (ret && !top.SLook? ==> OnTrack(body, Pending(true, st, rest), n, final))
        && (ret && top.SLook? && top.neg ==> OnTrack(body, Pending(false, st, rest), n, final))
        && (ret && top.SLook? && !top.neg
            ==> OnTrack(body, Run(top.pc, St(top.st.pos, st.cap), top.stk, rest), n, final) &&
                |top.stk| <= stack.Length)
        && (!ret ==> n > 0)
        && (!ret && top.SLook? && !top.neg ==> OnTrack(body, Pending(false, st, rest), n - 1, final))
        && (!ret && (top.SSplit? || (top.SLook? && top.neg))
            ==> OnTrack(body, Run(top.pc, top.st, top.stk, rest), n - 1, final) && |top.stk| <= stack.Length)
        && (!ret && top.SGreedy?
            ==> OnTrack(body, StepFail(P(), ss), n - 1, final) && |top.stk| <= stack.Length
                && Decode(code, top.pc - 1).Some? && Decode(code, top.pc - 1).value.IGreedy?)
    {
      hide OnTrack;
      hide Decode;
      var top, rest := ss[|ss| - 1], ss[..|ss| - 1];
      if ret {
        PendingMatch(st, ss);
        if top.SLook? && !top.neg {
          RunFits(body, Run(top.pc, St(top.st.pos, st.cap), top.stk, rest), n, final);
        }
      } else {
        StepOnTrack(body, Fail(ss), n, final);
      }
    }

    lemma RunFits(body: seq<Instr>, s: Vm, n: nat, final: Vm)
      requires OnTrack(body, s, n, final) && s.Run?
      ensures |s.stk| <= stack.Length
    {
      hide ClosedProgram;
      StackFits(P(), body, s);
    }

    // One opcode other than REOP_match.
    method StepOpcode(ghost body: seq<Instr>, ghost i: Instr) returns (ok: bool)
      requires Executing(i) && !i.IMatch? && RangesOk(i)
      requires Effect(i) > 0 ==> stackLen < stack.Length
      requires i.IGreedy? ==> ClosedProgram(P(), body) && Target(body, pc + 17, stackLen)
      modifies this, capture, stack
      ensures Valid() && After(ok) == old(Step(P(), Here()))
    {
      hide Step;
      hide Decode;
      hide ClosedProgram;
      hide Target;
      hide RangesOk;
      Fields(code, pc, i);
      var opcode := code[pc];
      if opcode == 7 || opcode == 8 || opcode == 9 || opcode == 23 || opcode == 24 {
        ok := StepJump(i);
      } else if opcode == 15 || opcode == 25 {
        ok := StepPush(i);
      } else if opcode == 14 || opcode == 16 || opcode == 26 {
        ok := StepTop(i);
      } else if opcode == 11 || opcode == 12 || opcode == 13 {
        ok := StepSave(i);
      } else if opcode == 19 || opcode == 20 {
        ok := StepBackRef(i);
      } else if opcode == 27 {
        ok := StepPrev(i);
      } else if opcode == 28 {
        ok := StepGreedy(i, body);
      } else {
        ok := StepSimple(i);
      }
    }

    // What the opcode at a boundary needs is there.
    lemma BoundaryTrack(body: seq<Instr>, s: Vm, n: nat, final: Vm) returns (i: Instr)
      requires OnTrack(body, s, n, final) && s.Run?
      ensures Decode(code, s.pc) == Some(i) && 0 <= s.st.pos <= |env.input|
      ensures i.IMatch? ==> Step(P(), s) == Pending(true, s.st, s.ss)
      ensures !i.IMatch? ==> RangesOk(i)
      ensures Effect(i) > 0 ==> |s.stk| < stack.Length
      ensures i.IGreedy? ==> ClosedProgram(P(), body) && Target(body, s.pc + 17, |s.stk|)
    {
      hide ClosedProgram;
      hide Target;
      hide RangesOk;
      hide Decode;
      hide GreedyRun;
      hide SimpleRun;
      hide SimpleStep;
      hide BackRefMove;
      hide StepMatch;
      i := BoundaryInstr(P(), body, s.pc, |s.stk|);
      StepOnTrack(body, s, n, final);
      if Effect(i) > 0 {
        TargetBounded(body, s.pc + i.Size(), |s.stk| + Effect(i));
      }
    }

    lemma EnterTrack(body: seq<Instr>, s: Vm, final: Vm) returns (n: nat)
      requires ClosedProgram(P(), body) && MaxDepth(body, 0) <= stack.Length
      requires StackOk(P(), body, s) && Reaches(P(), s, final) && Final(final)
      ensures OnTrack(body, s, n, final)
    {
      hide ClosedProgram;
      n :| StepN(P(), n, s) == final;
    }

    // lre_exec_backtrack: returns whether the machine ends in a match, with its registers.
    method Execute(ghost body: seq<Instr>, ghost final: Vm) returns (ret: bool)
      requires Valid() && ClosedProgram(P(), body) && MaxDepth(body, 0) <= stack.Length
      requires StackOk(P(), body, Here()) && Reaches(P(), Here(), final) && Final(final)
      modifies this, capture, stack
      ensures Valid()
      ensures final == if ret then Match(St(cptr, capture[..])) else NoMatch
    {
      hide OnTrack;
      hide Step;
      hide Decode;
      hide ClosedProgram;
      hide Target;
      ghost var n := EnterTrack(body, Here(), final);
      var done;
      while true
        invariant Valid() && OnTrack(body, Here(), n, final)
        decreases n
      {
        ghost var i := BoundaryTrack(body, Here(), n, final);
        StepOnTrack(body, Here(), n, final);
        Fields(code, pc, i);
        if code[pc] == 10 {
          done, ret, n := Backtrack(true, body, n - 1, final);
          if done {
            return;
          }
        } else {
          var ok := StepOpcode(body, i);
          n := n - 1;
          if !ok {
            done, ret, n := Backtrack(false, body, n, final);
            if done {
              return;
            }
          }
        }
      }
    }
  }
}
