// The backtracking machine of lre_exec_backtrack (quickjs/libregexp.c) as a deterministic step
// function, and the vocabulary for describing what a piece of code does to it.

module RegexpVM {
  import opened Basics
  import opened RegexpCode
  import opened RegexpCompile
  import opened RegexpSemantics

  // Pending states, the last one on top.
  datatype Saved =
    | SSplit(pc: int, st: St, stk: seq<int>)
    | SLook(neg: bool, pc: int, st: St, stk: seq<int>)
    | SGreedy(pc: int, count: int, st: St, stk: seq<int>)

  // Running at pc; backtracking; finished; or off the rails (a malformed program).
  datatype Vm =
    | Run(pc: int, st: St, stk: seq<int>, ss: seq<Saved>)
    | Fail(ss: seq<Saved>)
    | Match(st: St)
    | NoMatch
    | Wrong

  // A program of the given length in bytes, with the subject it runs on. With a limit, only what
  // happens in executions that end within so many steps matters.
  datatype Prog = Prog(fetch: Fetch, size: int, env: Env, limit: Option<nat>)

  // Nothing is fetched beyond the end of the program.
  ghost predicate ProgOk(p: Prog) {
    forall pc :: p.fetch(pc).Some? ==> pc < p.size
  }

  // ----- Opcodes that look at characters -----

  // is_line_terminator
  predicate IsLineTerminator(c: int) {
    c == 0x0A || c == 0x0D || c == 0x2028 || c == 0x2029
  }

  // is_word_char
  predicate IsWordChar(c: int) {
    0x30 <= c <= 0x39 || 0x61 <= c <= 0x7A || 0x41 <= c <= 0x5A || c == 0x5F
  }

  // The interval list of a compiled class accepts c; an upper bound 0xFFFF in the last 16-bit
  // interval stands for infinity.
  ghost predicate PairsHit(pairs: seq<Pair>, c: int) {
    exists k :: 0 <= k < |pairs| && pairs[k].lo <= c <= pairs[k].hi
  }

  ghost predicate RangeHit(pairs: seq<Pair>, c: int) {
    PairsHit(pairs, c)
    || (pairs != [] && 0xFFFF <= c && pairs[0].lo <= c && pairs[|pairs| - 1].hi == 0xFFFF)
  }

  ghost predicate CharOpAccepts(i: Instr, c: int)
    requires IsCharOp(i)
  {
    match i
    case IChar(v) => v == c
    case IChar32(v) => v == c
    case IDot => !IsLineTerminator(c)
    case IAny => true
    case IRange(pairs) => RangeHit(pairs, c)
    case IRange32(pairs) => PairsHit(pairs, c)
  }

  predicate AssertOpHolds(env: Env, i: Instr, pos: int)
    requires IsAssertOp(i) && 0 <= pos <= |env.input|
  {
    match i
    case ILineStart => pos == 0 || (env.multiline && IsLineTerminator(env.input[pos - 1]))
    case ILineEnd => pos == |env.input| || (env.multiline && IsLineTerminator(env.input[pos]))
    case IWordBoundary(neg) =>
      var before := pos != 0 && IsWordChar(env.input[pos - 1]);
      var after := pos != |env.input| && IsWordChar(env.input[pos]);
      (before != after) != neg
  }

  // ----- Back references -----

  // Comparing the text from p to end with the input from pos on, character by character: where the
  // comparison ends, if all are equal.
  function CompareForward(input: seq<int>, p: int, end: int, pos: int): Option<int>
    decreases end - p
  {
    if p >= end then Some(pos)
    else if 0 <= p < |input| && 0 <= pos < |input| && input[p] == input[pos] then
      CompareForward(input, p + 1, end, pos + 1)
    else None
  }

  // Likewise from the end of the text to its start.
  function CompareBackward(input: seq<int>, start: int, p: int, pos: int): Option<int>
    decreases p - start
  {
    if p <= start then Some(pos)
    else if 0 < p <= |input| && 0 < pos <= |input| && input[p - 1] == input[pos - 1] then
      CompareBackward(input, start, p - 1, pos - 1)
    else None
  }

  // Where a back reference leads; a group that is not set is passed over.
  function BackRefMove(env: Env, n: int, backward: bool, st: St): Option<int> {
    if n < 0 || 2 * n + 1 >= |st.cap| then None
    else
      var start, end := st.cap[2 * n], st.cap[2 * n + 1];
      if start == NULL || end == NULL then Some(st.pos)
      else if backward then CompareBackward(env.input, start, end, st.pos)
      else CompareForward(env.input, start, end, st.pos)
  }

  // ----- Straight-line code -----

  // Outcome of running straight-line code up to its REOP_match (the no_recurse call).
  datatype Simple = Moved(pos: int) | Blocked | Bad

  ghost function SimpleStep(env: Env, i: Instr, pos: int): Simple
    requires 0 <= pos <= |env.input|
  {
    if IsCharOp(i) then
      if pos < |env.input| && CharOpAccepts(i, env.input[pos]) then Moved(pos + 1) else Blocked
    else if IsAssertOp(i) then
      if AssertOpHolds(env, i, pos) then Moved(pos) else Blocked
    else Bad
  }

  ghost function SimpleRun(p: Prog, pc: int, pos: int): Simple
    decreases p.size - pc
  {
    if pos < 0 || pos > |p.env.input| || pc >= p.size then Bad
    else
      match p.fetch(pc)
      case None => Bad
      case Some(i) =>
        if i.IMatch? then Moved(pos)
        else
          match SimpleStep(p.env, i, pos)
          case Moved(pos') => SimpleRun(p, pc + i.Size(), pos')
          case other => other
  }

  // The straight-line code at pc as a function of the position it starts from.
  ghost function SimpleRunFn(p: Prog, pc: int): int -> Simple {
    pos => SimpleRun(p, pc, pos)
  }

  // Repeat run from pos, with q rounds done: rounds and final position.
  ghost function GreedyRun(run: int -> Simple, limit: int, pos: int, q: int, max: int): Option<(int, int)>
    decreases limit - pos
  {
    match run(pos)
    case Bad => None
    case Blocked => Some((q, pos))
    case Moved(pos') =>
      if pos' <= pos || pos' > limit then None
      else if q + 1 >= max && max != INT32_MAX then Some((q + 1, pos'))
      else GreedyRun(run, limit, pos', q + 1, max)
  }

  // Discard alternatives down to the nearest look-around.
  function Unwind(ss: seq<Saved>): seq<Saved> {
    if ss == [] || ss[|ss| - 1].SLook? then ss else Unwind(ss[..|ss| - 1])
  }

  ghost function StepMatch(st: St, ss: seq<Saved>): Vm {
    var u := Unwind(ss);
    if u == [] then Match(st)
    else
      var top, rest := u[|u| - 1], u[..|u| - 1];
      if !top.SLook? then Wrong
      else if top.neg then Fail(rest)
      else Run(top.pc, St(top.st.pos, st.cap), top.stk, rest)
  }

  ghost function StepFail(p: Prog, ss: seq<Saved>): Vm {
    if ss == [] then NoMatch
    else
      var top, rest := ss[|ss| - 1], ss[..|ss| - 1];
      match top
      case SSplit(pc, st, stk) => Run(pc, st, stk, rest)
      case SLook(neg, pc, st, stk) => if neg then Run(pc, st, stk, rest) else Fail(rest)
      case SGreedy(pc, count, st, stk) =>
        // pc is the operand address of the quantifier; step one round back
        match p.fetch(pc - 1)
        case Some(IGreedy(next, _, _, chars)) =>
          var back := st.(pos := st.pos - chars);
          var rest' := if count == 1 then rest else rest + [SGreedy(pc, count - 1, back, stk)];
          Run(pc + 16 + next, back, stk, rest')
        case _ => Wrong
  }

  // The registers of groups lo to hi are cleared.
  function ResetRegisters(cap: seq<int>, lo: int, hi: int): seq<int> {
    seq(|cap|, k requires 0 <= k < |cap| => if lo <= k / 2 <= hi then NULL else cap[k])
  }

  ghost function StepInstr(p: Prog, i: Instr, pc: int, st: St, stk: seq<int>, ss: seq<Saved>): Vm {
    var env, next, d := p.env, pc + i.Size(), |stk|;
    if st.pos < 0 || st.pos > |env.input| then Wrong
    else if IsCharOp(i) || IsAssertOp(i) then
      match SimpleStep(env, i, st.pos)
      case Moved(pos) => Run(next, st.(pos := pos), stk, ss)
      case _ => Fail(ss)
    else
      match i
      case IGoto(off) => Run(next + off, st, stk, ss)
      case ISplit(nextFirst, off) =>
        if nextFirst then Run(next, st, stk, ss + [SSplit(next + off, st, stk)])
        else Run(next + off, st, stk, ss + [SSplit(next, st, stk)])
      case IMatch => StepMatch(st, ss)
      case ISave(end, n) =>
        if n < 0 || 2 * n + 1 >= |st.cap| then Wrong
        else if end then Run(next, st.(cap := st.cap[2 * n + 1 := st.pos]), stk, ss)
        else Run(next, st.(cap := st.cap[2 * n := st.pos]), stk, ss)
      case ISaveReset(lo, hi) =>
        if 2 * hi + 1 < |st.cap| then Run(next, st.(cap := ResetRegisters(st.cap, lo, hi)), stk, ss) else Wrong
      case ILoop(off) =>
        if d == 0 then Wrong
        else
          var stk' := stk[d - 1 := stk[d - 1] - 1];
          Run(if stk[d - 1] - 1 != 0 then next + off else next, st, stk', ss)
      case IPushI32(v) => Run(next, st, stk + [v], ss)
      case IDrop => if d == 0 then Wrong else Run(next, st, stk[..d - 1], ss)
      case IBackRef(backward, n) =>
        (match BackRefMove(env, n, backward, st)
         case None => Fail(ss)
         case Some(pos) => Run(next, st.(pos := pos), stk, ss))
      case ILook(neg, off) => Run(next, st, stk, ss + [SLook(neg, next + off, st, stk)])
      case IPushCharPos => Run(next, st, stk + [st.pos], ss)
      case IBneCharPos(off) =>
        if d == 0 then Wrong
        else Run(if stk[d - 1] != st.pos then next + off else next, st, stk[..d - 1], ss)
      case IPrev => if st.pos == 0 then Fail(ss) else Run(next, st.(pos := st.pos - 1), stk, ss)
      case IGreedy(nextPos, min, max, _) =>
        match GreedyRun(SimpleRunFn(p, next), |env.input|, st.pos, 0, max)
        case None => Wrong
        case Some((q, pos)) =>
          if q < min then Fail(ss)
          else
            var end := st.(pos := pos);
            Run(next + nextPos, end, stk, if q > min then ss + [SGreedy(pc + 1, q - min, end, stk)] else ss)
  }

  // One turn of the machine.
  ghost function Step(p: Prog, s: Vm): Vm {
    match s
    case Run(pc, st, stk, ss) =>
      (match p.fetch(pc)
       case None => Wrong
       case Some(i) => StepInstr(p, i, pc, st, stk, ss))
    case Fail(ss) => StepFail(p, ss)
    case _ => s
  }

  ghost function StepN(p: Prog, n: nat, s: Vm): Vm {
    if n == 0 then s else StepN(p, n - 1, Step(p, s))
  }

  ghost predicate Reaches(p: Prog, s: Vm, t: Vm) {
    exists n: nat :: StepN(p, n, s) == t
  }

  lemma ReachesSelf(p: Prog, s: Vm)
    ensures Reaches(p, s, s)
  {
    assert StepN(p, 0, s) == s;
  }

  lemma {:induction false} StepNAdd(p: Prog, m: nat, n: nat, s: Vm)
    ensures StepN(p, m + n, s) == StepN(p, n, StepN(p, m, s))
  {
    if m > 0 {
      StepNAdd(p, m - 1, n, Step(p, s));
    }
  }

  lemma ReachesTrans(p: Prog, s: Vm, t: Vm, u: Vm)
    requires Reaches(p, s, t) && Reaches(p, t, u)
    ensures Reaches(p, s, u)
  {
    var m: nat :| StepN(p, m, s) == t;
    var n: nat :| StepN(p, n, t) == u;
    StepNAdd(p, m, n, s);
  }

  lemma ReachesStep(p: Prog, s: Vm, u: Vm)
    requires Reaches(p, Step(p, s), u)
    ensures Reaches(p, s, u)
  {
    var n: nat :| StepN(p, n, Step(p, s)) == u;
    assert StepN(p, n + 1, s) == u;
  }

  // ----- Executions that end -----

  ghost predicate Stopped(s: Vm) {
    s.Match? || s.NoMatch? || s.Wrong?
  }

  lemma {:induction false} StoppedStays(p: Prog, n: nat, s: Vm)
    requires Stopped(s)
    ensures StepN(p, n, s) == s
    decreases n
  {
    if n > 0 {
      StoppedStays(p, n - 1, s);
    }
  }

  lemma StoppedLater(p: Prog, m: nat, n: nat, s: Vm)
    requires Stopped(StepN(p, m, s)) && m <= n
    ensures StepN(p, n, s) == StepN(p, m, s)
  {
    StepNAdd(p, m, n - m, s);
    StoppedStays(p, n - m, StepN(p, m, s));
  }

  // What happens from s matters: there is no limit, or it is kept.
  ghost predicate Counts(p: Prog, s: Vm) {
    p.limit.Some? ==> Stopped(StepN(p, p.limit.value, s))
  }

  lemma CountsLater(p: Prog, s: Vm, t: Vm)
    requires Counts(p, s) && Reaches(p, s, t)
    ensures Counts(p, t)
  {
    if p.limit.Some? {
      var l := p.limit.value;
      var n: nat :| StepN(p, n, s) == t;
      StepNAdd(p, n, l, s);
      StoppedLater(p, l, n + l, s);
    }
  }

  lemma CountsNext(p: Prog, s: Vm)
    requires Counts(p, s)
    ensures Counts(p, Step(p, s))
  {
    ReachesSelf(p, Step(p, s));
    ReachesStep(p, s, Step(p, s));
    CountsLater(p, s, Step(p, s));
  }

  // ----- Enumerating successes -----

  // From s the machine arrives at exit with each of outs in turn, the operand stack being stk; every
  // time it backtracks from there it delivers the next one, and after the last it is left
  // backtracking with exactly the alternatives base.
  ghost predicate Yields(p: Prog, s: Vm, exit: int, stk: seq<int>, base: seq<Saved>, outs: seq<St>)
    decreases |outs|
  {
    Counts(p, s) ==>
      if outs == [] then Reaches(p, s, Fail(base))
      else exists ss: seq<Saved> :: YieldsVia(p, s, exit, stk, base, outs, ss)
  }

  // The first success arrives with the pending alternatives ss.
  ghost predicate YieldsVia(p: Prog, s: Vm, exit: int, stk: seq<int>, base: seq<Saved>, outs: seq<St>, ss: seq<Saved>)
    requires outs != []
    decreases |outs|, 0
  {
    && Reaches(p, s, Run(exit, outs[0], stk, ss))
    && Unwind(ss) == Unwind(base)
    && (Reaches(p, Run(exit, outs[0], stk, ss), Fail(ss)) ==> Yields(p, Fail(ss), exit, stk, base, outs[1..]))
  }

  lemma YieldsPrefix(p: Prog, s: Vm, t: Vm, exit: int, stk: seq<int>, base: seq<Saved>, outs: seq<St>)
    requires Reaches(p, s, t) && Yields(p, t, exit, stk, base, outs)
    ensures Yields(p, s, exit, stk, base, outs)
  {
    if !Counts(p, s) {
    } else if outs == [] {
      CountsLater(p, s, t);
      ReachesTrans(p, s, t, Fail(base));
    } else {
      CountsLater(p, s, t);
      var ss := FirstYield(p, t, exit, stk, base, outs);
      ReachesTrans(p, s, t, Run(exit, outs[0], stk, ss));
      assert YieldsVia(p, s, exit, stk, base, outs, ss);
    }
  }

  lemma YieldsUncounted(p: Prog, s: Vm, exit: int, stk: seq<int>, base: seq<Saved>, outs: seq<St>)
    requires !Counts(p, s)
    ensures Yields(p, s, exit, stk, base, outs)
  {
  }

  lemma YieldsStep(p: Prog, s: Vm, exit: int, stk: seq<int>, base: seq<Saved>, outs: seq<St>)
    requires Yields(p, Step(p, s), exit, stk, base, outs)
    ensures Yields(p, s, exit, stk, base, outs)
  {
    ReachesSelf(p, Step(p, s));
    ReachesStep(p, s, Step(p, s));
    YieldsPrefix(p, s, Step(p, s), exit, stk, base, outs);
  }

  lemma YieldsNone(p: Prog, exit: int, stk: seq<int>, base: seq<Saved>)
    ensures Yields(p, Fail(base), exit, stk, base, [])
  {
    ReachesSelf(p, Fail(base));
  }

  lemma YieldsOne(p: Prog, exit: int, stk: seq<int>, base: seq<Saved>, x: St)
    ensures Yields(p, Run(exit, x, stk, base), exit, stk, base, [x])
  {
    ReachesSelf(p, Run(exit, x, stk, base));
    YieldsNone(p, exit, stk, base);
    assert [x][1..] == [];
    assert YieldsVia(p, Run(exit, x, stk, base), exit, stk, base, [x], base);
  }

  lemma FirstYield(p: Prog, s: Vm, exit: int, stk: seq<int>, base: seq<Saved>, outs: seq<St>) returns (ss: seq<Saved>)
    requires Yields(p, s, exit, stk, base, outs) && Counts(p, s) && outs != []
    ensures YieldsVia(p, s, exit, stk, base, outs, ss)
  {
    ss :| YieldsVia(p, s, exit, stk, base, outs, ss);
  }

  // First everything in a, then, starting from the failure that ends a, everything in b.
  lemma {:induction false} YieldsAppend(p: Prog, s: Vm, exit: int, stk: seq<int>,
                                        mid: seq<Saved>, base: seq<Saved>, a: seq<St>, b: seq<St>)
    requires Yields(p, s, exit, stk, mid, a)
    requires Reaches(p, s, Fail(mid)) ==> Yields(p, Fail(mid), exit, stk, base, b)
    requires Unwind(mid) == Unwind(base)
    ensures Yields(p, s, exit, stk, base, a + b)
    decreases |a|
  {
    hide Reaches;
    hide Counts;
    if !Counts(p, s) {
    } else if a == [] {
      assert a + b == b;
      YieldsPrefix(p, s, Fail(mid), exit, stk, base, b);
    } else {
      var ss := FirstYield(p, s, exit, stk, mid, a);
      var there := Run(exit, a[0], stk, ss);
      assert (a + b)[1..] == a[1..] + b;
      if Reaches(p, there, Fail(ss)) {
        ReachesTrans(p, s, there, Fail(ss));
        if Reaches(p, Fail(ss), Fail(mid)) {
          ReachesTrans(p, s, Fail(ss), Fail(mid));
        }
        YieldsAppend(p, Fail(ss), exit, stk, mid, base, a[1..], b);
      }
      assert YieldsVia(p, s, exit, stk, base, a + b, ss);
    }
  }

  // The code from m to exit turns each x into g(x).
  ghost predicate Continues(p: Prog, m: int, stkM: seq<int>, exit: int, stk: seq<int>, xs: seq<St>, g: St -> seq<St>) {
    forall x, ss :: x in xs ==> Yields(p, Run(m, x, stkM, ss), exit, stk, ss, g(x))
  }

  // Entered at pc, whatever alternatives are pending.
  ghost predicate Arrives(p: Prog, pc: int, st: St, stk: seq<int>, exit: int, eStk: seq<int>, outs: seq<St>) {
    forall ss :: Yields(p, Run(pc, st, stk, ss), exit, eStk, ss, outs)
  }

  lemma {:induction false} YieldsBind(p: Prog, s: Vm, m: int, stkM: seq<int>, exit: int, stk: seq<int>,
                                      base: seq<Saved>, xs: seq<St>, g: St -> seq<St>)
    requires Yields(p, s, m, stkM, base, xs)
    requires Continues(p, m, stkM, exit, stk, xs, g)
    ensures Yields(p, s, exit, stk, base, FlatMap(xs, g))
    decreases |xs|
  {
    hide Reaches;
    hide Counts;
    if Counts(p, s) && xs != [] {
      var ss := FirstYield(p, s, m, stkM, base, xs);
      var t := Run(m, xs[0], stkM, ss);
      assert Yields(p, t, exit, stk, ss, g(xs[0]));
      if Reaches(p, t, Fail(ss)) {
        YieldsBind(p, Fail(ss), m, stkM, exit, stk, base, xs[1..], g);
      }
      YieldsAppend(p, t, exit, stk, ss, base, g(xs[0]), FlatMap(xs[1..], g));
      YieldsPrefix(p, s, t, exit, stk, base, FlatMap(xs, g));
    }
  }

  lemma UnwindPush(ss: seq<Saved>, x: Saved)
    requires !x.SLook?
    ensures Unwind(ss + [x]) == Unwind(ss)
  {
    assert (ss + [x])[..|ss|] == ss;
  }

  // ----- Blocks -----

  // Entered at pc in any valid state, the code enumerates f at exit and leaves the stack alone.
  ghost predicate BlockOk(p: Prog, pc: int, exit: int, f: St -> seq<St>) {
    forall st, stk, ss :: ValidSt(p.env, st) ==> Yields(p, Run(pc, st, stk, ss), exit, stk, ss, f(st))
  }

  // f never leaves the input.
  ghost predicate Closed(env: Env, f: St -> seq<St>) {
    forall st, x :: ValidSt(env, st) && x in f(st) ==> ValidSt(env, x)
  }

  lemma BlockContinues(p: Prog, m: int, exit: int, stk: seq<int>, xs: seq<St>, g: St -> seq<St>)
    requires BlockOk(p, m, exit, g)
    requires forall x :: x in xs ==> ValidSt(p.env, x)
    ensures Continues(p, m, stk, exit, stk, xs, g)
  {
  }

  lemma BlockSeq(p: Prog, pc: int, m: int, exit: int, f: St -> seq<St>, g: St -> seq<St>, h: St -> seq<St>)
    requires BlockOk(p, pc, m, f) && Closed(p.env, f) && BlockOk(p, m, exit, g)
    requires forall st :: h(st) == FlatMap(f(st), g)
    ensures BlockOk(p, pc, exit, h)
  {
    forall st, stk, ss | ValidSt(p.env, st)
      ensures Yields(p, Run(pc, st, stk, ss), exit, stk, ss, h(st))
    {
      BlockContinues(p, m, exit, stk, f(st), g);
      YieldsBind(p, Run(pc, st, stk, ss), m, stk, exit, stk, ss, f(st), g);
    }
  }

  // ----- Programs that differ in their limits -----

  ghost predicate SameMachine(p: Prog, q: Prog) {
    p.fetch == q.fetch && p.size == q.size && p.env.(rounds := q.env.rounds) == q.env
  }

  lemma {:induction false} SimpleRunSame(p: Prog, q: Prog, pc: int, pos: int)
    requires SameMachine(p, q)
    ensures SimpleRun(p, pc, pos) == SimpleRun(q, pc, pos)
    decreases p.size - pc
  {
    if 0 <= pos <= |p.env.input| && pc < p.size && p.fetch(pc).Some? && !p.fetch(pc).value.IMatch? {
      var i := p.fetch(pc).value;
      match SimpleStep(p.env, i, pos)
      case Moved(pos') => SimpleRunSame(p, q, pc + i.Size(), pos');
      case _ =>
    }
  }

  lemma {:induction false} GreedyRunSame(p: Prog, q: Prog, pc: int, limit: int, pos: int, n: int, max: int)
    requires SameMachine(p, q)
    ensures GreedyRun(SimpleRunFn(p, pc), limit, pos, n, max) == GreedyRun(SimpleRunFn(q, pc), limit, pos, n, max)
    decreases limit - pos
  {
    SimpleRunSame(p, q, pc, pos);
    match SimpleRunFn(p, pc)(pos)
    case Moved(pos') =>
      if pos < pos' <= limit && !(n + 1 >= max && max != INT32_MAX) {
        GreedyRunSame(p, q, pc, limit, pos', n + 1, max);
      }
    case _ =>
  }

  lemma StepSame(p: Prog, q: Prog, s: Vm)
    requires SameMachine(p, q)
    ensures Step(p, s) == Step(q, s)
  {
    hide GreedyRun;
    hide SimpleStep;
    hide BackRefMove;
    if s.Run? && p.fetch(s.pc).Some? {
      var i := p.fetch(s.pc).value;
      if i.IGreedy? {
        GreedyRunSame(p, q, s.pc + i.Size(), |p.env.input|, s.st.pos, 0, i.max);
      } else if 0 <= s.st.pos <= |p.env.input| {
        InstrSame(p.env, q.env, i, s.st);
      }
    }
  }

  lemma InstrSame(env: Env, env': Env, i: Instr, st: St)
    requires env.(rounds := env'.rounds) == env' && 0 <= st.pos <= |env.input|
    ensures SimpleStep(env, i, st.pos) == SimpleStep(env', i, st.pos)
    ensures i.IBackRef? ==> BackRefMove(env, i.n, i.backward, st) == BackRefMove(env', i.n, i.backward, st)
  {
  }

  lemma {:induction false} StepNSame(p: Prog, q: Prog, n: nat, s: Vm)
    requires SameMachine(p, q)
    ensures StepN(p, n, s) == StepN(q, n, s)
    decreases n
  {
    hide Step;
    if n > 0 {
      StepSame(p, q, s);
      StepNSame(p, q, n - 1, Step(p, s));
    }
  }

  lemma ReachesSame(p: Prog, q: Prog, s: Vm, t: Vm)
    requires SameMachine(p, q) && Reaches(p, s, t)
    ensures Reaches(q, s, t)
  {
    var n: nat :| StepN(p, n, s) == t;
    StepNSame(p, q, n, s);
  }

  // ----- Lower limits -----

  // Execution as it is.
  ghost predicate Unlimited(p: Prog) {
    p.limit.None? && p.env.rounds.None?
  }

  // Loops are cut off only where the limit is exceeded anyway.
  ghost predicate LimitsFit(p: Prog) {
    p.env.rounds.Some? ==> p.limit.Some? && p.limit.value <= p.env.rounds.value
  }

  // The limit less one step.
  ghost function Tighter(p: Prog): Prog
    requires p.limit.Some? && p.limit.value > 0
  {
    p.(limit := Some(p.limit.value - 1))
  }

  lemma CountsTighter(p: Prog, s: Vm)
    requires p.limit.Some? && p.limit.value > 0
    ensures Counts(Tighter(p), s) ==> Counts(p, s)
    ensures Counts(p, s) ==> Counts(Tighter(p), Step(p, s))
  {
    var q, l := Tighter(p), p.limit.value - 1;
    StepNSame(p, q, l, s);
    StepNSame(p, q, l, Step(p, s));
    if Stopped(StepN(p, l, s)) {
      StoppedLater(p, l, l + 1, s);
    }
  }

  // For executions that keep the lower limit, both limits say the same.
  lemma {:induction false} YieldsTighter(p: Prog, s: Vm, exit: int, stk: seq<int>, base: seq<Saved>, outs: seq<St>)
    requires p.limit.Some? && p.limit.value > 0
    ensures Yields(p, s, exit, stk, base, outs) ==> Yields(Tighter(p), s, exit, stk, base, outs)
    ensures Yields(Tighter(p), s, exit, stk, base, outs) && Counts(Tighter(p), s) ==>
            Yields(p, s, exit, stk, base, outs)
    decreases |outs|
  {
    var q := Tighter(p);
    CountsTighter(p, s);
    if Counts(q, s) {
      hide Counts;
      if outs == [] {
        if Reaches(p, s, Fail(base)) {
          ReachesSame(p, q, s, Fail(base));
        }
        if Reaches(q, s, Fail(base)) {
          ReachesSame(q, p, s, Fail(base));
        }
      } else {
        if Yields(p, s, exit, stk, base, outs) {
          var ss := FirstYield(p, s, exit, stk, base, outs);
          ViaTighter(p, q, s, exit, stk, base, outs, ss);
          assert YieldsVia(q, s, exit, stk, base, outs, ss);
        }
        if Yields(q, s, exit, stk, base, outs) {
          var ss := FirstYield(q, s, exit, stk, base, outs);
          ViaTighter(p, q, s, exit, stk, base, outs, ss);
          assert YieldsVia(p, s, exit, stk, base, outs, ss);
        }
      }
    }
  }

  lemma {:induction false} ViaTighter(p: Prog, q: Prog, s: Vm, exit: int, stk: seq<int>, base: seq<Saved>,
                                      outs: seq<St>, ss: seq<Saved>)
    requires p.limit.Some? && p.limit.value > 0 && q == Tighter(p) && outs != [] && Counts(q, s)
    ensures YieldsVia(p, s, exit, stk, base, outs, ss) <==> YieldsVia(q, s, exit, stk, base, outs, ss)
    decreases |outs|, 0
  {
    var t := Run(exit, outs[0], stk, ss);
    hide Counts;
    hide Reaches;
    hide Yields;
    BothReach(p, q, s, t);
    BothReach(p, q, t, Fail(ss));
    if Reaches(p, s, t) && Reaches(p, t, Fail(ss)) {
      CountsLater(q, s, t);
      CountsLater(q, t, Fail(ss));
    }
    YieldsTighter(p, Fail(ss), exit, stk, base, outs[1..]);
  }

  lemma BothReach(p: Prog, q: Prog, s: Vm, t: Vm)
    requires SameMachine(p, q)
    ensures Reaches(p, s, t) <==> Reaches(q, s, t)
  {
    hide Reaches;
    if Reaches(p, s, t) {
      ReachesSame(p, q, s, t);
    }
    if Reaches(q, s, t) {
      ReachesSame(q, p, s, t);
    }
  }

  lemma BlockTighter(p: Prog, pc: int, exit: int, f: St -> seq<St>)
    requires p.limit.Some? && p.limit.value > 0 && BlockOk(p, pc, exit, f)
    ensures BlockOk(Tighter(p), pc, exit, f)
  {
    hide Yields;
    forall st, stk, ss | ValidSt(p.env, st)
      ensures Yields(Tighter(p), Run(pc, st, stk, ss), exit, stk, ss, f(st))
    {
      YieldsTighter(p, Run(pc, st, stk, ss), exit, stk, ss, f(st));
    }
  }
}
