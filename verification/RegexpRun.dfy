// Whole runs: execution of a compiled pattern halts with the first success of the pattern, it
// accepts iff the language does, and the operand stack never leaves the bound computed for it.

module RegexpRun {
  import opened Basics
  import opened RegexpCode
  import opened RegexpCompile
  import opened RegexpSemantics
  import opened RegexpVM
  import opened RegexpBlocks
  import opened RegexpCorrect
  import opened RegexpTheorem
  import opened RegexpLanguage
  import opened RegexpClosed

  // ----- Outcome of a run -----

  function Init(env: Env, i: int): St {
    St(i, seq(2 * env.capCount, _ => NULL))
  }

  // The whole pattern is capture group 0.
  ghost function TopEnds(env: Env, r: Re, i: int): seq<St> {
    Ends(env, Capture(r), false, 0, Init(env, i))
  }

  ghost function Outcome(outs: seq<St>): Vm {
    if outs == [] then NoMatch else Match(outs[0])
  }

  // lre_compile accepted the pattern and the machine has room for its groups.
  ghost predicate Compiled(env: Env, r: Re) {
    WellFormed(r) && Supported(env, r, false, 1) && 1 + Caps(r) <= env.capCount && env.Valid()
  }

  lemma InitValid(env: Env, i: int)
    requires 0 <= i <= |env.input|
    ensures ValidSt(env, Init(env, i))
  {
  }

  lemma ProgramShape(r: Re, dotall: bool)
    ensures Program(r, dotall) == Compile(Capture(r), dotall, false, 0) + [IMatch]
  {
    assert Compile(Capture(r), dotall, false, 0) == [ISave(false, 0)] + Compile(r, dotall, false, 1) + [ISave(true, 0)];
  }

  // Reaching the final match with no look-around pending ends the run.
  lemma YieldsThenMatch(p: Prog, s: Vm, e: int, stk: seq<int>, base: seq<Saved>, outs: seq<St>)
    requires Yields(p, s, e, stk, base, outs) && p.fetch(e) == Some(IMatch)
    requires outs != [] && 0 <= outs[0].pos <= |p.env.input| && Unwind(base) == [] && Counts(p, s)
    ensures Reaches(p, s, Match(outs[0]))
  {
    var ss := FirstYield(p, s, e, stk, base, outs);
    var t := Run(e, outs[0], stk, ss);
    assert Step(p, t) == Match(outs[0]);
    ReachesSelf(p, Match(outs[0]));
    ReachesStep(p, t, Match(outs[0]));
    ReachesTrans(p, s, t, Match(outs[0]));
  }

  // Sticky execution halts and returns the first success at the starting position.
  lemma StickyRun(p: Prog, r: Re, i: int)
    requires ProgOk(p) && LimitsFit(p) && Compiled(p.env, r) && AtAll(p.fetch, 0, Program(r, p.env.dotall))
    requires 0 <= i <= |p.env.input| && Counts(p, Run(0, Init(p.env, i), [], []))
    ensures Reaches(p, Run(0, Init(p.env, i), [], []), Outcome(TopEnds(p.env, r, i)))
  {
    hide Yields;
    hide AtAll;
    hide TotalSize;
    hide Compile;
    hide Ends;
    var body := Compile(Capture(r), p.env.dotall, false, 0);
    ProgramShape(r, p.env.dotall);
    AtAllConcat(p.fetch, 0, body, [IMatch]);
    AtAllOne(p.fetch, TotalSize(body), IMatch);
    CompileOk(p, Capture(r), false, 0, 0);
    InitValid(p.env, i);
    FinishRun(p, r, 0, TotalSize(body), i, []);
  }

  lemma FinishRun(p: Prog, r: Re, pc: int, e: int, i: int, base: seq<Saved>)
    requires BlockOk(p, pc, e, EndsFn(p.env, Capture(r), false, 0)) && p.fetch(e) == Some(IMatch)
    requires ValidSt(p.env, Init(p.env, i)) && Unwind(base) == [] && Counts(p, Run(pc, Init(p.env, i), [], base))
    ensures TopEnds(p.env, r, i) != [] ==> Reaches(p, Run(pc, Init(p.env, i), [], base), Match(TopEnds(p.env, r, i)[0]))
    ensures TopEnds(p.env, r, i) == [] ==> Reaches(p, Run(pc, Init(p.env, i), [], base), Fail(base))
    ensures base == [] ==> Reaches(p, Run(pc, Init(p.env, i), [], base), Outcome(TopEnds(p.env, r, i)))
  {
    hide Ends;
    var s, outs := Run(pc, Init(p.env, i), [], base), TopEnds(p.env, r, i);
    assert Yields(p, s, e, [], base, EndsFn(p.env, Capture(r), false, 0)(Init(p.env, i)));
    if outs == [] {
      if base == [] {
        ReachesSelf(p, NoMatch);
        ReachesStep(p, Fail([]), NoMatch);
        ReachesTrans(p, s, Fail([]), NoMatch);
      }
    } else {
      EndsMove(p.env, Capture(r), false, 0, Init(p.env, i), outs[0]);
      YieldsThenMatch(p, s, e, [], base, outs);
    }
  }

  // Compiling and running preserves meaning: the machine halts, and it reports a match iff some
  // prefix of the rest of the input is in the language of the pattern.
  lemma StickyAccepts(p: Prog, r: Re, i: int) returns (t: Vm)
    requires ProgOk(p) && Compiled(p.env, r) && AtAll(p.fetch, 0, Program(r, p.env.dotall))
    requires Unlimited(p) && NoBackRef(r) && 0 <= i <= |p.env.input|
    ensures Reaches(p, Run(0, Init(p.env, i), [], []), t) && (t.Match? || t.NoMatch?)
    ensures t.Match? <==> Matches(p.env, r, i)
  {
    hide Reaches;
    hide AtAll;
    hide Compile;
    hide Matches;
    hide TopEnds;
    StickyRun(p, r, i);
    AcceptsIffLang(p.env, r, i);
    t := Outcome(TopEnds(p.env, r, i));
  }

  // Some text starting at i is in the language.
  ghost predicate Matches(env: Env, r: Re, i: int) {
    exists j :: Lang(env, r, i, j)
  }

  lemma CaptureLang(env: Env, r: Re, i: int, j: int)
    ensures Lang(env, Capture(r), i, j) <==> Lang(env, r, i, j)
  {
  }

  lemma AcceptsIffLang(env: Env, r: Re, i: int)
    requires WellFormed(r) && NoBackRef(r) && 0 <= i <= |env.input|
    ensures TopEnds(env, r, i) != [] <==> Matches(env, r, i)
  {
    hide Ends;
    hide Lang;
    InitValid(env, i);
    var outs := TopEnds(env, r, i);
    if outs != [] {
      var j := outs[0].pos;
      assert outs[0] in outs && Hits(outs, j);
      EndsHits(env, Capture(r), false, 0, Init(env, i), j);
      CaptureLang(env, r, i, j);
    }
    if Matches(env, r, i) {
      var j :| Lang(env, r, i, j);
      CaptureLang(env, r, i, j);
      EndsHits(env, Capture(r), false, 0, Init(env, i), j);
    }
  }

  // ----- Patterns that are not sticky -----

  // Successes at the first starting position >= i that has any.
  ghost function SearchEnds(env: Env, r: Re, i: int): seq<St>
    decreases |env.input| - i
  {
    if TopEnds(env, r, i) != [] || i >= |env.input| then TopEnds(env, r, i) else SearchEnds(env, r, i + 1)
  }

  lemma SearchLayout(p: Prog, r: Re)
    requires AtAll(p.fetch, 0, SEARCH_PREFIX + Program(r, p.env.dotall))
    ensures p.fetch(0) == Some(ISplit(false, 6)) && p.fetch(5) == Some(IAny) && p.fetch(6) == Some(IGoto(-11))
    ensures AtAll(p.fetch, 11, Compile(Capture(r), p.env.dotall, false, 0))
    ensures p.fetch(11 + TotalSize(Compile(Capture(r), p.env.dotall, false, 0))) == Some(IMatch)
  {
    hide AtAll;
    hide TotalSize;
    hide Compile;
    hide Program;
    var body, prog := Compile(Capture(r), p.env.dotall, false, 0), Program(r, p.env.dotall);
    assert SEARCH_PREFIX + prog == [ISplit(false, 6)] + ([IAny] + ([IGoto(-11)] + prog));
    AtAllCons(p.fetch, 0, ISplit(false, 6), [IAny] + ([IGoto(-11)] + prog));
    AtAllCons(p.fetch, 5, IAny, [IGoto(-11)] + prog);
    AtAllCons(p.fetch, 6, IGoto(-11), prog);
    ProgramShape(r, p.env.dotall);
    AtAllConcat(p.fetch, 11, body, [IMatch]);
    AtAllOne(p.fetch, 11 + TotalSize(body), IMatch);
  }

  // Without the sticky flag the machine returns the first success at the leftmost possible start.
  lemma SearchRun(p: Prog, r: Re, i: int)
    requires ProgOk(p) && LimitsFit(p) && Compiled(p.env, r)
    requires AtAll(p.fetch, 0, SEARCH_PREFIX + Program(r, p.env.dotall))
    requires 0 <= i <= |p.env.input| && Counts(p, Run(0, Init(p.env, i), [], []))
    ensures Reaches(p, Run(0, Init(p.env, i), [], []), Outcome(SearchEnds(p.env, r, i)))
  {
    hide AtAll;
    hide TotalSize;
    hide Compile;
    hide BlockOk;
    SearchLayout(p, r);
    CompileOk(p, Capture(r), false, 0, 11);
    SearchFrom(p, r, 11 + TotalSize(Compile(Capture(r), p.env.dotall, false, 0)), i);
  }

  lemma {:induction false} SearchFrom(p: Prog, r: Re, e: int, i: int)
    requires p.fetch(0) == Some(ISplit(false, 6)) && p.fetch(5) == Some(IAny) && p.fetch(6) == Some(IGoto(-11))
    requires BlockOk(p, 11, e, EndsFn(p.env, Capture(r), false, 0)) && p.fetch(e) == Some(IMatch)
    requires 0 <= i <= |p.env.input| && Counts(p, Run(0, Init(p.env, i), [], []))
    ensures Reaches(p, Run(0, Init(p.env, i), [], []), Outcome(SearchEnds(p.env, r, i)))
    decreases |p.env.input| - i
  {
    hide BlockOk;
    hide TopEnds;
    hide Reaches;
    var st, goal := Init(p.env, i), Outcome(SearchEnds(p.env, r, i));
    var alt := SSplit(5, st, []);
    var s, t := Run(0, st, [], []), Run(11, st, [], [] + [alt]);
    assert Step(p, s) == t;
    InitValid(p.env, i);
    UnwindPush([], alt);
    CountsNext(p, s);
    FinishRun(p, r, 11, e, i, [] + [alt]);
    if TopEnds(p.env, r, i) == [] {
      AfterFailure(p, i, alt);
      if i < |p.env.input| {
        CountsLater(p, t, Fail([] + [alt]));
        CountsLater(p, Fail([] + [alt]), Run(0, Init(p.env, i + 1), [], []));
        SearchFrom(p, r, e, i + 1);
        ReachesTrans(p, Fail([] + [alt]), Run(0, Init(p.env, i + 1), [], []), goal);
      }
      ReachesTrans(p, t, Fail([] + [alt]), goal);
    }
    ReachesStep(p, s, goal);
  }

  // A failed attempt at i moves on to i + 1, or gives up at the end of the input.
  lemma AfterFailure(p: Prog, i: int, alt: Saved)
    requires p.fetch(5) == Some(IAny) && p.fetch(6) == Some(IGoto(-11))
    requires 0 <= i <= |p.env.input| && alt == SSplit(5, Init(p.env, i), [])
    ensures Reaches(p, Fail([] + [alt]), if i < |p.env.input| then Run(0, Init(p.env, i + 1), [], []) else NoMatch)
  {
    var goal := if i < |p.env.input| then Run(0, Init(p.env, i + 1), [], []) else NoMatch;
    var f, a := Fail([] + [alt]), Run(5, Init(p.env, i), [], []);
    assert ([] + [alt])[..0] == [];
    assert Step(p, f) == a;
    SkipUnit(p, i);
    hide Step;
    ReachesStep(p, f, goal);
  }

  // The search prefix reads a character and starts again behind it, or fails at the end.
  lemma SkipUnit(p: Prog, i: int)
    requires p.fetch(5) == Some(IAny) && p.fetch(6) == Some(IGoto(-11)) && 0 <= i <= |p.env.input|
    ensures Reaches(p, Run(5, Init(p.env, i), [], []),
                    if i < |p.env.input| then Run(0, Init(p.env, i + 1), [], []) else NoMatch)
  {
    var a := Run(5, Init(p.env, i), [], []);
    if i < |p.env.input| {
      var b, goal := Run(6, Init(p.env, i + 1), [], []), Run(0, Init(p.env, i + 1), [], []);
      assert Step(p, a) == b;
      assert Step(p, b) == goal;
      ReachesSelf(p, goal);
      ReachesStep(p, b, goal);
      ReachesStep(p, a, goal);
    } else {
      assert Step(p, a) == Fail([]);
      assert Step(p, Fail([])) == NoMatch;
      ReachesSelf(p, NoMatch);
      ReachesStep(p, Fail([]), NoMatch);
      ReachesStep(p, a, NoMatch);
    }
  }

  // Some match starts at i, or at i or later when the pattern is not sticky.
  ghost predicate Accepts(env: Env, r: Re, sticky: bool, i: int) {
    if sticky then Matches(env, r, i) else exists k :: i <= k && Matches(env, r, k)
  }

  // Search accepts iff a match starts somewhere at or after i.
  lemma {:induction false} SearchIffLang(env: Env, r: Re, i: int)
    requires WellFormed(r) && NoBackRef(r) && 0 <= i <= |env.input|
    ensures SearchEnds(env, r, i) != [] <==> exists k :: i <= k && Matches(env, r, k)
    decreases |env.input| - i
  {
    hide TopEnds;
    hide Matches;
    AcceptsIffLang(env, r, i);
    if TopEnds(env, r, i) == [] {
      if i < |env.input| {
        SearchIffLang(env, r, i + 1);
      }
      forall k | i <= k && Matches(env, r, k) ensures i + 1 <= k <= |env.input| {
        MatchesInside(env, r, k);
      }
    }
  }

  lemma MatchesInside(env: Env, r: Re, k: int)
    requires Matches(env, r, k)
    ensures 0 <= k <= |env.input|
  {
    hide Lang;
    var j :| Lang(env, r, k, j);
    LangInside(env, r, k, j);
  }

  // ----- A lazy loop over an atom that can be empty never ends -----

  // (?:)*?b
  const LAZY_EMPTY: Re := Cat([Quant(Group(Cat([])), 0, INT32_MAX, false), Chr(0x62)])

  // Its code: split; goto split; char b.
  lemma LazyEmptyCode(env: Env)
    requires env.rounds.None?
    ensures WellFormed(LAZY_EMPTY) && !Supported(env, LAZY_EMPTY, false, 1)
    ensures Program(LAZY_EMPTY, false)
         == [ISave(false, 0), ISplit(false, 5), IGoto(-10), IChar(0x62), ISave(true, 0), IMatch]
  {
    var empty := Group(Cat([]));
    var loop, b := Quant(empty, 0, INT32_MAX, false), Chr(0x62);
    var ts := [loop, b];
    assert ts[..1] == [loop] && [loop][..0] == [];
    assert Compile(empty, false, false, 1) == [];
    assert Compile(loop, false, false, 1) == [ISplit(false, 5), IGoto(-10)];
    assert CapsAll([]) == 0 && CapsAll([loop]) == 0;
    assert CompileCat([loop], false, false, 1) == [] + Compile(loop, false, false, 1);
    assert CompileCat(ts, false, false, 1) == CompileCat([loop], false, false, 1) + Compile(b, false, false, 1);
    assert WellFormedAll([]) && WellFormedAll([loop]) && WellFormedAll(ts);
    LazyEmptyUnsafe(env, ts);
  }

  lemma LazyEmptyUnsafe(env: Env, ts: seq<Re>)
    requires ts == [Quant(Group(Cat([])), 0, INT32_MAX, false), Chr(0x62)] && env.rounds.None?
    ensures !SupportedAll(env, ts, false, 1)
  {
    var empty := Group(Cat([]));
    var loop := Quant(empty, 0, INT32_MAX, false);
    assert ts[..1] == [loop] && [loop][..0] == [];
    InitValid(env, 0);
    var st := Init(env, 0);
    assert st in EndsFn(env, empty, false, 1)(st) by {
      assert EndsCat(env, [], false, 1, st) == [st];
    }
    hide Ends;
    hide Compile;
    assert CapsAll([]) == 0;
    assert !LoopSafe(env, empty, false, 1, false);
    assert !Supported(env, loop, false, 1 + CapsAll([]));
    assert !SupportedAll(env, [loop], false, 1);
  }

  // On an input without a b the machine goes round the loop for ever.
  lemma {:induction false} LazyEmptyRunsForever(p: Prog, n: nat)
    requires AtAll(p.fetch, 0, Program(LAZY_EMPTY, false)) && Unlimited(p)
    requires p.env.input == [0x61] && p.env.capCount == 1
    ensures var s := StepN(p, n, Run(0, Init(p.env, 0), [], [])); s.Run? || s.Fail?
  {
    hide AtAll;
    LazyEmptyCode(p.env);
    LazyLayout(p);
    if n > 0 {
      var st := Init(p.env, 0).(cap := [0, NULL]);
      assert SetCap(Init(p.env, 0), 0) == st;
      assert Step(p, Run(0, Init(p.env, 0), [], [])) == Run(2, st, [], []);
      LazyCycle(p, n - 1, st, Run(2, st, [], []));
    }
  }

  lemma LazyLayout(p: Prog)
    requires AtAll(p.fetch, 0, [ISave(false, 0), ISplit(false, 5), IGoto(-10), IChar(0x62), ISave(true, 0), IMatch])
    ensures p.fetch(0) == Some(ISave(false, 0)) && p.fetch(2) == Some(ISplit(false, 5))
    ensures p.fetch(7) == Some(IGoto(-10)) && p.fetch(12) == Some(IChar(0x62))
  {
    hide AtAll;
    var tail := [ISave(true, 0), IMatch];
    assert [ISave(false, 0), ISplit(false, 5), IGoto(-10), IChar(0x62), ISave(true, 0), IMatch]
        == [ISave(false, 0)] + ([ISplit(false, 5)] + ([IGoto(-10)] + ([IChar(0x62)] + tail)));
    AtAllCons(p.fetch, 0, ISave(false, 0), [ISplit(false, 5)] + ([IGoto(-10)] + ([IChar(0x62)] + tail)));
    AtAllCons(p.fetch, 2, ISplit(false, 5), [IGoto(-10)] + ([IChar(0x62)] + tail));
    AtAllCons(p.fetch, 7, IGoto(-10), [IChar(0x62)] + tail);
    AtAllCons(p.fetch, 12, IChar(0x62), tail);
  }

  // Split, try b and fail, pop the split, go back: four states, no progress.
  ghost predicate InCycle(st: St, s: Vm) {
    || s == Run(2, st, [], [])
    || s == Run(12, st, [], [SSplit(7, st, [])])
    || s == Fail([SSplit(7, st, [])])
    || s == Run(7, st, [], [])
  }

  lemma {:induction false} LazyCycle(p: Prog, n: nat, st: St, s: Vm)
    requires p.fetch(2) == Some(ISplit(false, 5)) && p.fetch(7) == Some(IGoto(-10)) && p.fetch(12) == Some(IChar(0x62))
    requires p.env.input == [0x61] && st.pos == 0 && InCycle(st, s)
    ensures InCycle(st, StepN(p, n, s))
    decreases n
  {
    hide InCycle;
    hide Step;
    if n > 0 {
      LazyTurn(p, st, s);
      LazyCycle(p, n - 1, st, Step(p, s));
    }
  }

  lemma LazyTurn(p: Prog, st: St, s: Vm)
    requires p.fetch(2) == Some(ISplit(false, 5)) && p.fetch(7) == Some(IGoto(-10)) && p.fetch(12) == Some(IChar(0x62))
    requires p.env.input == [0x61] && st.pos == 0 && InCycle(st, s)
    ensures InCycle(st, Step(p, s))
  {
    assert [] + [SSplit(7, st, [])] == [SSplit(7, st, [])];
  }

  // ----- The operand stack -----

  // Every stored program counter is an instruction boundary, and its stack has the depth the
  // linear scan gives there.
  ghost predicate SavedOk(p: Prog, body: seq<Instr>, s: Saved) {
    match s
    case SSplit(pc, _, stk) => Target(body, pc, |stk|)
    case SLook(_, pc, _, stk) => Target(body, pc, |stk|)
    case SGreedy(pc, _, _, stk) =>
      match p.fetch(pc - 1)
      case Some(IGreedy(next, _, _, _)) => Target(body, pc + 16 + next, |stk|)
      case _ => false
  }

  ghost predicate AllSavedOk(p: Prog, body: seq<Instr>, ss: seq<Saved>) {
    forall k :: 0 <= k < |ss| ==> SavedOk(p, body, ss[k])
  }

  ghost predicate StackOk(p: Prog, body: seq<Instr>, s: Vm) {
    match s
    case Run(pc, _, stk, ss) => Target(body, pc, |stk|) && AllSavedOk(p, body, ss)
    case Fail(ss) => AllSavedOk(p, body, ss)
    case _ => true
  }

  // A program is a closed block followed by the final match.
  ghost predicate ClosedProgram(p: Prog, body: seq<Instr>) {
    ClosedBlock(body) && AtAll(p.fetch, 0, body + [IMatch])
  }

  lemma {:induction false} FetchAt(fetch: Fetch, base: int, b: seq<Instr>, t: nat)
    requires AtAll(fetch, base, b) && t < |b|
    ensures fetch(base + TotalSize(b[..t])) == Some(b[t])
    decreases t
  {
    if t > 0 {
      FetchAt(fetch, base + b[0].Size(), b[1..], t - 1);
      assert b[..t] == [b[0]] + b[1..][..t - 1];
      assert ([b[0]] + b[1..][..t - 1])[1..] == b[1..][..t - 1];
    }
  }

  lemma {:induction false} PartAt(b: seq<Instr>, c: seq<Instr>, pos: int, d: int, t: nat)
    requires PartOk(b, c, pos, d) && t < |c|
    ensures InstrOk(b, c[t], pos + TotalSize(c[..t]), d + Depth(c[..t]))
    ensures c[..t + 1] == c[..t] + [c[t]]
    decreases t
  {
    if t > 0 {
      PartAt(b, c[1..], pos + c[0].Size(), d + Effect(c[0]), t - 1);
      assert c[..t] == [c[0]] + c[1..][..t - 1];
      assert ([c[0]] + c[1..][..t - 1])[1..] == c[1..][..t - 1];
    }
  }

  // What is known of the instruction at a boundary: it is the final match, or part of the block
  // with its jump target and its successor again boundaries.
  lemma BoundaryInstr(p: Prog, body: seq<Instr>, pc: int, d: int) returns (i: Instr)
    requires ClosedProgram(p, body) && Target(body, pc, d)
    ensures p.fetch(pc) == Some(i)
    ensures i == IMatch || (InstrOk(body, i, pc, d) && Target(body, pc + i.Size(), d + Effect(i)))
  {
    hide PartOk;
    hide AtAll;
    hide TotalSize;
    hide Depth;
    hide InstrOk;
    var t :| 0 <= t <= |body| && TargetIs(body, t, pc, d);
    FetchAt(p.fetch, 0, body + [IMatch], t);
    assert (body + [IMatch])[..t] == body[..t];
    i := (body + [IMatch])[t];
    if t < |body| {
      NothingDeep();
      PartAt(body, body, 0, 0, t);
      TotalSizeConcat(body[..t], [body[t]]);
      DepthConcat(body[..t], [body[t]]);
      HeadOf(body[t]);
      assert TargetIs(body, t + 1, pc + i.Size(), d + Effect(i));
    }
  }

  lemma UnwindOk(p: Prog, body: seq<Instr>, ss: seq<Saved>)
    requires AllSavedOk(p, body, ss)
    ensures AllSavedOk(p, body, Unwind(ss))
  {
  }

  lemma PushOkSaved(p: Prog, body: seq<Instr>, ss: seq<Saved>, x: Saved)
    requires AllSavedOk(p, body, ss) && SavedOk(p, body, x)
    ensures AllSavedOk(p, body, ss + [x])
  {
  }

  // One turn of the machine keeps pcs on boundaries and the stack at the scanned depth.
  lemma StepKeepsStack(p: Prog, body: seq<Instr>, s: Vm)
    requires ClosedProgram(p, body) && StackOk(p, body, s)
    ensures StackOk(p, body, Step(p, s))
  {
    hide Target;
    hide ClosedProgram;
    match s
    case Run(pc, st, stk, ss) =>
      var i := BoundaryInstr(p, body, pc, |stk|);
      if i.IMatch? {
        MatchKeepsStack(p, body, st, ss);
      } else {
        InstrKeepsStack(p, body, i, pc, st, stk, ss);
      }
    case Fail(ss) => FailKeepsStack(p, body, ss);
    case _ =>
  }

  lemma MatchKeepsStack(p: Prog, body: seq<Instr>, st: St, ss: seq<Saved>)
    requires AllSavedOk(p, body, ss)
    ensures StackOk(p, body, StepMatch(st, ss))
  {
    hide Target;
    UnwindOk(p, body, ss);
    var u := Unwind(ss);
    if u != [] {
      assert SavedOk(p, body, u[|u| - 1]);
    }
  }

  lemma FailKeepsStack(p: Prog, body: seq<Instr>, ss: seq<Saved>)
    requires AllSavedOk(p, body, ss)
    ensures StackOk(p, body, StepFail(p, ss))
  {
    hide Target;
    if ss != [] {
      var top, rest := ss[|ss| - 1], ss[..|ss| - 1];
      assert SavedOk(p, body, top);
      if top.SGreedy? {
        var chars := p.fetch(top.pc - 1).value.count;
        PushOkSaved(p, body, rest, SGreedy(top.pc, top.count - 1, top.st.(pos := top.st.pos - chars), top.stk));
      }
    }
  }

  lemma InstrKeepsStack(p: Prog, body: seq<Instr>, i: Instr, pc: int, st: St, stk: seq<int>, ss: seq<Saved>)
    requires p.fetch(pc) == Some(i) && !i.IMatch? && AllSavedOk(p, body, ss)
    requires InstrOk(body, i, pc, |stk|) && Target(body, pc + i.Size(), |stk| + Effect(i))
    ensures StackOk(p, body, StepInstr(p, i, pc, st, stk, ss))
  {
    hide Target;
    hide AllSavedOk;
    hide GreedyRun;
    hide RangesOk;
    hide SimpleStep;
    var next := pc + i.Size();
    match i
    case ISplit(nextFirst, off) =>
      PushOkSaved(p, body, ss, SSplit(if nextFirst then next + off else next, st, stk));
    case ILook(neg, off) => PushOkSaved(p, body, ss, SLook(neg, next + off, st, stk));
    case IGreedy(nextPos, min, max, _) =>
      var res := GreedyRun(SimpleRunFn(p, next), |p.env.input|, st.pos, 0, max);
      if res.Some? {
        PushOkSaved(p, body, ss, SGreedy(pc + 1, res.value.0 - min, st.(pos := res.value.1), stk));
      }
    case _ =>
  }

  // Depth at a boundary is within the maximum found by the scan.
  lemma {:induction false} DepthBounded(b: seq<Instr>, d: int, t: nat)
    requires t <= |b|
    ensures d + Depth(b[..t]) <= MaxDepth(b, d)
    decreases t
  {
    if t > 0 {
      DepthBounded(b[1..], d + Effect(b[0]), t - 1);
      assert b[..t][1..] == b[1..][..t - 1];
    } else {
      assert b[..0] == [];
    }
  }

  lemma TargetBounded(b: seq<Instr>, off: int, d: int)
    requires Target(b, off, d)
    ensures d <= MaxDepth(b, 0)
  {
    var t :| 0 <= t <= |b| && TargetIs(b, t, off, d);
    DepthBounded(b, 0, t);
  }

  // In every run of a compiled pattern, of any construct, the operand stack stays within the
  // size recorded in the header.
  lemma {:induction false} StackBounded(p: Prog, body: seq<Instr>, s: Vm, n: nat)
    requires ClosedProgram(p, body) && StackOk(p, body, s)
    ensures StackOk(p, body, StepN(p, n, s))
    ensures StepN(p, n, s).Run? ==> |StepN(p, n, s).stk| <= MaxDepth(body, 0)
    decreases n
  {
    hide ClosedProgram;
    hide Target;
    if n == 0 {
      if s.Run? {
        TargetBounded(body, s.pc, |s.stk|);
      }
    } else {
      StepKeepsStack(p, body, s);
      StackBounded(p, body, Step(p, s), n - 1);
    }
  }

  lemma ClosedPrefix()
    ensures ClosedBlock(SEARCH_PREFIX)
  {
    var w := SEARCH_PREFIX;
    assert w == [ISplit(false, 6), IAny, IGoto(-11)];
    assert w[1..] == [IAny, IGoto(-11)] && w[1..][1..] == [IGoto(-11)] && w[1..][1..][1..] == [];
    NothingDeep();
    TargetCut([], w);
    assert [] + w == w && w + [] == w;
    TargetCut(w, []);
    assert TotalSize(w) == 11 && Depth(w) == 0;
    assert PartOk(w, [], 11, 0);
    assert InstrOk(w, IGoto(-11), 6, 0);
    assert PartOk(w, [IGoto(-11)], 6, 0);
    assert PartOk(w, [IAny, IGoto(-11)], 5, 0);
  }

  // The programs lre_compile emits are closed, whatever the pattern uses.
  lemma ProgramClosed(p: Prog, r: Re, dotall: bool, sticky: bool) returns (body: seq<Instr>)
    requires WellFormed(r)
    requires AtAll(p.fetch, 0, (if sticky then [] else SEARCH_PREFIX) + Program(r, dotall))
    ensures ClosedProgram(p, body)
    ensures body + [IMatch] == (if sticky then [] else SEARCH_PREFIX) + Program(r, dotall)
    ensures forall st :: StackOk(p, body, Run(0, st, [], []))
  {
    hide AtAll;
    hide ClosedBlock;
    hide Target;
    ProgramShape(r, dotall);
    CompileClosed(Capture(r), dotall, false, 0);
    ClosedPrefix();
    NothingDeep();
    var prefix, rest := if sticky then [] else SEARCH_PREFIX, Compile(Capture(r), dotall, false, 0);
    ClosedConcat(prefix, rest);
    body := prefix + rest;
    assert body + [IMatch] == prefix + Program(r, dotall);
    assert [] + body == body;
    TargetCut([], body);
  }
}
