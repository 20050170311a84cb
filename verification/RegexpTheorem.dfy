// Main result about the compiler and the machine: the code of a tree enumerates its successes,
// hence execution halts and returns the first of them.

module RegexpTheorem {
  import opened Basics
  import opened CharRanges
  import opened RegexpCode
  import opened RegexpCompile
  import opened RegexpSemantics
  import opened RegexpVM
  import opened RegexpBlocks
  import opened RegexpGreedy
  import opened RegexpQuant
  import opened RegexpCorrect

  // ----- Straight-line atoms -----

  lemma {:induction false} SimpleCountConcat(a: seq<Instr>, b: seq<Instr>)
    ensures SimpleCount(a + b) == if SimpleCount(a) < 0 || SimpleCount(b) < 0 then -1
                                  else SimpleCount(a) + SimpleCount(b)
  {
    if a == [] {
      assert a + b == b;
    } else {
      SimpleCountConcat(a[1..], b);
      assert (a + b)[1..] == a[1..] + b;
    }
  }

  // Code that begins with anything but a character or an assertion is not straight-line.
  lemma NotSimple(i: Instr, b: seq<Instr>)
    requires !IsCharOp(i) && !IsAssertOp(i)
    ensures SimpleCount([i] + b) == -1
  {
  }

  lemma NotSimpleInside(a: seq<Instr>, i: Instr, b: seq<Instr>)
    requires !IsCharOp(i) && !IsAssertOp(i)
    ensures SimpleCount(a + ([i] + b)) == -1
  {
    NotSimple(i, b);
    SimpleCountConcat(a, [i] + b);
  }

  lemma {:induction false} LinRunConcat(env: Env, a: seq<Instr>, b: seq<Instr>, pos: int)
    requires SimpleCount(a) >= 0 && 0 <= pos <= |env.input|
    ensures LinRun(env, a + b, pos)
         == if LinRun(env, a, pos).Moved? then LinRun(env, b, LinRun(env, a, pos).pos) else LinRun(env, a, pos)
    decreases |a|
  {
    if a == [] {
      assert a + b == b;
    } else {
      assert (a + b)[1..] == a[1..] + b;
      var s := SimpleStep(env, a[0], pos);
      if s.Moved? {
        LinRunConcat(env, a[1..], b, s.pos);
      }
    }
  }

  // The only straight-line quantifiers: {0} of an atom without captures, {1} of straight-line code.
  lemma SimpleQuant(atom: seq<Instr>, lo: int, hi: int, min: int, max: int, greedy: bool)
    requires 0 <= min <= max <= INT32_MAX
    ensures SimpleCount(QuantCode(atom, lo, hi, min, max, greedy))
         == if max == 0 && lo == hi then 0
            else if min == 1 && max == 1 && !(greedy && SimpleCount(atom) > 0) then SimpleCount(atom)
            else -1
    ensures max == 0 && lo == hi ==> QuantCode(atom, lo, hi, min, max, greedy) == []
    ensures min == 1 && max == 1 && !(greedy && SimpleCount(atom) > 0) ==>
            QuantCode(atom, lo, hi, min, max, greedy) == atom
  {
    hide SimpleCount;
    hide TotalSize;
    hide CheckAdvance;
    var len: int := TotalSize(atom);
    var code, check := QuantCode(atom, lo, hi, min, max, greedy), greedy && CheckAdvance(atom) == 0;
    if greedy && max > 0 && SimpleCount(atom) > 0 {
      var i := IGreedy(len + 1, min, max, SimpleCount(atom));
      assert code == [i] + (atom + [IMatch]);
      NotSimple(i, atom + [IMatch]);
    } else if min == 0 {
      if lo != hi || max > 0 {
        NotSimpleHead(code);
      } else {
        assert code == [];
        SimpleNil();
      }
    } else if min == 1 && max == INT32_MAX && !check {
      assert code == atom + ([ISplit(!greedy, -(len + 5))] + []);
      NotSimpleInside(atom, ISplit(!greedy, -(len + 5)), []);
    } else if min > 1 {
      NotSimpleHead(code);
    } else if max > 1 {
      var tail := if max == INT32_MAX then StarCode(atom, greedy, check) else UpToCode(atom, max - 1, greedy);
      assert code == atom + tail;
      NotSimpleHead(tail);
      SimpleCountConcat(atom, tail);
    } else {
      assert code == atom + [];
      assert code == atom;
    }
  }

  lemma NotSimpleHead(code: seq<Instr>)
    requires code != [] && !IsCharOp(code[0]) && !IsAssertOp(code[0])
    ensures SimpleCount(code) == -1
  {
  }

  lemma SimpleNil()
    ensures SimpleCount([]) == 0
  {
  }

  // Backward, every character comes with steps to the left, so no straight-line code reads one.
  lemma {:induction false} BackwardNotSimple(r: Re, dotall: bool, cc: nat)
    requires WellFormed(r)
    ensures SimpleCount(Compile(r, dotall, true, cc)) <= 0
    decreases r, 1
  {
    hide Compile;
    match r
    case Group(b) =>
      CompileGroup(b, dotall, true, cc);
      BackwardNotSimple(b, dotall, cc);
    case Quant(b, min, max, greedy) =>
      BackwardNotSimple(b, dotall, cc);
      CompileQuant(r, dotall, true, cc);
      SimpleQuant(Compile(b, dotall, true, cc), cc, cc + Caps(b), min, max, greedy);
    case Cat(ts) =>
      CompileCatIs(ts, dotall, true, cc);
      BackwardNotSimpleCat(ts, dotall, cc);
    case Disj(ts) =>
      CompileDisjIs(ts, dotall, true, cc);
      BackwardNotSimpleDisj(ts, dotall, cc);
    case _ => BackwardLeaf(r, dotall, cc);
  }

  lemma CompileGroup(b: Re, dotall: bool, back: bool, cc: nat)
    ensures Compile(Group(b), dotall, back, cc) == Compile(b, dotall, back, cc)
  {
  }

  lemma CompileQuant(r: Re, dotall: bool, back: bool, cc: nat)
    requires r.Quant?
    ensures Compile(r, dotall, back, cc)
         == QuantCode(Compile(r.body, dotall, back, cc), cc, cc + Caps(r.body), r.min, r.max, r.greedy)
  {
  }

  lemma CompileCatIs(ts: seq<Re>, dotall: bool, back: bool, cc: nat)
    ensures Compile(Cat(ts), dotall, back, cc) == CompileCat(ts, dotall, back, cc)
  {
  }

  lemma CompileDisjIs(ts: seq<Re>, dotall: bool, back: bool, cc: nat)
    ensures Compile(Disj(ts), dotall, back, cc) == CompileDisj(ts, dotall, back, cc)
  {
  }

  lemma BackwardLeaf(r: Re, dotall: bool, cc: nat)
    requires !r.Group? && !r.Quant? && !r.Cat? && !r.Disj?
    ensures SimpleCount(Compile(r, dotall, true, cc)) <= 0
  {
    var c := Compile(r, dotall, true, cc);
    assert c == [c[0]] + c[1..];
    if !IsAssertOp(c[0]) {
      NotSimple(c[0], c[1..]);
    } else {
      assert c[1..] == [];
    }
  }

  lemma {:induction false} BackwardNotSimpleCat(ts: seq<Re>, dotall: bool, cc: nat)
    requires WellFormedAll(ts)
    ensures SimpleCount(CompileCat(ts, dotall, true, cc)) <= 0
    decreases ts, 0
  {
    hide Compile;
    if ts != [] {
      var n := |ts| - 1;
      BackwardNotSimpleCat(ts[..n], dotall, cc);
      BackwardNotSimple(ts[n], dotall, cc + CapsAll(ts[..n]));
      SimpleCountConcat(Compile(ts[n], dotall, true, cc + CapsAll(ts[..n])), CompileCat(ts[..n], dotall, true, cc));
    }
  }

  lemma DisjNotSimple(ts: seq<Re>, dotall: bool, back: bool, cc: nat)
    requires |ts| > 1
    ensures SimpleCount(CompileDisj(ts, dotall, back, cc)) == -1
  {
    NotSimpleHead(CompileDisj(ts, dotall, back, cc));
  }

  lemma {:induction false} BackwardNotSimpleDisj(ts: seq<Re>, dotall: bool, cc: nat)
    requires WellFormedAll(ts)
    ensures SimpleCount(CompileDisj(ts, dotall, true, cc)) <= 0
    decreases ts, 0
  {
    hide Compile;
    if |ts| == 1 {
      BackwardNotSimple(ts[0], dotall, cc + CapsAll(ts[..0]));
    } else if |ts| > 1 {
      DisjNotSimple(ts, dotall, true, cc);
    }
  }

  lemma LeafAccepts(env: Env, r: Re, k: int)
    requires env.Valid() && WellFormed(r) && (r.Chr? || r.Dot? || r.Class?)
    requires 0 <= k < |env.input|
    ensures IsCharOp(LeafOp(r, env.dotall))
    ensures CharOpAccepts(LeafOp(r, env.dotall), env.input[k]) <==> CharAccepts(env, r, env.input[k])
  {
    if r.Class? {
      RangeInstrAccepts(r.points, env.input[k]);
    }
  }

  function LeafOp(r: Re, dotall: bool): Instr {
    match r
    case Chr(c) => if c <= 0xFFFF then IChar(c) else IChar32(c)
    case Dot => if dotall then IAny else IDot
    case Class(points) => RangeInstr(points)
    case _ => IAny
  }

  // Straight-line code of an atom has exactly the successes of the atom.
  lemma {:induction false} SimpleEnds(env: Env, r: Re, cc: nat)
    requires env.Valid() && WellFormed(r)
    requires SimpleCount(Compile(r, env.dotall, false, cc)) >= 0
    ensures LinOk(env, Compile(r, env.dotall, false, cc), EndsFn(env, r, false, cc))
    ensures Caps(r) == 0
    decreases r, 1
  {
    hide LinEnds;
    hide Compile;
    forall st | ValidSt(env, st)
      ensures EndsFn(env, r, false, cc)(st) == LinEnds(env, Compile(r, env.dotall, false, cc), st)
    {
      assert EndsFn(env, r, false, cc)(st) == Ends(env, r, false, cc, st);
      SimpleEndsAt(env, r, cc, st);
    }
    var st := St(0, seq(2 * env.capCount, _ => NULL));
    SimpleEndsAt(env, r, cc, st);
  }

  lemma {:induction false} SimpleEndsAt(env: Env, r: Re, cc: nat, st: St)
    requires env.Valid() && WellFormed(r) && ValidSt(env, st)
    requires SimpleCount(Compile(r, env.dotall, false, cc)) >= 0
    ensures Ends(env, r, false, cc, st) == LinEnds(env, Compile(r, env.dotall, false, cc), st)
    ensures Caps(r) == 0
    decreases r, 0
  {
    hide LinEnds;
    hide LinRun;
    match r
    case Group(b) => SimpleEndsAt(env, b, cc, st);
    case Quant(_, _, _, _) => SimpleEndsQuant(env, r, cc, st);
    case Cat(ts) => SimpleEndsCat(env, ts, cc, st);
    case Disj(ts) => SimpleEndsDisj(env, ts, cc, st);
    case _ => SimpleEndsLeaf(env, r, cc, st);
  }

  lemma SimpleEndsLeaf(env: Env, r: Re, cc: nat, st: St)
    requires !r.Group? && !r.Quant? && !r.Cat? && !r.Disj?
    requires env.Valid() && WellFormed(r) && ValidSt(env, st)
    requires SimpleCount(Compile(r, env.dotall, false, cc)) >= 0
    ensures Ends(env, r, false, cc, st) == LinEnds(env, Compile(r, env.dotall, false, cc), st)
    ensures Caps(r) == 0
  {
    hide SimpleCount;
    if r.Capture? || r.Look? || r.BackRef? {
      LeafNotSimple(r, env.dotall, cc);
    } else {
      SimpleEndsOne(env, r, cc, st);
    }
  }

  lemma LeafNotSimple(r: Re, dotall: bool, cc: nat)
    requires r.Capture? || r.Look? || r.BackRef?
    ensures SimpleCount(Compile(r, dotall, false, cc)) == -1
  {
    NotSimpleHead(Compile(r, dotall, false, cc));
  }

  lemma SimpleEndsOne(env: Env, r: Re, cc: nat, st: St)
    requires r.Chr? || r.Dot? || r.Class? || r.LineStart? || r.LineEnd? || r.WordBoundary?
    requires env.Valid() && WellFormed(r) && ValidSt(env, st)
    ensures Ends(env, r, false, cc, st) == LinEnds(env, Compile(r, env.dotall, false, cc), st)
    ensures Caps(r) == 0
  {
    var c := Compile(r, env.dotall, false, cc);
    assert c == [c[0]];
    if (r.Chr? || r.Dot? || r.Class?) && st.pos < |env.input| {
      LeafAccepts(env, r, st.pos);
    }
    LinEndsOne(env, c[0], st);
  }

  lemma LinEndsOne(env: Env, i: Instr, st: St)
    requires ValidSt(env, st)
    ensures LinEnds(env, [i], st) == match SimpleStep(env, i, st.pos) case Moved(pos) => [st.(pos := pos)] case _ => []
  {
    var s := SimpleStep(env, i, st.pos);
    if s.Moved? {
      assert LinRun(env, [], s.pos) == Moved(s.pos);
      assert [i][1..] == [];
    }
  }

  lemma {:induction false} SimpleEndsQuant(env: Env, r: Re, cc: nat, st: St)
    requires r.Quant? && env.Valid() && WellFormed(r) && ValidSt(env, st)
    requires SimpleCount(Compile(r, env.dotall, false, cc)) >= 0
    ensures Ends(env, r, false, cc, st) == LinEnds(env, Compile(r, env.dotall, false, cc), st)
    ensures Caps(r) == 0
    decreases r, 0, 0
  {
    hide Compile;
    hide Ends;
    hide LinEnds;
    hide FlatMap;
    hide Exact;
    hide Rest;
    hide SimpleCount;
    var b, f := r.body, EndsFn(env, r.body, false, cc);
    CompileQuant(r, env.dotall, false, cc);
    SimpleQuant(Compile(b, env.dotall, false, cc), cc, cc + Caps(b), r.min, r.max, r.greedy);
    EndsQuant(env, r, false, cc, st);
    if r.max == 0 {
      NoRounds(env, f, r.greedy, st);
    } else {
      SimpleEndsAt(env, b, cc, st);
      OneRound(env, f, r.greedy, st);
      assert f(st) == Ends(env, b, false, cc, st);
    }
  }

  // {0} and {1} as lists of successes.
  lemma NoRounds(env: Env, f: St -> seq<St>, greedy: bool, st: St)
    requires ValidSt(env, st)
    ensures FlatMap(Exact(f, 0, st), RestFn(env, f, false, 0, 0, greedy)) == [st]
    ensures LinEnds(env, [], st) == [st]
  {
    var rest := RestFn(env, f, false, 0, 0, greedy);
    FlatMapSingle(st, rest);
    assert rest(st) == Rest(env, f, false, 0, 0, greedy, st);
    assert LinRun(env, [], st.pos) == Moved(st.pos);
  }

  lemma OneRound(env: Env, f: St -> seq<St>, greedy: bool, st: St)
    ensures FlatMap(Exact(f, 1, st), RestFn(env, f, false, 1, 1, greedy)) == f(st)
  {
    var rest := RestFn(env, f, false, 1, 1, greedy);
    forall x ensures ExactFn(f, 0)(x) == [x] && rest(x) == [x] {
      assert ExactFn(f, 0)(x) == Exact(f, 0, x) && rest(x) == Rest(env, f, false, 1, 1, greedy, x);
    }
    hide FlatMap;
    assert Exact(f, 1, st) == FlatMap(f(st), ExactFn(f, 0));
    FlatMapUnit(f(st), ExactFn(f, 0));
    FlatMapUnit(f(st), rest);
  }

  lemma EndsQuant(env: Env, r: Re, back: bool, cc: nat, st: St)
    requires r.Quant? && 0 <= r.min
    ensures Ends(env, r, back, cc, st)
         == QuantFn(env, EndsFn(env, r.body, back, cc), back, cc, cc + Caps(r.body), r.min, r.max, r.greedy)(st)
  {
    hide FlatMap;
    hide Exact;
    hide Rest;
    hide ResetCaps;
    var b := r.body;
    var f := EndsFn(env, b, back, cc);
    assert (if r.min == 0 && Caps(b) > 0 then ResetCaps(st, cc, cc + Caps(b)) else st)
          == Start(r.min, cc, cc + Caps(b), st);
    assert Ends(env, r, back, cc, st)
        == FlatMap(Exact(f, r.min, Start(r.min, cc, cc + Caps(b), st)), RestFn(env, f, back, r.min, r.max, r.greedy));
  }

  lemma LinEndsConcat(env: Env, a: seq<Instr>, b: seq<Instr>, st: St, g: St -> seq<St>)
    requires SimpleCount(a) >= 0 && ValidSt(env, st)
    requires forall x :: ValidSt(env, x) ==> g(x) == LinEnds(env, b, x)
    ensures LinEnds(env, a + b, st) == FlatMap(LinEnds(env, a, st), g)
  {
    LinRunConcat(env, a, b, st.pos);
    LinRunMoves(env, a, st.pos);
    var r := LinRun(env, a, st.pos);
    if r.Moved? {
      FlatMapSingle(st.(pos := r.pos), g);
    }
  }

  lemma {:induction false} SimpleEndsCat(env: Env, ts: seq<Re>, cc: nat, st: St)
    requires env.Valid() && WellFormedAll(ts) && ValidSt(env, st)
    requires SimpleCount(CompileCat(ts, env.dotall, false, cc)) >= 0
    ensures EndsCat(env, ts, false, cc, st) == LinEnds(env, CompileCat(ts, env.dotall, false, cc), st)
    ensures CapsAll(ts) == 0
    decreases ts, 0
  {
    hide Compile;
    hide Ends;
    hide SimpleCount;
    if ts == [] {
      assert LinEnds(env, [], st) == [st];
    } else {
      hide LinEnds;
      hide FlatMap;
      hide LinRun;
      var n := |ts| - 1;
      var c1 := cc + CapsAll(ts[..n]);
      var init, last := CompileCat(ts[..n], env.dotall, false, cc), Compile(ts[n], env.dotall, false, c1);
      SimpleCountConcat(init, last);
      SimpleEndsCat(env, ts[..n], cc, st);
      SimpleEnds(env, ts[n], c1);
      LinEndsConcat(env, init, last, st, EndsFn(env, ts[n], false, c1));
    }
  }

  lemma {:induction false} SimpleEndsDisj(env: Env, ts: seq<Re>, cc: nat, st: St)
    requires env.Valid() && ts != [] && WellFormedAll(ts) && ValidSt(env, st)
    requires SimpleCount(CompileDisj(ts, env.dotall, false, cc)) >= 0
    ensures EndsDisj(env, ts, false, cc, st) == LinEnds(env, CompileDisj(ts, env.dotall, false, cc), st)
    ensures CapsAll(ts) == 0
    decreases ts, 0
  {
    hide Compile;
    hide Ends;
    hide LinEnds;
    hide SimpleCount;
    if |ts| == 1 {
      assert CapsAll(ts[..0]) == 0 && EndsDisj(env, ts[..0], false, cc, st) == [];
      SimpleEndsAt(env, ts[0], cc, st);
    } else {
      DisjNotSimple(ts, env.dotall, false, cc);
    }
  }

  // ----- The compiler is correct -----

  // Every unbounded loop is safe on this input.
  ghost predicate Supported(env: Env, r: Re, back: bool, cc: nat)
    decreases r, 1
  {
    match r
    case Group(b) => Supported(env, b, back, cc)
    case Capture(b) => Supported(env, b, back, cc + 1)
    case Look(_, behind, b) => Supported(env, b, behind, cc)
    case Quant(b, min, max, greedy) =>
      && Supported(env, b, back, cc)
      && (max == INT32_MAX ==> LoopSafe(env, b, back, cc, greedy))
    case Cat(ts) => SupportedAll(env, ts, back, cc)
    case Disj(ts) => SupportedAll(env, ts, back, cc)
    case _ => true
  }

  // Empty rounds are detected or impossible, or the loop is cut off anyway. Lazy loops get no
  // zero-advance check, nor do loops whose atom refers back to a group of its own.
  ghost predicate LoopSafe(env: Env, b: Re, back: bool, cc: nat, greedy: bool) {
    || (greedy && CheckAdvance(Compile(b, env.dotall, back, cc)) >= 0)
    || Strict(env, EndsFn(env, b, back, cc))
    || (!greedy && env.rounds.Some?)
  }

  ghost predicate SupportedAll(env: Env, ts: seq<Re>, back: bool, cc: nat)
    decreases ts, 0
  {
    ts == [] || (SupportedAll(env, ts[..|ts| - 1], back, cc)
                 && Supported(env, ts[|ts| - 1], back, cc + CapsAll(ts[..|ts| - 1])))
  }

  ghost predicate Ready(p: Prog) {
    ProgOk(p) && p.env.Valid() && LimitsFit(p)
  }

  // The code of r, wherever it is stored, delivers the successes of r in order.
  lemma {:induction false} CompileOk(p: Prog, r: Re, back: bool, cc: nat, pc: int)
    requires Ready(p) && WellFormed(r) && Supported(p.env, r, back, cc)
    requires cc + Caps(r) <= p.env.capCount
    requires AtAll(p.fetch, pc, Compile(r, p.env.dotall, back, cc))
    ensures BlockOk(p, pc, pc + TotalSize(Compile(r, p.env.dotall, back, cc)), EndsFn(p.env, r, back, cc))
    decreases r, 1
  {
    hide BlockOk;
    hide AtAll;
    hide TotalSize;
    match r
    case Group(b) =>
      CompileOk(p, b, back, cc, pc);
      GroupOk(p, b, back, cc, pc);
    case Capture(b) => CaptureOk(p, r, back, cc, pc);
    case Look(neg, behind, b) => LookaroundOk(p, r, back, cc, pc);
    case Quant(b, min, max, greedy) => QuantifierOk(p, r, back, cc, pc);
    case Cat(ts) =>
      CatOk(p, ts, back, cc, pc);
      CatFnOk(p, ts, back, cc, pc);
    case Disj(ts) =>
      DisjOk(p, ts, back, cc, pc);
      DisjFnOk(p, ts, back, cc, pc);
    case _ => LeafOk(p, r, back, cc, pc);
  }

  lemma GroupOk(p: Prog, b: Re, back: bool, cc: nat, pc: int)
    requires BlockOk(p, pc, pc + TotalSize(Compile(b, p.env.dotall, back, cc)), EndsFn(p.env, b, back, cc))
    ensures BlockOk(p, pc, pc + TotalSize(Compile(Group(b), p.env.dotall, back, cc)), EndsFn(p.env, Group(b), back, cc))
  {
    hide BlockOk;
    var f, g := EndsFn(p.env, b, back, cc), EndsFn(p.env, Group(b), back, cc);
    forall st ensures f(st) == g(st) {
      assert g(st) == Ends(p.env, Group(b), back, cc, st);
    }
    BlockSame(p, pc, pc + TotalSize(Compile(b, p.env.dotall, back, cc)), f, g);
  }

  lemma LeafOk(p: Prog, r: Re, back: bool, cc: nat, pc: int)
    requires r.Chr? || r.Dot? || r.Class? || r.LineStart? || r.LineEnd? || r.WordBoundary? || r.BackRef?
    requires Ready(p) && WellFormed(r)
    requires AtAll(p.fetch, pc, Compile(r, p.env.dotall, back, cc))
    ensures BlockOk(p, pc, pc + TotalSize(Compile(r, p.env.dotall, back, cc)), EndsFn(p.env, r, back, cc))
  {
    hide BlockOk;
    hide CharOpAccepts;
    hide CharAccepts;
    hide CharEnds;
    var f := EndsFn(p.env, r, back, cc);
    if r.Chr? || r.Dot? || r.Class? {
      forall k | 0 <= k < |p.env.input|
        ensures CharOpAccepts(LeafOp(r, p.env.dotall), p.env.input[k]) <==> CharAccepts(p.env, r, p.env.input[k])
      {
        LeafAccepts(p.env, r, k);
      }
      LeafAcceptsOp(r, p.env.dotall);
      forall st ensures f(st) == CharEnds(p.env, r, back, st) {
        assert f(st) == Ends(p.env, r, back, cc, st);
      }
      CharOk(p, LeafOp(r, p.env.dotall), back, pc, f, r);
    } else {
      AssertLeafOk(p, r, back, cc, pc);
    }
  }

  lemma LeafAcceptsOp(r: Re, dotall: bool)
    requires r.Chr? || r.Dot? || r.Class?
    ensures IsCharOp(LeafOp(r, dotall))
  {
  }

  lemma AssertLeafOk(p: Prog, r: Re, back: bool, cc: nat, pc: int)
    requires r.LineStart? || r.LineEnd? || r.WordBoundary? || r.BackRef?
    requires AtAll(p.fetch, pc, Compile(r, p.env.dotall, back, cc))
    ensures BlockOk(p, pc, pc + TotalSize(Compile(r, p.env.dotall, back, cc)), EndsFn(p.env, r, back, cc))
  {
    hide Yields;
    hide AtAll;
    hide TotalSize;
    hide RefEnds;
    hide BackRefMove;
    var f, i := EndsFn(p.env, r, back, cc), Compile(r, p.env.dotall, back, cc)[0];
    assert Compile(r, p.env.dotall, back, cc) == [i];
    AtAllOne(p.fetch, pc, i);
    forall st, stk, ss | ValidSt(p.env, st)
      ensures OneStepAt(p, i, pc, f, st, stk, ss)
    {
      assert f(st) == Ends(p.env, r, back, cc, st);
      if r.BackRef? {
        BackRefIs(p.env, r.n, back, st);
      }
    }
    OneOk(p, i, pc, f);
  }

  // Comparing character by character looks for the captured text.
  lemma BackRefIs(env: Env, n: int, back: bool, st: St)
    requires ValidSt(env, st)
    ensures RefEnds(env, n, back, st) ==
            match BackRefMove(env, n, back, st) { case None => [] case Some(pos) => [st.(pos := pos)] }
  {
    if 0 <= n < env.capCount {
      var lo, hi := st.cap[2 * n], st.cap[2 * n + 1];
      if lo != NULL && hi != NULL {
        if back {
          CompareBackwardIs(env.input, lo, hi, st.pos);
        } else {
          CompareForwardIs(env.input, lo, hi, st.pos);
        }
      }
    }
  }

  lemma {:induction false} CompareForwardIs(input: seq<int>, lo: int, hi: int, pos: int)
    requires 0 <= lo && hi <= |input| && 0 <= pos <= |input|
    ensures var t := if lo <= hi then input[lo..hi] else [];
            CompareForward(input, lo, hi, pos)
            == if pos + |t| <= |input| && input[pos..pos + |t|] == t then Some(pos + |t|) else None
    decreases hi - lo
  {
    if lo < hi && pos < |input| {
      CompareForwardIs(input, lo + 1, hi, pos + 1);
      if pos + (hi - lo) <= |input| {
        SameFirst(input, lo, pos, hi - lo);
      }
    }
  }

  // Two stretches of the input are equal if their first characters and the rest are.
  lemma SameFirst(input: seq<int>, i: int, j: int, n: int)
    requires 0 <= i && 0 <= j && 0 < n && i + n <= |input| && j + n <= |input|
    ensures input[i..i + n] == input[j..j + n] <==>
            input[i] == input[j] && input[i + 1..i + n] == input[j + 1..j + n]
  {
    assert input[i..i + n] == [input[i]] + input[i + 1..i + n];
    assert input[j..j + n] == [input[j]] + input[j + 1..j + n];
  }

  lemma SameLast(input: seq<int>, i: int, j: int, n: int)
    requires 0 <= i && 0 <= j && 0 < n && i + n <= |input| && j + n <= |input|
    ensures input[i..i + n] == input[j..j + n] <==>
            input[i + n - 1] == input[j + n - 1] && input[i..i + n - 1] == input[j..j + n - 1]
  {
    var a, b := input[i..i + n], input[j..j + n];
    assert a[..n - 1] == input[i..i + n - 1] && b[..n - 1] == input[j..j + n - 1];
    assert a == a[..n - 1] + [a[n - 1]] && b == b[..n - 1] + [b[n - 1]];
  }

  lemma {:induction false} CompareBackwardIs(input: seq<int>, lo: int, hi: int, pos: int)
    requires 0 <= lo && hi <= |input| && 0 <= pos <= |input|
    ensures var t := if lo <= hi then input[lo..hi] else [];
            CompareBackward(input, lo, hi, pos)
            == if 0 <= pos - |t| && input[pos - |t|..pos] == t then Some(pos - |t|) else None
    decreases hi - lo
  {
    if lo < hi && pos > 0 {
      CompareBackwardIs(input, lo, hi - 1, pos - 1);
      if 0 <= pos - (hi - lo) {
        SameLast(input, lo, pos - (hi - lo), hi - lo);
      }
    }
  }

  lemma {:induction false} CaptureOk(p: Prog, r: Re, back: bool, cc: nat, pc: int)
    requires r.Capture? && Ready(p) && WellFormed(r) && Supported(p.env, r, back, cc)
    requires cc + Caps(r) <= p.env.capCount
    requires AtAll(p.fetch, pc, Compile(r, p.env.dotall, back, cc))
    ensures BlockOk(p, pc, pc + TotalSize(Compile(r, p.env.dotall, back, cc)), EndsFn(p.env, r, back, cc))
    decreases r, 0
  {
    hide AtAll;
    hide TotalSize;
    hide BlockOk;
    var body := Compile(r.body, p.env.dotall, back, cc + 1);
    var first, last := ISave(back, cc), ISave(!back, cc);
    assert Compile(r, p.env.dotall, back, cc) == [first] + (body + [last]);
    var m, e := pc + 2 + TotalSize(body), pc + 4 + TotalSize(body);
    AtAllCons(p.fetch, pc, first, body + [last]);
    ConcatLayout(p.fetch, pc + 2, body, [last]);
    AtAllOne(p.fetch, m, last);
    CompileOk(p, r.body, back, cc + 1, pc + 2);
    CaptureParts(p, r.body, back, cc, pc, m, e);
  }

  lemma CaptureParts(p: Prog, b: Re, back: bool, cc: nat, pc: int, m: int, e: int)
    requires p.fetch(pc) == Some(ISave(back, cc)) && p.fetch(m) == Some(ISave(!back, cc)) && e == m + 2
    requires cc < p.env.capCount
    requires BlockOk(p, pc + 2, m, EndsFn(p.env, b, back, cc + 1))
    ensures BlockOk(p, pc, e, EndsFn(p.env, Capture(b), back, cc))
  {
    hide BlockOk;
    hide FlatMap;
    hide Ends;
    hide SetCap;
    var k1, k2 := 2 * cc + BoolBit(back), 2 * cc + BoolBit(!back);
    var f, h := EndsFn(p.env, b, back, cc + 1), EndsFn(p.env, Capture(b), back, cc);
    SaveOk(p, pc, back, cc);
    SaveOk(p, m, !back, cc);
    EndsMoves(p.env, b, back, cc + 1);
    var fg := CaptureTailFn(p.env, b, back, cc);
    forall st ensures fg(st) == FlatMap(f(st), SetCapFn(k2)) && h(st) == FlatMap(SetCapFn(k1)(st), fg) {
      CaptureEnds(p.env, b, back, cc, st);
    }
    BlockSeq(p, pc + 2, m, e, f, SetCapFn(k2), fg);
    BlockSeq(p, pc, pc + 2, e, SetCapFn(k1), fg, h);
  }

  lemma CaptureEnds(env: Env, b: Re, back: bool, cc: nat, st: St)
    ensures CaptureTailFn(env, b, back, cc)(st)
         == FlatMap(EndsFn(env, b, back, cc + 1)(st), SetCapFn(2 * cc + BoolBit(!back)))
    ensures EndsFn(env, Capture(b), back, cc)(st)
         == FlatMap(SetCapFn(2 * cc + BoolBit(back))(st), CaptureTailFn(env, b, back, cc))
  {
    hide FlatMap;
    hide SetCap;
    var st1 := SetCap(st, 2 * cc + BoolBit(back));
    var tail := SetCapFn(2 * cc + BoolBit(!back));
    assert Ends(env, Capture(b), back, cc, st) == FlatMap(Ends(env, b, back, cc + 1, st1), tail);
    hide Ends;
    FlatMapSingle(st1, CaptureTailFn(env, b, back, cc));
    assert SetCapFn(2 * cc + BoolBit(back))(st) == [st1];
    assert EndsFn(env, Capture(b), back, cc)(st) == Ends(env, Capture(b), back, cc, st);
    assert EndsFn(env, b, back, cc + 1)(st) == Ends(env, b, back, cc + 1, st);
    assert CaptureTailFn(env, b, back, cc)(st1) == FlatMap(Ends(env, b, back, cc + 1, st1), tail);
  }

  lemma SaveOk(p: Prog, pc: int, end: bool, n: nat)
    requires p.fetch(pc) == Some(ISave(end, n)) && n < p.env.capCount
    ensures BlockOk(p, pc, pc + 2, SetCapFn(2 * n + BoolBit(end)))
    ensures Closed(p.env, SetCapFn(2 * n + BoolBit(end)))
  {
    hide Yields;
    OneOk(p, ISave(end, n), pc, SetCapFn(2 * n + BoolBit(end)));
  }

  ghost function CaptureTailFn(env: Env, b: Re, back: bool, cc: nat): St -> seq<St> {
    st => FlatMap(Ends(env, b, back, cc + 1, st), SetCapFn(2 * cc + BoolBit(!back)))
  }

  lemma {:induction false} LookaroundOk(p: Prog, r: Re, back: bool, cc: nat, pc: int)
    requires r.Look? && Ready(p) && WellFormed(r) && Supported(p.env, r, back, cc)
    requires cc + Caps(r) <= p.env.capCount
    requires AtAll(p.fetch, pc, Compile(r, p.env.dotall, back, cc))
    ensures BlockOk(p, pc, pc + TotalSize(Compile(r, p.env.dotall, back, cc)), EndsFn(p.env, r, back, cc))
    decreases r, 0
  {
    hide BlockOk;
    hide AtAll;
    hide TotalSize;
    LookParts(p.env, r, back, cc);
    LookCode(r, p.env.dotall, back, cc);
    hide Supported;
    hide WellFormed;
    hide Compile;
    hide Caps;
    hide Ends;
    hide Moves;
    hide Closed;
    var body := Compile(r.body, p.env.dotall, r.behind, cc);
    var f, h := EndsFn(p.env, r.body, r.behind, cc), EndsFn(p.env, r, back, cc);
    LookLayout(p.fetch, pc, r.neg, body);
    CompileOk(p, r.body, r.behind, cc, pc + 5);
    EndsMoves(p.env, r.body, r.behind, cc);
    MovesClosed(p.env, r.behind, f);
    forall st ensures h(st) == LookResult(r.neg, f(st), st) {
      LookEnds(p.env, r, back, cc, st);
    }
    hide EndsFn;
    LookBlock(p, pc, TotalSize(body), r.neg, f, h);
  }

  lemma LookParts(env: Env, r: Re, back: bool, cc: nat)
    requires r.Look? && WellFormed(r) && Supported(env, r, back, cc)
    ensures WellFormed(r.body) && Supported(env, r.body, r.behind, cc) && Caps(r) == Caps(r.body)
  {
    hide LoopSafe;
    hide EndsFn;
  }

  lemma LookCode(r: Re, dotall: bool, back: bool, cc: nat)
    requires r.Look?
    ensures var body := Compile(r.body, dotall, r.behind, cc);
            Compile(r, dotall, back, cc) == [ILook(r.neg, TotalSize(body) + 1)] + body + [IMatch]
  {
    hide TotalSize;
  }

  lemma LookEnds(env: Env, r: Re, back: bool, cc: nat, st: St)
    requires r.Look?
    ensures EndsFn(env, r, back, cc)(st) == LookResult(r.neg, EndsFn(env, r.body, r.behind, cc)(st), st)
  {
    assert EndsFn(env, r, back, cc)(st) == Ends(env, r, back, cc, st);
  }

  ghost function LookResult(neg: bool, inner: seq<St>, st: St): seq<St> {
    if neg then (if inner == [] then [st] else [])
    else (if inner == [] then [] else [st.(cap := inner[0].cap)])
  }

  lemma LookBlock(p: Prog, pc: int, len: int, neg: bool, f: St -> seq<St>, h: St -> seq<St>)
    requires p.fetch(pc) == Some(ILook(neg, len + 1)) && p.fetch(pc + 5 + len) == Some(IMatch)
    requires BlockOk(p, pc + 5, pc + 5 + len, f) && Closed(p.env, f)
    requires forall st :: h(st) == LookResult(neg, f(st), st)
    ensures BlockOk(p, pc, pc + 6 + len, h)
  {
    hide Yields;
    hide LookResult;
    var e := pc + 6 + len;
    forall st, stk, ss | ValidSt(p.env, st)
      ensures Yields(p, Run(pc, st, stk, ss), e, stk, ss, h(st))
    {
      LookOk(p, pc, len, neg, f, st, stk, ss);
      LookResultIs(neg, f(st), st);
    }
  }

  lemma LookResultIs(neg: bool, inner: seq<St>, st: St)
    ensures LookResult(neg, inner, st)
         == if neg then (if inner == [] then [st] else []) else (if inner == [] then [] else [st.(cap := inner[0].cap)])
  {
  }

  lemma {:induction false} QuantifierOk(p: Prog, r: Re, back: bool, cc: nat, pc: int)
    requires r.Quant? && Ready(p) && WellFormed(r) && Supported(p.env, r, back, cc)
    requires cc + Caps(r) <= p.env.capCount
    requires AtAll(p.fetch, pc, Compile(r, p.env.dotall, back, cc))
    ensures BlockOk(p, pc, pc + TotalSize(Compile(r, p.env.dotall, back, cc)), EndsFn(p.env, r, back, cc))
    decreases r, 0
  {
    hide BlockOk;
    hide AtAll;
    hide TotalSize;
    hide SimpleCount;
    hide FirstKind;
    hide CheckAdvance;
    var b, f := r.body, EndsFn(p.env, r.body, back, cc);
    var atom := Compile(b, p.env.dotall, back, cc);
    forall q | AtAll(p.fetch, q, atom)
      ensures BlockOk(p, q, q + TotalSize(atom), f)
    {
      CompileOk(p, b, back, cc, q);
    }
    EndsMoves(p.env, b, back, cc);
    Verdicts(atom);
    if FirstKind(atom).Advances? {
      BodyStrict(p.env, b, back, cc);
    }
    if SimpleCount(atom) > 0 {
      if back {
        BackwardNotSimple(b, p.env.dotall, cc);
      }
      SimpleEnds(p.env, b, cc);
    }
    QuantOk(p, pc, atom, cc, cc + Caps(b), r.min, r.max, r.greedy, back, f);
    QuantEndsOk(p, r, back, cc, pc, pc + TotalSize(QuantCode(atom, cc, cc + Caps(b), r.min, r.max, r.greedy)));
    CompileQuant(r, p.env.dotall, back, cc);
  }

  lemma Verdicts(atom: seq<Instr>)
    ensures CheckAdvance(atom) <= 1 && (CheckAdvance(atom) == 1 ==> FirstKind(atom).Advances?)
  {
    hide FirstKind;
    hide Saves;
    hide Refs;
  }

  lemma BodyStrict(env: Env, b: Re, back: bool, cc: nat)
    requires WellFormed(b) && FirstKind(Compile(b, env.dotall, back, cc)).Advances?
    ensures Strict(env, EndsFn(env, b, back, cc))
  {
    hide FirstKind;
    forall st, x | ValidSt(env, st) && x in EndsFn(env, b, back, cc)(st)
      ensures x.pos != st.pos
    {
      AdvanceStrict(env, b, back, cc, st, x);
    }
  }

  lemma QuantEndsOk(p: Prog, r: Re, back: bool, cc: nat, pc: int, e: int)
    requires r.Quant? && WellFormed(r)
    requires BlockOk(p, pc, e, QuantFn(p.env, EndsFn(p.env, r.body, back, cc), back, cc, cc + Caps(r.body), r.min,
                                       r.max, r.greedy))
    ensures BlockOk(p, pc, e, EndsFn(p.env, r, back, cc))
  {
    hide Yields;
    hide Ends;
    var g := QuantFn(p.env, EndsFn(p.env, r.body, back, cc), back, cc, cc + Caps(r.body), r.min, r.max, r.greedy);
    forall st ensures g(st) == EndsFn(p.env, r, back, cc)(st) {
      EndsQuant(p.env, r, back, cc, st);
    }
    BlockSame(p, pc, e, g, EndsFn(p.env, r, back, cc));
  }

  lemma {:induction false} CatOk(p: Prog, ts: seq<Re>, back: bool, cc: nat, pc: int)
    requires Ready(p) && WellFormedAll(ts) && SupportedAll(p.env, ts, back, cc)
    requires cc + CapsAll(ts) <= p.env.capCount
    requires AtAll(p.fetch, pc, CompileCat(ts, p.env.dotall, back, cc))
    ensures BlockOk(p, pc, pc + TotalSize(CompileCat(ts, p.env.dotall, back, cc)), EndsCatFn(p.env, ts, back, cc))
    decreases ts, 0
  {
    hide BlockOk;
    hide AtAll;
    hide TotalSize;
    hide Ends;
    hide Compile;
    hide FlatMap;
    hide Moves;
    hide Closed;
    var h, code := EndsCatFn(p.env, ts, back, cc), CompileCat(ts, p.env.dotall, back, cc);
    if ts == [] {
      TotalSizeEmpty();
      forall st ensures h(st) == [st] {
        assert h(st) == EndsCat(p.env, ts, back, cc, st);
      }
      BlockUnit(p, pc, h);
    } else {
      var n := |ts| - 1;
      var c1 := cc + CapsAll(ts[..n]);
      var init, last := CompileCat(ts[..n], p.env.dotall, back, cc), Compile(ts[n], p.env.dotall, back, c1);
      var fi, fl := EndsCatFn(p.env, ts[..n], back, cc), EndsFn(p.env, ts[n], back, c1);
      EndsCatMoves(p.env, ts[..n], back, cc);
      EndsMoves(p.env, ts[n], back, c1);
      MovesClosed(p.env, back, fi);
      MovesClosed(p.env, back, fl);
      forall st ensures h(st) == if back then FlatMap(fl(st), fi) else FlatMap(fi(st), fl) {
        assert h(st) == EndsCat(p.env, ts, back, cc, st);
      }
      if back {
        ConcatLayout(p.fetch, pc, last, init);
        CompileOk(p, ts[n], back, c1, pc);
        CatOk(p, ts[..n], back, cc, pc + TotalSize(last));
        PairOk(p, pc, last, init, fl, fi, h);
      } else {
        ConcatLayout(p.fetch, pc, init, last);
        CatOk(p, ts[..n], back, cc, pc);
        CompileOk(p, ts[n], back, c1, pc + TotalSize(init));
        PairOk(p, pc, init, last, fi, fl, h);
      }
    }
  }

  // Two blocks stored one after the other.
  lemma PairOk(p: Prog, pc: int, a: seq<Instr>, b: seq<Instr>, f: St -> seq<St>, g: St -> seq<St>, h: St -> seq<St>)
    requires BlockOk(p, pc, pc + TotalSize(a), f) && Closed(p.env, f)
    requires BlockOk(p, pc + TotalSize(a), pc + TotalSize(a) + TotalSize(b), g)
    requires forall st :: h(st) == FlatMap(f(st), g)
    ensures BlockOk(p, pc, pc + TotalSize(a + b), h)
  {
    hide BlockOk;
    TotalSizeConcat(a, b);
    BlockSeq(p, pc, pc + TotalSize(a), pc + TotalSize(a) + TotalSize(b), f, g, h);
  }

  lemma CatFnOk(p: Prog, ts: seq<Re>, back: bool, cc: nat, pc: int)
    requires BlockOk(p, pc, pc + TotalSize(CompileCat(ts, p.env.dotall, back, cc)), EndsCatFn(p.env, ts, back, cc))
    ensures BlockOk(p, pc, pc + TotalSize(Compile(Cat(ts), p.env.dotall, back, cc)), EndsFn(p.env, Cat(ts), back, cc))
  {
    hide BlockOk;
    hide Compile;
    CompileCatIs(ts, p.env.dotall, back, cc);
    var f, g := EndsCatFn(p.env, ts, back, cc), EndsFn(p.env, Cat(ts), back, cc);
    forall st ensures f(st) == g(st) {
      assert g(st) == Ends(p.env, Cat(ts), back, cc, st);
    }
    BlockSame(p, pc, pc + TotalSize(CompileCat(ts, p.env.dotall, back, cc)), f, g);
  }

  ghost function EndsDisjFn(env: Env, ts: seq<Re>, back: bool, cc: nat): St -> seq<St> {
    st => EndsDisj(env, ts, back, cc, st)
  }

  lemma DisjFnOk(p: Prog, ts: seq<Re>, back: bool, cc: nat, pc: int)
    requires BlockOk(p, pc, pc + TotalSize(CompileDisj(ts, p.env.dotall, back, cc)), EndsDisjFn(p.env, ts, back, cc))
    ensures BlockOk(p, pc, pc + TotalSize(Compile(Disj(ts), p.env.dotall, back, cc)), EndsFn(p.env, Disj(ts), back, cc))
  {
    hide BlockOk;
    hide Compile;
    CompileDisjIs(ts, p.env.dotall, back, cc);
    var f, g := EndsDisjFn(p.env, ts, back, cc), EndsFn(p.env, Disj(ts), back, cc);
    forall st ensures f(st) == g(st) {
      assert g(st) == Ends(p.env, Disj(ts), back, cc, st);
    }
    BlockSame(p, pc, pc + TotalSize(CompileDisj(ts, p.env.dotall, back, cc)), f, g);
  }

  lemma {:induction false} DisjOk(p: Prog, ts: seq<Re>, back: bool, cc: nat, pc: int)
    requires Ready(p) && ts != [] && WellFormedAll(ts) && SupportedAll(p.env, ts, back, cc)
    requires cc + CapsAll(ts) <= p.env.capCount
    requires AtAll(p.fetch, pc, CompileDisj(ts, p.env.dotall, back, cc))
    ensures BlockOk(p, pc, pc + TotalSize(CompileDisj(ts, p.env.dotall, back, cc)), EndsDisjFn(p.env, ts, back, cc))
    decreases ts, 0
  {
    hide Yields;
    hide AtAll;
    hide TotalSize;
    hide Ends;
    hide Compile;
    var n := |ts| - 1;
    var c1 := cc + CapsAll(ts[..n]);
    var last := Compile(ts[n], p.env.dotall, back, c1);
    var fi, fl, h := EndsDisjFn(p.env, ts[..n], back, cc), EndsFn(p.env, ts[n], back, c1),
        EndsDisjFn(p.env, ts, back, cc);
    forall st ensures h(st) == fi(st) + fl(st) {
    }
    if n == 0 {
      CompileOk(p, ts[0], back, c1, pc);
      forall st ensures fl(st) == h(st) {
        assert fi(st) == [];
      }
      BlockSame(p, pc, pc + TotalSize(last), fl, h);
    } else {
      var init := CompileDisj(ts[..n], p.env.dotall, back, cc);
      AltLayout(p.fetch, pc, init, last);
      DisjOk(p, ts[..n], back, cc, pc + 5);
      CompileOk(p, ts[n], back, c1, pc + 10 + TotalSize(init));
      DisjClosed(p.env, ts[..n], back, cc);
      AltOk(p, pc, init, last, fi, fl, h);
      AltSize(ISplit(true, TotalSize(init) + 5), init, IGoto(TotalSize(last)), last);
    }
  }

  lemma DisjClosed(env: Env, ts: seq<Re>, back: bool, cc: nat)
    ensures Closed(env, EndsDisjFn(env, ts, back, cc))
  {
    forall st, x | ValidSt(env, st) && x in EndsDisjFn(env, ts, back, cc)(st)
      ensures ValidSt(env, x)
    {
      EndsDisjMove(env, ts, back, cc, st, x);
    }
  }

  lemma AltSize(split: Instr, left: seq<Instr>, goto: Instr, right: seq<Instr>)
    requires split.ISplit? && goto.IGoto?
    ensures TotalSize([split] + left + [goto] + right) == 10 + TotalSize(left) + TotalSize(right)
  {
    hide TotalSize;
    TotalSizeFour(split, left, goto, right);
  }

  lemma TotalSizeFour(i: Instr, left: seq<Instr>, j: Instr, right: seq<Instr>)
    ensures TotalSize([i] + left + [j] + right) == i.Size() + TotalSize(left) + j.Size() + TotalSize(right)
  {
    hide TotalSize;
    TotalSizeConcat([i] + left + [j], right);
    TotalSizeSnoc([i] + left, j);
    TotalSizeConcat([i], left);
    TotalSizeOne(i);
  }

  lemma TotalSizeSnoc(a: seq<Instr>, i: Instr)
    ensures TotalSize(a + [i]) == TotalSize(a) + i.Size()
  {
    TotalSizeConcat(a, [i]);
    TotalSizeOne(i);
  }
}
