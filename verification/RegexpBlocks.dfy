// What each shape of emitted code does on the machine, given what its parts do.

module RegexpBlocks {
  import opened Basics
  import opened CharRanges
  import opened RegexpCode
  import opened RegexpCompile
  import opened RegexpSemantics
  import opened RegexpVM

  // ----- Facts about lists of successes -----

  lemma {:induction false} FlatMapIn(xs: seq<St>, g: St -> seq<St>, y: St)
    ensures y in FlatMap(xs, g) <==> exists x :: x in xs && y in g(x)
  {
    if xs != [] {
      FlatMapIn(xs[1..], g, y);
      if y in FlatMap(xs[1..], g) {
        var x :| x in xs[1..] && y in g(x);
        assert x in xs;
      }
      if exists x :: x in xs && y in g(x) {
        var x :| x in xs && y in g(x);
        assert x == xs[0] || x in xs[1..];
      }
    }
  }

  lemma {:induction false} FlatMapUnit(xs: seq<St>, g: St -> seq<St>)
    requires forall x :: x in xs ==> g(x) == [x]
    ensures FlatMap(xs, g) == xs
  {
    if xs != [] {
      FlatMapUnit(xs[1..], g);
    }
  }

  lemma FlatMapSingle(x: St, g: St -> seq<St>)
    ensures FlatMap([x], g) == g(x)
  {
    assert [x][1..] == [];
    assert FlatMap([x][1..], g) == [];
  }

  lemma {:induction false} FlatMapCong(xs: seq<St>, g: St -> seq<St>, h: St -> seq<St>)
    requires forall x :: x in xs ==> g(x) == h(x)
    ensures FlatMap(xs, g) == FlatMap(xs, h)
  {
    if xs != [] {
      FlatMapCong(xs[1..], g, h);
    }
  }

  lemma {:induction false} FlatMapAppend(xs: seq<St>, ys: seq<St>, g: St -> seq<St>)
    ensures FlatMap(xs + ys, g) == FlatMap(xs, g) + FlatMap(ys, g)
  {
    if xs == [] {
      assert xs + ys == ys;
    } else {
      FlatMapAppend(xs[1..], ys, g);
      assert (xs + ys)[1..] == xs[1..] + ys;
      assert FlatMap(xs + ys, g) == g(xs[0]) + FlatMap(xs[1..] + ys, g);
      hide FlatMap;
    }
  }

  lemma {:induction false} FlatMapAssoc(xs: seq<St>, g: St -> seq<St>, h: St -> seq<St>, gh: St -> seq<St>)
    requires forall x :: x in xs ==> gh(x) == FlatMap(g(x), h)
    ensures FlatMap(FlatMap(xs, g), h) == FlatMap(xs, gh)
  {
    if xs != [] {
      FlatMapAssoc(xs[1..], g, h, gh);
      FlatMapAppend(g(xs[0]), FlatMap(xs[1..], g), h);
    }
  }

  // f stays inside the input and never moves against the direction of matching.
  ghost predicate Moves(env: Env, back: bool, f: St -> seq<St>) {
    forall st, x :: ValidSt(env, st) && x in f(st) ==> ValidSt(env, x) && Dist(env, back, x) <= Dist(env, back, st)
  }

  // Every success of f consumes something.
  ghost predicate Strict(env: Env, f: St -> seq<St>) {
    forall st, x :: ValidSt(env, st) && x in f(st) ==> x.pos != st.pos
  }

  lemma MovesClosed(env: Env, back: bool, f: St -> seq<St>)
    requires Moves(env, back, f)
    ensures Closed(env, f)
  {
  }

  // ----- Single instructions -----

  // An instruction that moves on to the next one, changing only positions and captures, or fails.
  ghost predicate OneStepAt(p: Prog, i: Instr, pc: int, f: St -> seq<St>, st: St, stk: seq<int>, ss: seq<Saved>) {
    && |f(st)| <= 1
    && StepInstr(p, i, pc, st, stk, ss) == if f(st) == [] then Fail(ss) else Run(pc + i.Size(), f(st)[0], stk, ss)
  }

  lemma OneOk(p: Prog, i: Instr, pc: int, f: St -> seq<St>)
    requires p.fetch(pc) == Some(i)
    requires forall st, stk, ss :: ValidSt(p.env, st) ==> OneStepAt(p, i, pc, f, st, stk, ss)
    ensures BlockOk(p, pc, pc + i.Size(), f)
  {
    var e := pc + i.Size();
    forall st, stk, ss | ValidSt(p.env, st)
      ensures Yields(p, Run(pc, st, stk, ss), e, stk, ss, f(st))
    {
      assert OneStepAt(p, i, pc, f, st, stk, ss);
      assert Step(p, Run(pc, st, stk, ss)) == StepInstr(p, i, pc, st, stk, ss);
      if f(st) == [] {
        YieldsNone(p, e, stk, ss);
      } else {
        assert f(st) == [f(st)[0]];
        YieldsOne(p, e, stk, ss, f(st)[0]);
      }
      YieldsStep(p, Run(pc, st, stk, ss), e, stk, ss, f(st));
    }
  }

  lemma AtAllOne(fetch: Fetch, p: int, i: Instr)
    ensures AtAll(fetch, p, [i]) <==> fetch(p) == Some(i)
    ensures TotalSize([i]) == i.Size()
  {
    assert [i][1..] == [];
    assert TotalSize([i][1..]) == 0;
  }

  lemma AtAllCons(fetch: Fetch, p: int, i: Instr, b: seq<Instr>)
    ensures AtAll(fetch, p, [i] + b) <==> fetch(p) == Some(i) && AtAll(fetch, p + i.Size(), b)
    ensures TotalSize([i] + b) == i.Size() + TotalSize(b)
  {
    assert ([i] + b)[1..] == b;
  }

  // A character opcode, or prev; opcode; prev when matching backward.
  lemma CharOk(p: Prog, i: Instr, back: bool, pc: int, f: St -> seq<St>, r: Re)
    requires IsCharOp(i) && AtAll(p.fetch, pc, Oriented(i, back))
    requires forall st :: ValidSt(p.env, st) ==> f(st) == CharEnds(p.env, r, back, st)
    requires forall k :: 0 <= k < |p.env.input| ==>
               (CharOpAccepts(i, p.env.input[k]) <==> CharAccepts(p.env, r, p.env.input[k]))
    ensures BlockOk(p, pc, pc + TotalSize(Oriented(i, back)), f)
  {
    hide Yields;
    hide CharOpAccepts;
    hide CharAccepts;
    if back {
      AtAllCons(p.fetch, pc, IPrev, [i, IPrev]);
      AtAllCons(p.fetch, pc + 1, i, [IPrev]);
      AtAllOne(p.fetch, pc + 1 + i.Size(), IPrev);
      assert Oriented(i, true) == [IPrev] + ([i] + [IPrev]);
      var n := pc + 2 + i.Size();
      forall st, stk, ss | ValidSt(p.env, st)
        ensures Yields(p, Run(pc, st, stk, ss), n, stk, ss, f(st))
      {
        CharBackOk(p, i, pc, f(st), r, st, stk, ss);
      }
    } else {
      AtAllOne(p.fetch, pc, i);
      OneOk(p, i, pc, f);
    }
  }

  lemma CharBackOk(p: Prog, i: Instr, pc: int, outs: seq<St>, r: Re, st: St, stk: seq<int>, ss: seq<Saved>)
    requires IsCharOp(i) && ValidSt(p.env, st) && outs == CharEnds(p.env, r, true, st)
    requires p.fetch(pc) == Some(IPrev) && p.fetch(pc + 1) == Some(i) && p.fetch(pc + 1 + i.Size()) == Some(IPrev)
    requires forall k :: 0 <= k < |p.env.input| ==>
               (CharOpAccepts(i, p.env.input[k]) <==> CharAccepts(p.env, r, p.env.input[k]))
    ensures Yields(p, Run(pc, st, stk, ss), pc + 2 + i.Size(), stk, ss, outs)
  {
    var n := pc + 2 + i.Size();
    if st.pos == 0 {
      YieldsNone(p, n, stk, ss);
    } else {
      CharBackTail(p, i, pc + 1, outs, r, st.(pos := st.pos - 1), stk, ss);
    }
    YieldsStep(p, Run(pc, st, stk, ss), n, stk, ss, outs);
  }

  lemma CharBackTail(p: Prog, i: Instr, pc: int, outs: seq<St>, r: Re, left: St, stk: seq<int>, ss: seq<Saved>)
    requires IsCharOp(i) && 0 <= left.pos < |p.env.input|
    requires outs == if CharAccepts(p.env, r, p.env.input[left.pos]) then [left] else []
    requires p.fetch(pc) == Some(i) && p.fetch(pc + i.Size()) == Some(IPrev)
    requires CharOpAccepts(i, p.env.input[left.pos]) <==> CharAccepts(p.env, r, p.env.input[left.pos])
    ensures Yields(p, Run(pc, left, stk, ss), pc + i.Size() + 1, stk, ss, outs)
  {
    var n := pc + i.Size() + 1;
    if outs == [] {
      YieldsNone(p, n, stk, ss);
    } else {
      var st := left.(pos := left.pos + 1);
      YieldsOne(p, n, stk, ss, left);
      YieldsStep(p, Run(pc + i.Size(), st, stk, ss), n, stk, ss, outs);
    }
    YieldsStep(p, Run(pc, left, stk, ss), n, stk, ss, outs);
  }

  // ----- Alternatives -----

  // split L1; left; goto L2; L1: right; L2:
  lemma AltOk(p: Prog, pc: int, left: seq<Instr>, right: seq<Instr>,
              f: St -> seq<St>, g: St -> seq<St>, h: St -> seq<St>)
    requires AtAll(p.fetch, pc, [ISplit(true, TotalSize(left) + 5)] + left + [IGoto(TotalSize(right))] + right)
    requires BlockOk(p, pc + 5, pc + 5 + TotalSize(left), f)
    requires BlockOk(p, pc + 10 + TotalSize(left), pc + 10 + TotalSize(left) + TotalSize(right), g)
    requires Closed(p.env, f)
    requires forall st :: h(st) == f(st) + g(st)
    ensures BlockOk(p, pc, pc + 10 + TotalSize(left) + TotalSize(right), h)
  {
    AltLayout(p.fetch, pc, left, right);
    var e, alt := pc + 10 + TotalSize(left) + TotalSize(right), pc + 10 + TotalSize(left);
    forall st, stk, ss | ValidSt(p.env, st)
      ensures Yields(p, Run(pc, st, stk, ss), e, stk, ss, h(st))
    {
      LeftThenGoto(p, pc + 5, TotalSize(left), TotalSize(right), f, st, stk);
      BlockArrives(p, alt, e, g, st, stk);
      SplitOk(p, pc, true, TotalSize(left) + 5, st, stk, ss, pc + 5, alt, true, e, stk, f(st), g(st));
    }
  }

  lemma BlockArrives(p: Prog, pc: int, e: int, f: St -> seq<St>, st: St, stk: seq<int>)
    requires BlockOk(p, pc, e, f) && ValidSt(p.env, st)
    ensures Arrives(p, pc, st, stk, e, stk, f(st))
  {
  }

  lemma AltLayout(fetch: Fetch, pc: int, left: seq<Instr>, right: seq<Instr>)
    requires AtAll(fetch, pc, [ISplit(true, TotalSize(left) + 5)] + left + [IGoto(TotalSize(right))] + right)
    ensures fetch(pc) == Some(ISplit(true, TotalSize(left) + 5)) && AtAll(fetch, pc + 5, left)
    ensures fetch(pc + 5 + TotalSize(left)) == Some(IGoto(TotalSize(right)))
    ensures AtAll(fetch, pc + 10 + TotalSize(left), right)
  {
    hide AtAll;
    hide TotalSize;
    var split, goto := ISplit(true, TotalSize(left) + 5), IGoto(TotalSize(right));
    assert [split] + left + [goto] + right == [split] + (left + ([goto] + right));
    AtAllCons(fetch, pc, split, left + ([goto] + right));
    AtAllConcat(fetch, pc + 5, left, [goto] + right);
    AtAllCons(fetch, pc + 5 + TotalSize(left), goto, right);
  }

  lemma LeftThenGoto(p: Prog, pc: int, len: int, off: int, f: St -> seq<St>, st: St, stk: seq<int>)
    requires BlockOk(p, pc, pc + len, f) && p.fetch(pc + len) == Some(IGoto(off))
    requires Closed(p.env, f) && ValidSt(p.env, st)
    ensures Arrives(p, pc, st, stk, pc + len + 5 + off, stk, f(st))
  {
    var e := pc + len + 5 + off;
    forall ss ensures Yields(p, Run(pc, st, stk, ss), e, stk, ss, f(st)) {
      GotoContinues(p, pc + len, IGoto(off), e, stk, f(st), x => [x]);
      YieldsBind(p, Run(pc, st, stk, ss), pc + len, stk, e, stk, ss, f(st), x => [x]);
      FlatMapUnit(f(st), x => [x]);
    }
  }

  lemma GotoContinues(p: Prog, pc: int, i: Instr, e: int, stk: seq<int>, xs: seq<St>, unit: St -> seq<St>)
    requires i.IGoto? && p.fetch(pc) == Some(i) && e == pc + 5 + i.off
    requires forall x :: x in xs ==> ValidSt(p.env, x) && unit(x) == [x]
    ensures Continues(p, pc, stk, e, stk, xs, unit)
  {
    forall x, ss | x in xs
      ensures Yields(p, Run(pc, x, stk, ss), e, stk, ss, unit(x))
    {
      YieldsOne(p, e, stk, ss, x);
      YieldsStep(p, Run(pc, x, stk, ss), e, stk, ss, unit(x));
    }
  }

  // Backtracking into a saved alternative.
  lemma PopSplit(p: Prog, alt: Saved, ss: seq<Saved>, e: int, stk: seq<int>, outs: seq<St>)
    requires alt.SSplit? && Yields(p, Run(alt.pc, alt.st, alt.stk, ss), e, stk, ss, outs)
    ensures Yields(p, Fail(ss + [alt]), e, stk, ss, outs)
    ensures Unwind(ss + [alt]) == Unwind(ss)
  {
    assert (ss + [alt])[..|ss|] == ss;
    assert Step(p, Fail(ss + [alt])) == Run(alt.pc, alt.st, alt.stk, ss);
    YieldsStep(p, Fail(ss + [alt]), e, stk, ss, outs);
    UnwindPush(ss, alt);
  }

  // A split whose two continuations are understood: more (the loop body) and stop.
  lemma SplitOk(p: Prog, pc: int, nextFirst: bool, off: int, st: St, stk: seq<int>, ss: seq<Saved>,
                bodyPc: int, stopPc: int, greedy: bool, e: int, eStk: seq<int>, more: seq<St>, stop: seq<St>)
    requires p.fetch(pc) == Some(ISplit(nextFirst, off)) && ValidSt(p.env, st)
    requires if nextFirst == greedy then bodyPc == pc + 5 && stopPc == pc + 5 + off
             else stopPc == pc + 5 && bodyPc == pc + 5 + off
    requires Arrives(p, bodyPc, st, stk, e, eStk, more) && Arrives(p, stopPc, st, stk, e, eStk, stop)
    ensures Yields(p, Run(pc, st, stk, ss), e, eStk, ss, Ordered(greedy, more, stop))
  {
    var first, second := if greedy then bodyPc else stopPc, if greedy then stopPc else bodyPc;
    var alt := SSplit(second, st, stk);
    assert Step(p, Run(pc, st, stk, ss)) == Run(first, st, stk, ss + [alt]);
    var a, b := if greedy then more else stop, if greedy then stop else more;
    PopSplit(p, alt, ss, e, eStk, b);
    YieldsAppend(p, Run(first, st, stk, ss + [alt]), e, eStk, ss + [alt], ss, a, b);
    YieldsStep(p, Run(pc, st, stk, ss), e, eStk, ss, a + b);
  }

  // ----- Loops -----

  // After a round: an empty round leaves the loop at e, any other goes back to pc.
  lemma StarBack(p: Prog, backPc: int, check: bool, pc: int, e: int, start: int, x: St, stk: seq<int>,
                 ss: seq<Saved>, again: seq<St>)
    requires if check then p.fetch(backPc) == Some(IBneCharPos(pc - (backPc + 5)))
             else p.fetch(backPc) == Some(IGoto(pc - (backPc + 5)))
    requires ValidSt(p.env, x) && e == backPc + 5
    requires !check ==> x.pos != start
    requires x.pos != start ==> Yields(p, Run(pc, x, stk, ss), e, stk, ss, again)
    ensures Yields(p, Run(backPc, x, if check then stk + [start] else stk, ss), e, stk, ss,
                   if x.pos == start then [x] else again)
  {
    var stkM := if check then stk + [start] else stk;
    assert check ==> stkM[..|stkM| - 1] == stk;
    var s, outs := Run(backPc, x, stkM, ss), if x.pos == start then [x] else again;
    if x.pos == start {
      assert Step(p, s) == Run(e, x, stk, ss);
      YieldsOne(p, e, stk, ss, x);
    } else {
      assert Step(p, s) == Run(pc, x, stk, ss);
    }
    YieldsStep(p, s, e, stk, ss, outs);
  }

  // The layout of StarCode at pc.
  ghost predicate StarAt(fetch: Fetch, pc: int, len: int, greedy: bool, check: bool) {
    var z := if check then 1 else 0;
    && fetch(pc) == Some(ISplit(greedy, len + 5 + z))
    && (check ==> fetch(pc + 5) == Some(IPushCharPos))
    && fetch(pc + 5 + z + len) == Some(if check then IBneCharPos(-(len + 10 + z)) else IGoto(-(len + 10 + z)))
  }

  lemma TotalSizeEmpty()
    ensures TotalSize([]) == 0
  {
  }

  lemma AtAllEmpty(fetch: Fetch, p: int)
    ensures AtAll(fetch, p, [])
  {
  }

  lemma StarLayout(fetch: Fetch, pc: int, atom: seq<Instr>, greedy: bool, check: bool)
    requires AtAll(fetch, pc, StarCode(atom, greedy, check))
    ensures StarAt(fetch, pc, TotalSize(atom), greedy, check)
    ensures AtAll(fetch, pc + 5 + (if check then 1 else 0), atom)
    ensures TotalSize(StarCode(atom, greedy, check)) == TotalSize(atom) + 10 + (if check then 1 else 0)
  {
    hide AtAll;
    hide TotalSize;
    TotalSizeEmpty();
    AtAllEmpty(fetch, pc + 5);
    var len: int, z := TotalSize(atom), if check then 1 else 0;
    var push := if check then [IPushCharPos] else [];
    var last := if check then IBneCharPos(-(len + 10 + z)) else IGoto(-(len + 10 + z));
    assert StarCode(atom, greedy, check) == [ISplit(greedy, len + 5 + z)] + (push + (atom + [last]));
    AtAllCons(fetch, pc, ISplit(greedy, len + 5 + z), push + (atom + [last]));
    AtAllConcat(fetch, pc + 5, push, atom + [last]);
    AtAllConcat(fetch, pc + 5 + z, atom, [last]);
    TotalSizeConcat(push, atom + [last]);
    TotalSizeConcat(atom, [last]);
    AtAllOne(fetch, pc + 5, IPushCharPos);
    AtAllOne(fetch, pc + 5 + z + len, last);
  }

  // What a loop body needs to deliver.
  ghost predicate BodyOk(p: Prog, pc: int, len: int, back: bool, f: St -> seq<St>) {
    BlockOk(p, pc, pc + len, f) && Moves(p.env, back, f)
  }

  lemma {:induction false} StarOk(p: Prog, pc: int, len: int, greedy: bool, check: bool, back: bool,
                                  f: St -> seq<St>, fuel: nat, st: St, stk: seq<int>)
    requires StarAt(p.fetch, pc, len, greedy, check)
    requires BodyOk(p, pc + 5 + (if check then 1 else 0), len, back, f)
    requires check || Strict(p.env, f)
    requires ValidSt(p.env, st) && fuel > Dist(p.env, back, st)
    ensures Arrives(p, pc, st, stk, pc + len + 10 + (if check then 1 else 0), stk, Star(f, fuel, greedy, st))
    decreases fuel
  {
    hide Yields;
    hide FlatMap;
    var z := if check then 1 else 0;
    var e := pc + len + 10 + z;
    var more := FlatMap(f(st), StarFn(f, fuel - 1, greedy, st.pos));
    var body := pc + 5;
    forall ss ensures Yields(p, Run(body, st, stk, ss), e, stk, ss, more) {
      StarBody(p, pc, len, greedy, check, back, f, fuel, st, stk, ss);
    }
    forall ss ensures Yields(p, Run(e, st, stk, ss), e, stk, ss, [st]) {
      YieldsOne(p, e, stk, ss, st);
    }
    assert Arrives(p, pc + 5, st, stk, e, stk, more);
    forall ss ensures Yields(p, Run(pc, st, stk, ss), e, stk, ss, Star(f, fuel, greedy, st)) {
      SplitOk(p, pc, greedy, len + 5 + z, st, stk, ss, pc + 5, e, greedy, e, stk, more, [st]);
    }
  }

  lemma {:induction false} StarBody(p: Prog, pc: int, len: int, greedy: bool, check: bool, back: bool,
                                    f: St -> seq<St>, fuel: nat, st: St, stk: seq<int>, ss: seq<Saved>)
    requires StarAt(p.fetch, pc, len, greedy, check)
    requires BodyOk(p, pc + 5 + (if check then 1 else 0), len, back, f)
    requires check || Strict(p.env, f)
    requires ValidSt(p.env, st) && fuel > Dist(p.env, back, st)
    ensures Yields(p, Run(pc + 5, st, stk, ss), pc + len + 10 + (if check then 1 else 0), stk, ss,
                   FlatMap(f(st), StarFn(f, fuel - 1, greedy, st.pos)))
    decreases fuel, 0
  {
    hide Yields;
    hide FlatMap;
    var z := if check then 1 else 0;
    var e, m := pc + len + 10 + z, pc + 5 + z + len;
    var g, stkM := StarFn(f, fuel - 1, greedy, st.pos), if check then stk + [st.pos] else stk;
    forall x, ss1 | x in f(st)
      ensures Yields(p, Run(m, x, stkM, ss1), e, stk, ss1, g(x))
    {
      if x.pos != st.pos {
        StarOk(p, pc, len, greedy, check, back, f, fuel - 1, x, stk);
      }
      StarBack(p, m, check, pc, e, st.pos, x, stk, ss1, Star(f, fuel - 1, greedy, x));
    }
    var s := Run(pc + 5 + z, st, stkM, ss);
    YieldsBind(p, s, m, stkM, e, stk, ss, f(st), g);
    if check {
      assert Step(p, Run(pc + 5, st, stk, ss)) == s;
      YieldsStep(p, Run(pc + 5, st, stk, ss), e, stk, ss, FlatMap(f(st), g));
    }
  }

  // Reading the counter of a loop: back to pc with n - 1 rounds left, or on to the drop at d.
  lemma LoopStep(p: Prog, loopPc: int, pc: int, n: int, x: St, stk: seq<int>, ss: seq<Saved>)
    requires p.fetch(loopPc) == Some(ILoop(pc - (loopPc + 5))) && ValidSt(p.env, x)
    ensures Step(p, Run(loopPc, x, stk + [n], ss))
         == Run(if n - 1 != 0 then pc else loopPc + 5, x, stk + [n - 1], ss)
  {
    assert (stk + [n])[|stk| := n - 1] == stk + [n - 1];
  }

  lemma DropOk(p: Prog, d: int, x: St, stk: seq<int>, n: int)
    requires p.fetch(d) == Some(IDrop) && ValidSt(p.env, x)
    ensures Arrives(p, d, x, stk + [n], d + 1, stk, [x])
  {
    forall ss ensures Yields(p, Run(d, x, stk + [n], ss), d + 1, stk, ss, [x]) {
      assert (stk + [n])[..|stk|] == stk;
      assert Step(p, Run(d, x, stk + [n], ss)) == Run(d + 1, x, stk, ss);
      YieldsOne(p, d + 1, stk, ss, x);
      YieldsStep(p, Run(d, x, stk + [n], ss), d + 1, stk, ss, [x]);
    }
  }

  // After a round with n rounds budgeted: n - 1 are left, and none left means out.
  lemma LoopBack(p: Prog, loopPc: int, pc: int, n: int, x: St, stk: seq<int>, ss: seq<Saved>, again: seq<St>)
    requires p.fetch(loopPc) == Some(ILoop(pc - (loopPc + 5))) && p.fetch(loopPc + 5) == Some(IDrop)
    requires ValidSt(p.env, x) && n >= 1
    requires n > 1 ==> Yields(p, Run(pc, x, stk + [n - 1], ss), loopPc + 6, stk, ss, again)
    requires n == 1 ==> again == [x]
    ensures Yields(p, Run(loopPc, x, stk + [n], ss), loopPc + 6, stk, ss, again)
  {
    LoopStep(p, loopPc, pc, n, x, stk, ss);
    if n == 1 {
      DropOk(p, loopPc + 5, x, stk, 0);
    }
    YieldsStep(p, Run(loopPc, x, stk + [n], ss), loopPc + 6, stk, ss, again);
  }

  // At the split of UpToCode with n rounds to go.
  lemma {:induction false} UpToOk(p: Prog, pc: int, len: int, greedy: bool, back: bool,
                                  f: St -> seq<St>, n: nat, st: St, stk: seq<int>)
    requires p.fetch(pc) == Some(ISplit(greedy, len + 5))
    requires p.fetch(pc + 5 + len) == Some(ILoop(-(len + 10))) && p.fetch(pc + 10 + len) == Some(IDrop)
    requires BodyOk(p, pc + 5, len, back, f) && ValidSt(p.env, st) && n >= 1
    ensures Arrives(p, pc, st, stk + [n], pc + len + 11, stk, UpTo(f, n, greedy, st))
    decreases n
  {
    var body, e, m := pc + 5, pc + len + 11, pc + 5 + len;
    var g, stkM := UpToFn(f, n - 1, greedy), stk + [n];
    var more := FlatMap(f(st), g);
    forall ss ensures Yields(p, Run(body, st, stkM, ss), e, stk, ss, more) {
      forall x, ss1 | x in f(st)
        ensures Yields(p, Run(m, x, stkM, ss1), e, stk, ss1, g(x))
      {
        if n > 1 {
          UpToOk(p, pc, len, greedy, back, f, n - 1, x, stk);
        }
        LoopBack(p, m, pc, n, x, stk, ss1, g(x));
      }
      YieldsBind(p, Run(body, st, stkM, ss), m, stkM, e, stk, ss, f(st), g);
    }
    DropOk(p, pc + 10 + len, st, stk, n);
    forall ss ensures Yields(p, Run(pc, st, stkM, ss), e, stk, ss, UpTo(f, n, greedy, st)) {
      SplitOk(p, pc, greedy, len + 5, st, stkM, ss, body, pc + 10 + len, greedy, e, stk, more, [st]);
    }
  }

  // At the atom of ExactCode with n rounds to go.
  lemma {:induction false} ExactOk(p: Prog, pc: int, len: int, back: bool,
                                   f: St -> seq<St>, n: nat, st: St, stk: seq<int>)
    requires p.fetch(pc + len) == Some(ILoop(-(len + 5))) && p.fetch(pc + len + 5) == Some(IDrop)
    requires BodyOk(p, pc, len, back, f) && ValidSt(p.env, st) && n >= 1
    ensures Arrives(p, pc, st, stk + [n], pc + len + 6, stk, Exact(f, n, st))
    decreases n
  {
    var e, m := pc + len + 6, pc + len;
    var g, stkM := ExactFn(f, n - 1), stk + [n];
    forall ss ensures Yields(p, Run(pc, st, stkM, ss), e, stk, ss, Exact(f, n, st)) {
      forall x, ss1 | x in f(st)
        ensures Yields(p, Run(m, x, stkM, ss1), e, stk, ss1, g(x))
      {
        if n > 1 {
          ExactOk(p, pc, len, back, f, n - 1, x, stk);
        }
        LoopBack(p, m, pc, n, x, stk, ss1, g(x));
      }
      YieldsBind(p, Run(pc, st, stkM, ss), m, stkM, e, stk, ss, f(st), g);
    }
  }

  // push n in front of a counted loop.
  lemma PushOk(p: Prog, pc: int, n: int, st: St, stk: seq<int>, e: int, outs: seq<St>)
    requires p.fetch(pc) == Some(IPushI32(n)) && ValidSt(p.env, st)
    requires Arrives(p, pc + 5, st, stk + [n], e, stk, outs)
    ensures Arrives(p, pc, st, stk, e, stk, outs)
  {
    forall ss ensures Yields(p, Run(pc, st, stk, ss), e, stk, ss, outs) {
      assert Step(p, Run(pc, st, stk, ss)) == Run(pc + 5, st, stk + [n], ss);
      YieldsStep(p, Run(pc, st, stk, ss), e, stk, ss, outs);
    }
  }

  // At the split behind the atom of a `+` loop: stop here, or go round once more.
  lemma {:induction false} PlusSplitOk(p: Prog, pc: int, len: int, greedy: bool, back: bool,
                                       f: St -> seq<St>, fuel: nat, st: St, stk: seq<int>)
    requires p.fetch(pc + len) == Some(ISplit(!greedy, -(len + 5)))
    requires BodyOk(p, pc, len, back, f) && Strict(p.env, f)
    requires ValidSt(p.env, st) && fuel > Dist(p.env, back, st)
    ensures Arrives(p, pc + len, st, stk, pc + len + 5, stk, Star(f, fuel, greedy, st))
    decreases fuel
  {
    hide Yields;
    hide FlatMap;
    var e, m := pc + len + 5, pc + len;
    var g := StarFn(f, fuel - 1, greedy, st.pos);
    var more := FlatMap(f(st), g);
    forall ss ensures Yields(p, Run(pc, st, stk, ss), e, stk, ss, more) {
      forall x, ss1 | x in f(st)
        ensures Yields(p, Run(m, x, stk, ss1), e, stk, ss1, g(x))
      {
        PlusSplitOk(p, pc, len, greedy, back, f, fuel - 1, x, stk);
      }
      YieldsBind(p, Run(pc, st, stk, ss), m, stk, e, stk, ss, f(st), g);
    }
    forall ss ensures Yields(p, Run(e, st, stk, ss), e, stk, ss, [st]) {
      YieldsOne(p, e, stk, ss, st);
    }
    forall ss ensures Yields(p, Run(m, st, stk, ss), e, stk, ss, Star(f, fuel, greedy, st)) {
      SplitOk(p, m, !greedy, -(len + 5), st, stk, ss, pc, e, greedy, e, stk, more, [st]);
    }
  }

  // ----- Lazy loops in executions that end -----

  // A split at h first tries e, then a.
  ghost predicate StopsFirst(p: Prog, h: int, a: int, e: int) {
    forall st, stk, ss :: ValidSt(p.env, st) ==>
        Step(p, Run(h, st, stk, ss)) == Run(e, st, stk, ss + [SSplit(a, st, stk)])
  }

  lemma SplitStopsNext(p: Prog, h: int, off: int)
    requires p.fetch(h) == Some(ISplit(true, off))
    ensures StopsFirst(p, h, h + 5 + off, h + 5)
  {
  }

  lemma SplitStops(p: Prog, h: int, off: int)
    requires p.fetch(h) == Some(ISplit(false, off))
    ensures StopsFirst(p, h, h + 5, h + 5 + off)
  {
  }

  // The end of the atom is the head of the loop, or jumps there.
  ghost predicate GoesTo(p: Prog, m: int, h: int) {
    m == h || forall st, stk, ss :: ValidSt(p.env, st) ==> Step(p, Run(m, st, stk, ss)) == Run(h, st, stk, ss)
  }

  // Every round takes at least a step, so an execution within the limit cannot go round more often.
  lemma {:induction false} LazyLimited(p: Prog, h: int, a: int, m: int, e: int, f: St -> seq<St>, n: nat, st: St,
                                       stk: seq<int>)
    requires StopsFirst(p, h, a, e) && GoesTo(p, m, h) && BlockOk(p, a, m, f) && Closed(p.env, f)
    requires p.limit.Some? && p.limit.value <= n && ValidSt(p.env, st)
    ensures Arrives(p, h, st, stk, e, stk, UpTo(f, n, false, st))
    decreases p.limit.value
  {
    hide Yields;
    forall ss ensures Yields(p, Run(h, st, stk, ss), e, stk, ss, UpTo(f, n, false, st)) {
      if p.limit.value == 0 {
        assert StepN(p, 0, Run(h, st, stk, ss)) == Run(h, st, stk, ss);
        YieldsUncounted(p, Run(h, st, stk, ss), e, stk, ss, UpTo(f, n, false, st));
      } else {
        var more := FlatMap(f(st), UpToFn(f, n - 1, false));
        LazyRounds(p, h, a, m, e, f, n, st, stk, ss);
        LazyStops(p, h, a, e, st, stk, ss, more);
        assert UpTo(f, n, false, st) == [st] + more;
      }
    }
  }

  // The rounds after the first stop, with a step less to go.
  lemma {:induction false} LazyRounds(p: Prog, h: int, a: int, m: int, e: int, f: St -> seq<St>, n: nat, st: St,
                                      stk: seq<int>, ss: seq<Saved>)
    requires StopsFirst(p, h, a, e) && GoesTo(p, m, h) && BlockOk(p, a, m, f) && Closed(p.env, f)
    requires p.limit.Some? && 0 < p.limit.value <= n && ValidSt(p.env, st)
    ensures Yields(Tighter(p), Fail(ss + [SSplit(a, st, stk)]), e, stk, ss, FlatMap(f(st), UpToFn(f, n - 1, false)))
    decreases p.limit.value, 0
  {
    hide Yields;
    hide Step;
    hide BlockOk;
    var q, g := Tighter(p), UpToFn(f, n - 1, false);
    BlockTighter(p, a, m, f);
    LayoutTighter(p, h, a, m, e);
    forall x, ss1 | x in f(st)
      ensures Yields(q, Run(m, x, stk, ss1), e, stk, ss1, g(x))
    {
      LazyLimited(q, h, a, m, e, f, n - 1, x, stk);
      if m != h {
        YieldsStep(q, Run(m, x, stk, ss1), e, stk, ss1, g(x));
      }
    }
    BlockArrives(q, a, m, f, st, stk);
    YieldsBind(q, Run(a, st, stk, ss), m, stk, e, stk, ss, f(st), g);
    PopSplit(q, SSplit(a, st, stk), ss, e, stk, FlatMap(f(st), g));
  }

  lemma LayoutTighter(p: Prog, h: int, a: int, m: int, e: int)
    requires p.limit.Some? && p.limit.value > 0 && StopsFirst(p, h, a, e) && GoesTo(p, m, h)
    ensures StopsFirst(Tighter(p), h, a, e) && GoesTo(Tighter(p), m, h)
  {
    hide Step;
    forall st, stk, ss | ValidSt(p.env, st)
      ensures Step(Tighter(p), Run(h, st, stk, ss)) == Run(e, st, stk, ss + [SSplit(a, st, stk)])
      ensures m == h || Step(Tighter(p), Run(m, st, stk, ss)) == Run(h, st, stk, ss)
    {
      StepSame(p, Tighter(p), Run(h, st, stk, ss));
      StepSame(p, Tighter(p), Run(m, st, stk, ss));
    }
  }

  // The loop stops first, and then does what it does with a step less to go.
  lemma LazyStops(p: Prog, h: int, a: int, e: int, st: St, stk: seq<int>, ss: seq<Saved>, more: seq<St>)
    requires StopsFirst(p, h, a, e) && ValidSt(p.env, st) && p.limit.Some? && p.limit.value > 0
    requires Yields(Tighter(p), Fail(ss + [SSplit(a, st, stk)]), e, stk, ss, more)
    ensures Yields(p, Run(h, st, stk, ss), e, stk, ss, [st] + more)
  {
    var q, ss1 := Tighter(p), ss + [SSplit(a, st, stk)];
    var s, t := Run(h, st, stk, ss), Run(e, st, stk, ss1);
    assert Step(p, s) == t;
    UnwindPush(ss, SSplit(a, st, stk));
    CountsTighter(p, s);
    ReachesSelf(p, t);
    ReachesStep(p, s, t);
    hide Step;
    hide Reaches;
    hide Counts;
    if Counts(p, s) {
      if Reaches(p, t, Fail(ss1)) {
        ReachesSame(p, q, t, Fail(ss1));
        CountsLater(q, t, Fail(ss1));
        YieldsTighter(p, Fail(ss1), e, stk, ss, more);
      }
      assert ([st] + more)[1..] == more;
      assert YieldsVia(p, s, e, stk, ss, [st] + more, ss1);
    }
  }

  // ----- Look-around -----

  lemma LookLayout(fetch: Fetch, pc: int, neg: bool, body: seq<Instr>)
    requires AtAll(fetch, pc, [ILook(neg, TotalSize(body) + 1)] + body + [IMatch])
    ensures fetch(pc) == Some(ILook(neg, TotalSize(body) + 1)) && AtAll(fetch, pc + 5, body)
    ensures fetch(pc + 5 + TotalSize(body)) == Some(IMatch)
    ensures TotalSize([ILook(neg, TotalSize(body) + 1)] + body + [IMatch]) == TotalSize(body) + 6
  {
    hide AtAll;
    hide TotalSize;
    var look := ILook(neg, TotalSize(body) + 1);
    assert [look] + body + [IMatch] == [look] + (body + [IMatch]);
    AtAllCons(fetch, pc, look, body + [IMatch]);
    AtAllConcat(fetch, pc + 5, body, [IMatch]);
    TotalSizeConcat(body, [IMatch]);
    AtAllOne(fetch, pc + 5 + TotalSize(body), IMatch);
  }

  // Only whether the body succeeds, and the captures of its first success, get out.
  lemma LookOk(p: Prog, pc: int, len: int, neg: bool, f: St -> seq<St>, st: St, stk: seq<int>, ss: seq<Saved>)
    requires p.fetch(pc) == Some(ILook(neg, len + 1)) && p.fetch(pc + 5 + len) == Some(IMatch)
    requires BlockOk(p, pc + 5, pc + 5 + len, f) && Closed(p.env, f) && ValidSt(p.env, st)
    ensures Yields(p, Run(pc, st, stk, ss), pc + 6 + len, stk, ss,
                   if neg then (if f(st) == [] then [st] else [])
                   else (if f(st) == [] then [] else [st.(cap := f(st)[0].cap)]))
  {
    var e, m := pc + 6 + len, pc + 5 + len;
    var look := SLook(neg, e, st, stk);
    var ss1 := ss + [look];
    assert ss1[..|ss|] == ss;
    var start, body := Run(pc, st, stk, ss), Run(pc + 5, st, stk, ss1);
    assert Step(p, start) == body;
    assert Yields(p, body, m, stk, ss1, f(st));
    if !Counts(p, body) {
      var outs := if neg then (if f(st) == [] then [st] else [])
                  else (if f(st) == [] then [] else [st.(cap := f(st)[0].cap)]);
      YieldsUncounted(p, body, e, stk, ss, outs);
      YieldsStep(p, start, e, stk, ss, outs);
    } else if f(st) == [] {
      assert Step(p, Fail(ss1)) == if neg then Run(e, st, stk, ss) else Fail(ss);
      if neg {
        YieldsOne(p, e, stk, ss, st);
        YieldsStep(p, Fail(ss1), e, stk, ss, [st]);
        YieldsPrefix(p, body, Fail(ss1), e, stk, ss, [st]);
        YieldsStep(p, start, e, stk, ss, [st]);
      } else {
        YieldsNone(p, e, stk, ss);
        YieldsStep(p, Fail(ss1), e, stk, ss, []);
        YieldsPrefix(p, body, Fail(ss1), e, stk, ss, []);
        YieldsStep(p, start, e, stk, ss, []);
      }
    } else {
      var x := f(st)[0];
      var ss2 := FirstYield(p, body, m, stk, ss1, f(st));
      LookMatched(p, m, x, stk, ss2, look, ss);
      var outs := if neg then [] else [st.(cap := x.cap)];
      YieldsPrefix(p, body, Run(m, x, stk, ss2), e, stk, ss, outs);
      YieldsStep(p, start, e, stk, ss, outs);
    }
  }

  // The match that ends a look-around body with alternatives ss2 above it.
  lemma LookMatched(p: Prog, m: int, x: St, stk: seq<int>, ss2: seq<Saved>, look: Saved, ss: seq<Saved>)
    requires p.fetch(m) == Some(IMatch) && look.SLook? && ValidSt(p.env, x) && look.stk == stk
    requires Unwind(ss2) == Unwind(ss + [look])
    ensures Yields(p, Run(m, x, stk, ss2), look.pc, stk, ss, if look.neg then [] else [St(look.st.pos, x.cap)])
  {
    var ss1 := ss + [look];
    assert Unwind(ss1) == ss1 && ss1[..|ss|] == ss;
    var outs := if look.neg then [] else [St(look.st.pos, x.cap)];
    var s := Run(m, x, stk, ss2);
    if look.neg {
      assert Step(p, s) == Fail(ss);
      YieldsNone(p, look.pc, stk, ss);
    } else {
      assert Step(p, s) == Run(look.pc, St(look.st.pos, x.cap), stk, ss);
      YieldsOne(p, look.pc, stk, ss, St(look.st.pos, x.cap));
    }
    YieldsStep(p, s, look.pc, stk, ss, outs);
  }
}
