// Where empty rounds go unnoticed: a lazy loop whose atom has an empty success never lets go when
// what follows keeps failing. That every round consumes something is therefore exactly what a lazy
// loop needs.

module RegexpDiverge {
  import opened Basics
  import opened CharRanges
  import opened RegexpCode
  import opened RegexpCompile
  import opened RegexpSemantics
  import opened RegexpVM
  import opened RegexpBlocks
  import opened RegexpGreedy
  import opened RegexpQuant
  import opened RegexpCorrect
  import opened RegexpTheorem
  import opened RegexpLanguage
  import opened RegexpRun
  import opened RegexpHalts

  // ----- Endless runs -----

  ghost predicate Halts(p: Prog, s: Vm) {
    exists n: nat :: Stopped(StepN(p, n, s))
  }

  ghost predicate GoesOn(p: Prog, s: Vm, k: nat) {
    exists n: nat :: n >= k && !Stopped(StepN(p, n, s))
  }

  // A run still going after arbitrarily many steps never halts.
  lemma NeverStops(p: Prog, s: Vm)
    requires forall k: nat :: GoesOn(p, s, k)
    ensures !Halts(p, s)
  {
    if Halts(p, s) {
      var m: nat :| Stopped(StepN(p, m, s));
      assert GoesOn(p, s, m);
      var n: nat :| n >= m && !Stopped(StepN(p, n, s));
      StepNAdd(p, m, n - m, s);
      StoppedStays(p, n - m, StepN(p, m, s));
    }
  }

  lemma HaltsLater(p: Prog, s: Vm, t: Vm)
    requires Reaches(p, s, t) && Halts(p, s)
    ensures Halts(p, t)
  {
    var n: nat :| StepN(p, n, s) == t;
    var m: nat :| Stopped(StepN(p, m, s));
    if n <= m {
      StepNAdd(p, n, m - n, s);
      assert Stopped(StepN(p, m - n, t));
    } else {
      StepNAdd(p, m, n - m, s);
      StoppedStays(p, n - m, StepN(p, m, s));
      assert Stopped(StepN(p, 0, t));
    }
  }

  lemma ReachesHalts(p: Prog, s: Vm, t: Vm)
    requires Reaches(p, s, t) && Stopped(t)
    ensures Halts(p, s)
  {
    var n: nat :| StepN(p, n, s) == t;
    assert Stopped(StepN(p, n, s));
  }

  // ----- One turn of a lazy loop -----

  // Whatever arrives at e fails there.
  ghost predicate Blocks(p: Prog, e: int) {
    forall st, stk, ss :: ValidSt(p.env, st) ==> Step(p, Run(e, st, stk, ss)) == Fail(ss)
  }

  // Then an enumeration at e is nothing but a detour to the next alternative.
  lemma {:induction false} AllBlocked(p: Prog, s: Vm, e: int, stk: seq<int>, base: seq<Saved>, outs: seq<St>)
    requires Yields(p, s, e, stk, base, outs) && Blocks(p, e) && Unlimited(p)
    requires forall x :: x in outs ==> ValidSt(p.env, x)
    ensures Reaches(p, s, Fail(base))
    decreases |outs|
  {
    if outs != [] {
      var ss := FirstYield(p, s, e, stk, base, outs);
      var there := Run(e, outs[0], stk, ss);
      assert Step(p, there) == Fail(ss);
      ReachesSelf(p, Fail(ss));
      ReachesStep(p, there, Fail(ss));
      ReachesTrans(p, s, there, Fail(ss));
      AllBlocked(p, Fail(ss), e, stk, base, outs[1..]);
      ReachesTrans(p, s, Fail(ss), Fail(base));
    }
  }

  // From m the machine gets to h without changing anything.
  ghost predicate Leads(p: Prog, m: int, h: int) {
    forall st, stk, ss :: ValidSt(p.env, st) ==> Reaches(p, Run(m, st, stk, ss), Run(h, st, stk, ss))
  }

  // A lazy loop with its head at h and its atom from a to m, in front of a dead end at e.
  ghost predicate LazyLoop(p: Prog, h: int, a: int, m: int, e: int, back: bool, f: St -> seq<St>) {
    && StopsFirst(p, h, a, e) && Blocks(p, e) && Leads(p, m, h) && BlockOk(p, a, m, f) && Moves(p.env, back, f)
    && Unlimited(p)
  }

  // Stopping fails, so the atom is entered.
  lemma LazyEnters(p: Prog, h: int, a: int, m: int, e: int, back: bool, f: St -> seq<St>, st: St, stk: seq<int>,
                   ss: seq<Saved>)
    requires LazyLoop(p, h, a, m, e, back, f) && ValidSt(p.env, st)
    ensures Reaches(p, Step(p, Run(h, st, stk, ss)), Run(a, st, stk, ss))
  {
    hide BlockOk;
    hide Moves;
    hide Leads;
    var alt := SSplit(a, st, stk);
    var s1, s2, s3 := Run(e, st, stk, ss + [alt]), Fail(ss + [alt]), Run(a, st, stk, ss);
    assert Step(p, Run(h, st, stk, ss)) == s1;
    assert Step(p, s1) == s2;
    assert (ss + [alt])[..|ss|] == ss;
    assert Step(p, s2) == s3;
    ReachesSelf(p, s3);
    ReachesStep(p, s2, s3);
    ReachesStep(p, s1, s3);
  }

  // What entering the atom leads to.
  lemma BodyRuns(p: Prog, h: int, a: int, m: int, e: int, back: bool, f: St -> seq<St>, st: St, stk: seq<int>,
                 ss: seq<Saved>)
    requires LazyLoop(p, h, a, m, e, back, f) && ValidSt(p.env, st)
    ensures Yields(p, Run(a, st, stk, ss), m, stk, ss, f(st))
    ensures forall x :: x in f(st) ==> ValidSt(p.env, x) && Dist(p.env, back, x) <= Dist(p.env, back, st)
  {
    hide Yields;
    hide StopsFirst;
    hide Blocks;
    hide Leads;
  }

  // No empty success where at most d characters are left.
  ghost predicate StrictFrom(env: Env, back: bool, f: St -> seq<St>, d: int) {
    forall st, x :: ValidSt(env, st) && Dist(env, back, st) <= d && x in f(st) ==> x.pos != st.pos
  }

  lemma StrictLess(env: Env, back: bool, f: St -> seq<St>, d: int, d': int)
    requires StrictFrom(env, back, f, d) && d' <= d
    ensures StrictFrom(env, back, f, d')
  {
  }

  // From a state where only non-empty rounds are ahead, the loop gives up.
  lemma {:induction false} LoopGivesUp(p: Prog, h: int, a: int, m: int, e: int, back: bool, f: St -> seq<St>,
                                       st: St, stk: seq<int>, ss: seq<Saved>)
    requires LazyLoop(p, h, a, m, e, back, f) && ValidSt(p.env, st)
    requires StrictFrom(p.env, back, f, Dist(p.env, back, st))
    ensures Reaches(p, Run(h, st, stk, ss), Fail(ss))
    decreases Dist(p.env, back, st), 1, 0
  {
    hide StopsFirst;
    hide Blocks;
    hide BlockOk;
    hide Moves;
    hide Leads;
    hide Yields;
    hide Reaches;
    hide Step;
    LazyEnters(p, h, a, m, e, back, f, st, stk, ss);
    BodyRuns(p, h, a, m, e, back, f, st, stk, ss);
    forall x | x in f(st) ensures Dist(p.env, back, x) < Dist(p.env, back, st) {
      assert x.pos != st.pos;
    }
    AllGiveUp(p, Run(a, st, stk, ss), h, a, m, e, back, f, m, stk, ss, f(st), Dist(p.env, back, st));
    ReachesTrans(p, Step(p, Run(h, st, stk, ss)), Run(a, st, stk, ss), Fail(ss));
    ReachesStep(p, Run(h, st, stk, ss), Fail(ss));
  }

  // The successes xs arriving at q on their way to the loop, all nearer to the end than d, give up.
  lemma {:induction false} AllGiveUp(p: Prog, s: Vm, h: int, a: int, m: int, e: int, back: bool, f: St -> seq<St>,
                                     q: int, stk: seq<int>, base: seq<Saved>, xs: seq<St>, d: int)
    requires LazyLoop(p, h, a, m, e, back, f) && Leads(p, q, h) && StrictFrom(p.env, back, f, d)
    requires Yields(p, s, q, stk, base, xs)
    requires forall x :: x in xs ==> ValidSt(p.env, x) && Dist(p.env, back, x) < d
    ensures Reaches(p, s, Fail(base))
    decreases d, 0, |xs|
  {
    assert Unlimited(p);
    hide LazyLoop;
    hide StrictFrom;
    hide Reaches;
    hide Step;
    if xs != [] {
      var ss := FirstYield(p, s, q, stk, base, xs);
      assert xs[0] in xs;
      var there, head := Run(q, xs[0], stk, ss), Run(h, xs[0], stk, ss);
      StrictLess(p.env, back, f, d, Dist(p.env, back, xs[0]));
      LoopGivesUp(p, h, a, m, e, back, f, xs[0], stk, ss);
      ReachesTrans(p, there, head, Fail(ss));
      ReachesTrans(p, s, there, Fail(ss));
      AllGiveUp(p, Fail(ss), h, a, m, e, back, f, q, stk, base, xs[1..], d);
      ReachesTrans(p, s, Fail(ss), Fail(base));
    }
  }

  // The loop head, entered with the position pos.
  ghost predicate HeadAt(p: Prog, s: Vm, h: int, pos: int, stk: seq<int>) {
    exists x, ss :: ValidSt(p.env, x) && x.pos == pos && Reaches(p, s, Run(h, x, stk, ss))
  }

  lemma HeadLater(p: Prog, s: Vm, t: Vm, h: int, pos: int, stk: seq<int>)
    requires Reaches(p, s, t) && HeadAt(p, t, h, pos, stk)
    ensures HeadAt(p, s, h, pos, stk)
  {
    var x, ss :| ValidSt(p.env, x) && x.pos == pos && Reaches(p, t, Run(h, x, stk, ss));
    ReachesTrans(p, s, t, Run(h, x, stk, ss));
  }

  // The successes xs are tried one after the other, up to the first that has not moved from st.
  lemma {:induction false} RoundReturns(p: Prog, s: Vm, h: int, a: int, m: int, e: int, back: bool, f: St -> seq<St>,
                                        q: int, stk: seq<int>, base: seq<Saved>, xs: seq<St>, st: St, z: St)
    requires LazyLoop(p, h, a, m, e, back, f) && Leads(p, q, h) && ValidSt(p.env, st)
    requires StrictFrom(p.env, back, f, Dist(p.env, back, st) - 1)
    requires Yields(p, s, q, stk, base, xs)
    requires forall x :: x in xs ==> ValidSt(p.env, x) && Dist(p.env, back, x) <= Dist(p.env, back, st)
    requires z in xs && z.pos == st.pos
    ensures HeadAt(p, s, h, st.pos, stk)
    decreases |xs|
  {
    assert Unlimited(p);
    hide StrictFrom;
    hide LazyLoop;
    hide Reaches;
    hide Step;
    var ss := FirstYield(p, s, q, stk, base, xs);
    var there, head := Run(q, xs[0], stk, ss), Run(h, xs[0], stk, ss);
    assert xs[0] in xs;
    ReachesTrans(p, s, there, head);
    if xs[0].pos != st.pos {
      StrictLess(p.env, back, f, Dist(p.env, back, st) - 1, Dist(p.env, back, xs[0]));
      LoopGivesUp(p, h, a, m, e, back, f, xs[0], stk, ss);
      ReachesTrans(p, there, head, Fail(ss));
      ReachesTrans(p, s, there, Fail(ss));
      RoundReturns(p, Fail(ss), h, a, m, e, back, f, q, stk, base, xs[1..], st, z);
      HeadLater(p, s, Fail(ss), h, st.pos, stk);
    }
  }

  // Every state at pos has an empty success, and none nearer to the end has one.
  ghost predicate EmptyAt(env: Env, back: bool, f: St -> seq<St>, pos: int) {
    && (forall st :: ValidSt(env, st) && st.pos == pos ==> exists x :: x in f(st) && x.pos == pos)
    && (forall st :: ValidSt(env, st) && st.pos == pos ==> StrictFrom(env, back, f, Dist(env, back, st) - 1))
  }

  lemma EmptyWitness(env: Env, back: bool, f: St -> seq<St>, st: St) returns (z: St)
    requires EmptyAt(env, back, f, st.pos) && ValidSt(env, st)
    ensures z in f(st) && z.pos == st.pos && StrictFrom(env, back, f, Dist(env, back, st) - 1)
  {
    hide StrictFrom;
    z :| z in f(st) && z.pos == st.pos;
  }

  lemma LoopReturns(p: Prog, h: int, a: int, m: int, e: int, back: bool, f: St -> seq<St>, st: St, stk: seq<int>,
                    ss: seq<Saved>)
    requires LazyLoop(p, h, a, m, e, back, f) && ValidSt(p.env, st) && EmptyAt(p.env, back, f, st.pos)
    ensures HeadAt(p, Step(p, Run(h, st, stk, ss)), h, st.pos, stk)
  {
    hide StrictFrom;
    hide EmptyAt;
    hide Yields;
    hide Step;
    hide Reaches;
    hide StopsFirst;
    hide Blocks;
    hide BlockOk;
    hide Moves;
    hide Leads;
    var body := Run(a, st, stk, ss);
    LazyEnters(p, h, a, m, e, back, f, st, stk, ss);
    BodyRuns(p, h, a, m, e, back, f, st, stk, ss);
    var z := EmptyWitness(p.env, back, f, st);
    RoundReturns(p, body, h, a, m, e, back, f, m, stk, ss, f(st), st, z);
    HeadLater(p, Step(p, Run(h, st, stk, ss)), body, h, st.pos, stk);
  }

  // k turns take at least k steps.
  lemma {:induction false} ManyTurns(p: Prog, h: int, a: int, m: int, e: int, back: bool, f: St -> seq<St>, st: St,
                                     stk: seq<int>, ss: seq<Saved>, k: nat) returns (n: nat)
    requires LazyLoop(p, h, a, m, e, back, f) && ValidSt(p.env, st) && EmptyAt(p.env, back, f, st.pos)
    ensures n >= k && StepN(p, n, Run(h, st, stk, ss)).Run?
    decreases k
  {
    hide LazyLoop;
    hide EmptyAt;
    hide Step;
    var s := Run(h, st, stk, ss);
    if k == 0 {
      n := 0;
    } else {
      LoopReturns(p, h, a, m, e, back, f, st, stk, ss);
      var x, ss1 :| ValidSt(p.env, x) && x.pos == st.pos && Reaches(p, Step(p, s), Run(h, x, stk, ss1));
      var n0: nat :| StepN(p, n0, Step(p, s)) == Run(h, x, stk, ss1);
      var n1 := ManyTurns(p, h, a, m, e, back, f, x, stk, ss1, k - 1);
      StepNAdd(p, n0, n1, Step(p, s));
      n := 1 + (n0 + n1);
      assert StepN(p, n, s) == StepN(p, n0 + n1, Step(p, s));
    }
  }

  lemma LoopsForever(p: Prog, h: int, a: int, m: int, e: int, back: bool, f: St -> seq<St>, st: St, stk: seq<int>,
                     ss: seq<Saved>)
    requires LazyLoop(p, h, a, m, e, back, f) && ValidSt(p.env, st) && EmptyAt(p.env, back, f, st.pos)
    ensures !Halts(p, Run(h, st, stk, ss))
  {
    hide LazyLoop;
    hide EmptyAt;
    forall k: nat ensures GoesOn(p, Run(h, st, stk, ss), k) {
      var n := ManyTurns(p, h, a, m, e, back, f, st, stk, ss, k);
    }
    NeverStops(p, Run(h, st, stk, ss));
  }

  // Entered through code that yields xs, one of which has not moved from st.
  lemma EntersForever(p: Prog, s: Vm, h: int, a: int, m: int, e: int, back: bool, f: St -> seq<St>,
                      stk: seq<int>, base: seq<Saved>, xs: seq<St>, st: St, z: St)
    requires LazyLoop(p, h, a, m, e, back, f) && ValidSt(p.env, st) && EmptyAt(p.env, back, f, st.pos)
    requires Yields(p, s, h, stk, base, xs)
    requires forall x :: x in xs ==> ValidSt(p.env, x) && Dist(p.env, back, x) <= Dist(p.env, back, st)
    requires z in xs && z.pos == st.pos
    ensures !Halts(p, s)
  {
    hide LazyLoop;
    hide EmptyAt;
    hide StrictFrom;
    hide Yields;
    hide Halts;
    hide Step;
    var y := EmptyWitness(p.env, back, f, st);
    LeadsSelf(p, h);
    hide Leads;
    hide Reaches;
    RoundReturns(p, s, h, a, m, e, back, f, h, stk, base, xs, st, z);
    var x, ss :| ValidSt(p.env, x) && x.pos == st.pos && Reaches(p, s, Run(h, x, stk, ss));
    LoopsForever(p, h, a, m, e, back, f, x, stk, ss);
    if Halts(p, s) {
      HaltsLater(p, s, Run(h, x, stk, ss));
    }
  }

  lemma LeadsSelf(p: Prog, h: int)
    ensures Leads(p, h, h)
  {
    forall st, stk, ss ensures Reaches(p, Run(h, st, stk, ss), Run(h, st, stk, ss)) {
      ReachesSelf(p, Run(h, st, stk, ss));
    }
  }

  // ----- Exactly when the loop is right -----

  // Whether f has an empty success depends on the position alone.
  ghost predicate ByPosition(env: Env, f: St -> seq<St>) {
    forall st, st1, x :: ValidSt(env, st) && ValidSt(env, st1) && st.pos == st1.pos && x in f(st) && x.pos == st.pos
      ==> exists y :: y in f(st1) && y.pos == st.pos
  }

  // So it is for patterns without back references.
  lemma PatternByPosition(env: Env, b: Re, back: bool, cc: nat)
    requires WellFormed(b) && NoBackRef(b)
    ensures ByPosition(env, EndsFn(env, b, back, cc))
  {
    hide Ends;
    hide Lang;
    var f := EndsFn(env, b, back, cc);
    forall st, st1, x | ValidSt(env, st) && ValidSt(env, st1) && st.pos == st1.pos && x in f(st) && x.pos == st.pos
      ensures exists y :: y in f(st1) && y.pos == st.pos
    {
      EndsHits(env, b, back, cc, st, st.pos);
      EndsHits(env, b, back, cc, st1, st.pos);
    }
  }

  lemma NearestIs(env: Env, back: bool, f: St -> seq<St>, st: St, x: St)
    requires ByPosition(env, f) && ValidSt(env, st) && x in f(st) && x.pos == st.pos
    requires StrictFrom(env, back, f, Dist(env, back, st) - 1)
    ensures EmptyAt(env, back, f, st.pos)
  {
    hide StrictFrom;
  }

  // Of all positions with an empty success there is one nearest to the end.
  lemma {:induction false} NearestEmpty(env: Env, back: bool, f: St -> seq<St>, st: St, x: St) returns (pos: int)
    requires ByPosition(env, f) && ValidSt(env, st) && x in f(st) && x.pos == st.pos
    ensures 0 <= pos <= |env.input| && EmptyAt(env, back, f, pos)
    decreases Dist(env, back, st)
  {
    hide ByPosition;
    var d := Dist(env, back, st) - 1;
    if StrictFrom(env, back, f, d) {
      pos := st.pos;
      NearestIs(env, back, f, st, x);
    } else {
      var st1, y :| ValidSt(env, st1) && Dist(env, back, st1) <= d && y in f(st1) && y.pos == st1.pos;
      pos := NearestEmpty(env, back, f, st1, y);
    }
  }

  // What precedes the optional rounds: captures are reset, or the mandatory rounds are made.
  ghost function HeadFn(f: St -> seq<St>, lo: int, hi: int, min: nat): St -> seq<St> {
    if min == 0 then StartFn(lo, hi) else ExactFn(f, min)
  }

  // It stays where it is if the rounds do.
  lemma HeadStays(env: Env, back: bool, f: St -> seq<St>, lo: int, hi: int, min: nat, st: St) returns (z: St)
    requires Moves(env, back, f) && ValidSt(env, st) && EmptyAt(env, back, f, st.pos)
    ensures z in HeadFn(f, lo, hi, min)(st) && z.pos == st.pos
    ensures forall x :: x in HeadFn(f, lo, hi, min)(st) ==> ValidSt(env, x) && Dist(env, back, x) <= Dist(env, back, st)
  {
    hide EmptyAt;
    hide Moves;
    if min == 0 {
      z := Start(0, lo, hi, st);
    } else {
      z := ExactStays(env, back, f, min, st);
      forall x | x in Exact(f, min, st) ensures ValidSt(env, x) && Dist(env, back, x) <= Dist(env, back, st) {
        ExactMoves(env, back, f, min, st, x);
      }
    }
  }

  lemma {:induction false} ExactStays(env: Env, back: bool, f: St -> seq<St>, n: nat, st: St) returns (z: St)
    requires Moves(env, back, f) && ValidSt(env, st) && EmptyAt(env, back, f, st.pos)
    ensures z in Exact(f, n, st) && z.pos == st.pos
    decreases n
  {
    hide EmptyAt;
    if n == 0 {
      z := st;
    } else {
      var y := EmptyWitness(env, back, f, st);
      z := ExactStays(env, back, f, n - 1, y);
      FlatMapHas(f(st), ExactFn(f, n - 1), y, z);
    }
  }

  lemma {:induction false} FlatMapHas(xs: seq<St>, g: St -> seq<St>, y: St, z: St)
    requires y in xs && z in g(y)
    ensures z in FlatMap(xs, g)
    decreases |xs|
  {
    if y != xs[0] {
      FlatMapHas(xs[1..], g, y, z);
    }
  }

  // The code of a lazy unbounded quantifier at pc, in front of a dead end, contains such a loop.
  lemma LazyParts(p: Prog, pc: int, atom: seq<Instr>, lo: int, hi: int, min: nat, back: bool, f: St -> seq<St>)
    returns (h: int, a: int, m: int)
    requires AtAll(p.fetch, pc, QuantCode(atom, lo, hi, min, INT32_MAX, false)) && AtomOk(p, atom, back, f)
    requires Blocks(p, pc + TotalSize(QuantCode(atom, lo, hi, min, INT32_MAX, false))) && Unlimited(p)
    requires 0 <= lo <= hi <= p.env.capCount
    ensures BlockOk(p, pc, h, HeadFn(f, lo, hi, min))
    ensures LazyLoop(p, h, a, m, pc + TotalSize(QuantCode(atom, lo, hi, min, INT32_MAX, false)), back, f)
  {
    hide BlockOk;
    hide Blocks;
    hide AtAll;
    hide TotalSize;
    hide StarCode;
    hide ExactCode;
    hide CheckAdvance;
    hide SimpleCount;
    hide AtomOk;
    hide StopsFirst;
    hide Leads;
    if min == 1 {
      var split := ISplit(true, -((TotalSize(atom) as int) + 5));
      ConcatLayout(p.fetch, pc, atom, [split]);
      h, a, m := PlusParts(p, pc, atom, back, f);
    } else {
      var head := if min == 0 then ResetCode(lo, hi) else ExactCode(atom, min);
      assert QuantCode(atom, lo, hi, min, INT32_MAX, false) == head + StarCode(atom, false, false);
      ConcatLayout(p.fetch, pc, head, StarCode(atom, false, false));
      if min == 0 {
        ResetOk(p, pc, lo, hi);
      } else {
        HeadOk(p, pc, atom, back, f, min);
      }
      h, a, m := StarParts(p, pc + TotalSize(head), atom, back, f);
    }
  }

  lemma StarParts(p: Prog, pc: int, atom: seq<Instr>, back: bool, f: St -> seq<St>) returns (h: int, a: int, m: int)
    requires AtAll(p.fetch, pc, StarCode(atom, false, false)) && AtomOk(p, atom, back, f)
    requires Blocks(p, pc + TotalSize(StarCode(atom, false, false))) && Unlimited(p)
    ensures h == pc && LazyLoop(p, h, a, m, pc + TotalSize(StarCode(atom, false, false)), back, f)
  {
    hide BlockOk;
    hide Blocks;
    hide AtAll;
    hide TotalSize;
    hide StarCode;
    StarLayout(p.fetch, pc, atom, false, false);
    h, a, m := pc, pc + 5, pc + 5 + TotalSize(atom);
    SplitStops(p, pc, TotalSize(atom) + 5);
    GotoLeads(p, m, -(TotalSize(atom) + 10));
    hide StopsFirst;
    hide Leads;
  }

  lemma PlusParts(p: Prog, pc: int, atom: seq<Instr>, back: bool, f: St -> seq<St>) returns (h: int, a: int, m: int)
    requires AtAll(p.fetch, pc, atom + [ISplit(true, -(TotalSize(atom) + 5))]) && AtomOk(p, atom, back, f)
    requires Blocks(p, pc + TotalSize(atom + [ISplit(true, -(TotalSize(atom) + 5))])) && Unlimited(p)
    ensures BlockOk(p, pc, h, ExactFn(f, 1))
    ensures LazyLoop(p, h, a, m, pc + TotalSize(atom + [ISplit(true, -(TotalSize(atom) + 5))]), back, f)
  {
    hide BlockOk;
    hide Blocks;
    hide AtAll;
    hide TotalSize;
    var len: int := TotalSize(atom);
    var split := ISplit(true, -(len + 5));
    ConcatLayout(p.fetch, pc, atom, [split]);
    AtAllOne(p.fetch, pc + len, split);
    HeadOk(p, pc, atom, back, f, 1);
    h, a, m := pc + len, pc, pc + len;
    SplitStopsNext(p, h, -(len + 5));
    LeadsSelf(p, h);
    hide StopsFirst;
    hide Leads;
  }

  lemma GotoLeads(p: Prog, m: int, off: int)
    requires p.fetch(m) == Some(IGoto(off))
    ensures Leads(p, m, m + 5 + off)
  {
    forall st, stk, ss | ValidSt(p.env, st)
      ensures Reaches(p, Run(m, st, stk, ss), Run(m + 5 + off, st, stk, ss))
    {
      assert Step(p, Run(m, st, stk, ss)) == Run(m + 5 + off, st, stk, ss);
      ReachesSelf(p, Run(m + 5 + off, st, stk, ss));
      ReachesStep(p, Run(m, st, stk, ss), Run(m + 5 + off, st, stk, ss));
    }
  }

  // From a position with an empty success the quantifier never gets away.
  lemma LazyQuantDiverges(p: Prog, pc: int, atom: seq<Instr>, lo: int, hi: int, min: nat, back: bool, f: St -> seq<St>,
                          st: St)
    requires AtAll(p.fetch, pc, QuantCode(atom, lo, hi, min, INT32_MAX, false)) && AtomOk(p, atom, back, f)
    requires Blocks(p, pc + TotalSize(QuantCode(atom, lo, hi, min, INT32_MAX, false))) && Unlimited(p)
    requires 0 <= lo <= hi <= p.env.capCount
    requires ValidSt(p.env, st) && EmptyAt(p.env, back, f, st.pos)
    ensures !Halts(p, Run(pc, st, [], []))
  {
    hide AtAll;
    hide TotalSize;
    hide QuantCode;
    hide Blocks;
    hide EmptyAt;
    hide Halts;
    hide LazyLoop;
    hide Yields;
    hide HeadFn;
    var h, a, m := LazyParts(p, pc, atom, lo, hi, min, back, f);
    hide BlockOk;
    var z := HeadStays(p.env, back, f, lo, hi, min, st);
    BlockYields(p, pc, h, HeadFn(f, lo, hi, min), st);
    EntersForever(p, Run(pc, st, [], []), h, a, m, pc + TotalSize(QuantCode(atom, lo, hi, min, INT32_MAX, false)),
                  back, f,
                  [], [], HeadFn(f, lo, hi, min)(st), st, z);
  }

  lemma BlockYields(p: Prog, pc: int, e: int, g: St -> seq<St>, st: St)
    requires BlockOk(p, pc, e, g) && ValidSt(p.env, st)
    ensures Yields(p, Run(pc, st, [], []), e, [], [], g(st))
  {
    hide Yields;
  }

  // A block in front of a dead end halts.
  lemma BlockedHalts(p: Prog, pc: int, e: int, g: St -> seq<St>, st: St)
    requires BlockOk(p, pc, e, g) && Closed(p.env, g) && Blocks(p, e) && ValidSt(p.env, st) && Unlimited(p)
    ensures Halts(p, Run(pc, st, [], []))
  {
    hide Yields;
    hide Blocks;
    hide Halts;
    hide Reaches;
    BlockYields(p, pc, e, g, st);
    AllBlocked(p, Run(pc, st, [], []), e, [], [], g(st));
    FailedRun(p, Run(pc, st, [], []));
  }

  lemma QuantClosed(env: Env, f: St -> seq<St>, back: bool, lo: int, hi: int, min: nat, max: int, greedy: bool)
    requires Moves(env, back, f)
    ensures Closed(env, QuantFn(env, f, back, lo, hi, min, max, greedy))
  {
    hide Moves;
    hide QuantFn;
    forall st, x | ValidSt(env, st) && x in QuantFn(env, f, back, lo, hi, min, max, greedy)(st)
      ensures ValidSt(env, x)
    {
      QuantValid(env, f, back, lo, hi, min, max, greedy, st, x);
    }
  }

  lemma QuantValid(env: Env, f: St -> seq<St>, back: bool, lo: int, hi: int, min: nat, max: int, greedy: bool, st: St,
                   x: St)
    requires Moves(env, back, f) && ValidSt(env, st) && x in QuantFn(env, f, back, lo, hi, min, max, greedy)(st)
    ensures ValidSt(env, x)
  {
    hide Moves;
    hide Exact;
    hide Rest;
    hide FlatMap;
    if min == 0 && lo < hi {
      ResetValid(env, st, lo, hi);
    }
    hide ResetCaps;
    QuantMove(env, f, back, min, max, greedy, Start(min, lo, hi, st), x);
  }

  // The code of a lazy unbounded quantifier, in each of its forms, enumerates the quantifier if and
  // only if no round can be empty.
  lemma LazyQuantIff(p: Prog, pc: int, atom: seq<Instr>, lo: int, hi: int, min: nat, back: bool, f: St -> seq<St>)
    requires AtAll(p.fetch, pc, QuantCode(atom, lo, hi, min, INT32_MAX, false)) && AtomOk(p, atom, back, f)
    requires Blocks(p, pc + TotalSize(QuantCode(atom, lo, hi, min, INT32_MAX, false))) && Unlimited(p)
    requires 0 <= lo <= hi <= p.env.capCount
    requires ProgOk(p) && min <= INT32_MAX && ByPosition(p.env, f)
    ensures var e := pc + TotalSize(QuantCode(atom, lo, hi, min, INT32_MAX, false));
      Strict(p.env, f) <==> BlockOk(p, pc, e, QuantFn(p.env, f, back, lo, hi, min, INT32_MAX, false))
  {
    hide AtAll;
    hide TotalSize;
    hide QuantCode;
    hide BlockOk;
    hide Blocks;
    hide Halts;
    hide ByPosition;
    hide EmptyAt;
    hide QuantFn;
    var e, g := pc + TotalSize(QuantCode(atom, lo, hi, min, INT32_MAX, false)),
        QuantFn(p.env, f, back, lo, hi, min, INT32_MAX, false);
    if Strict(p.env, f) {
      QuantOk(p, pc, atom, lo, hi, min, INT32_MAX, false, back, f);
    } else if BlockOk(p, pc, e, g) {
      var st, x :| ValidSt(p.env, st) && x in f(st) && x.pos == st.pos;
      var pos := NearestEmpty(p.env, back, f, st, x);
      InitValid(p.env, pos);
      QuantClosed(p.env, f, back, lo, hi, min, INT32_MAX, false);
      BlockedHalts(p, pc, e, g, Init(p.env, pos));
      LazyQuantDiverges(p, pc, atom, lo, hi, min, back, f, Init(p.env, pos));
    }
  }

  // Failing with nothing pending ends the run.
  lemma FailedRun(p: Prog, s: Vm)
    requires Reaches(p, s, Fail([]))
    ensures Halts(p, s)
  {
    assert Step(p, Fail([])) == NoMatch;
    ReachesSelf(p, NoMatch);
    ReachesStep(p, Fail([]), NoMatch);
    ReachesTrans(p, s, Fail([]), NoMatch);
    ReachesHalts(p, s, NoMatch);
  }

  // ----- Exactly when a pattern with such a loop halts -----

  // /b{min,}?[]/: nothing matches behind the loop.
  ghost function LazyThenFail(b: Re, min: nat): Re {
    Cat([Quant(b, min, INT32_MAX, false), Class([])])
  }

  // The code of the quantifier.
  ghost function LazyCode(b: Re, min: nat, dotall: bool): seq<Instr> {
    QuantCode(Compile(b, dotall, false, 1), 1, 1 + Caps(b), min, INT32_MAX, false)
  }

  lemma CapsOfPair(a: Re, b: Re)
    ensures Caps(Cat([a, b])) == Caps(a) + Caps(b)
  {
    var ts := [a, b];
    assert ts[..1] == [a] && [a][..0] == [];
    assert CapsAll([]) == 0 && CapsAll([a]) == Caps(a) && CapsAll(ts) == Caps(a) + Caps(b);
  }

  lemma OneCode(a: Re, dotall: bool, cc: nat)
    ensures CompileCat([a], dotall, false, cc) == Compile(a, dotall, false, cc) && CapsAll([a]) == Caps(a)
  {
    hide Compile;
    hide Caps;
    assert [a][..0] == [];
    assert CapsAll([]) == 0 && CompileCat([], dotall, false, cc) == [];
    assert CompileCat([a], dotall, false, cc) == [] + Compile(a, dotall, false, cc + CapsAll([]));
  }

  // The code of two terms in a row.
  lemma PairCode(a: Re, b: Re, dotall: bool, cc: nat)
    ensures Compile(Cat([a, b]), dotall, false, cc)
              == Compile(a, dotall, false, cc) + Compile(b, dotall, false, cc + Caps(a))
    ensures Caps(Cat([a, b])) == Caps(a) + Caps(b)
  {
    var ts := [a, b];
    assert ts[..1] == [a];
    CapsOfPair(a, b);
    OneCode(a, dotall, cc);
    CompileCatIs(ts, dotall, false, cc);
    hide Compile;
    hide Caps;
    assert CompileCat(ts, dotall, false, cc)
        == CompileCat([a], dotall, false, cc) + Compile(b, dotall, false, cc + CapsAll([a]));
  }

  lemma LazyThenFailCode(b: Re, min: nat, dotall: bool)
    ensures Program(LazyThenFail(b, min), dotall)
         == [ISave(false, 0)] + (LazyCode(b, min, dotall) + ([IChar32(UINT32_MAX)] + [ISave(true, 0), IMatch]))
    ensures Caps(LazyThenFail(b, min)) == Caps(b)
  {
    hide QuantCode;
    var loop, dead := Quant(b, min, INT32_MAX, false), Class([]);
    CapsOf(b, min);
    PairCode(loop, dead, dotall, 1);
    CompileQuant(loop, dotall, false, 1);
    DeadCode(dotall, 1 + Caps(b));
    hide Compile;
    hide Caps;
    Regroup([ISave(false, 0)], LazyCode(b, min, dotall), [IChar32(UINT32_MAX)], [ISave(true, 0), IMatch]);
  }

  lemma Regroup(a: seq<Instr>, b: seq<Instr>, c: seq<Instr>, d: seq<Instr>)
    ensures a + (b + c) + d == a + (b + (c + d))
  {
  }

  lemma CapsOf(b: Re, min: nat)
    ensures Caps(Class([])) == 0 && Caps(Quant(b, min, INT32_MAX, false)) == Caps(b)
  {
  }

  lemma DeadCode(dotall: bool, cc: nat)
    ensures Compile(Class([]), dotall, false, cc) == [IChar32(UINT32_MAX)]
  {
  }

  lemma DeadEnd(p: Prog, e: int)
    requires p.fetch(e) == Some(IChar32(UINT32_MAX)) && p.env.Valid()
    ensures Blocks(p, e)
  {
  }

  ghost predicate HaltsEverywhere(p: Prog) {
    forall i :: 0 <= i <= |p.env.input| ==> Halts(p, Run(0, Init(p.env, i), [], []))
  }

  // More than halting: the machine does not go off the rails either.
  ghost predicate AnswersFrom(p: Prog, i: int) {
    exists t :: Reaches(p, Run(0, Init(p.env, i), [], []), t) && (t.Match? || t.NoMatch?)
  }

  // The program, on its input, with an atom whose own loops are safe.
  ghost predicate LazyProgram(p: Prog, b: Re, min: nat) {
    && ProgOk(p) && Unlimited(p) && p.env.Valid()
    && WellFormed(b) && NoBackRef(b) && Supported(p.env, b, false, 1)
    && min <= INT32_MAX && 1 + Caps(b) <= p.env.capCount
    && AtAll(p.fetch, 0, Program(LazyThenFail(b, min), p.env.dotall))
  }

  // Where the parts are.
  lemma LazyLayout(p: Prog, b: Re, min: nat)
    requires LazyProgram(p, b, min)
    ensures p.fetch(0) == Some(ISave(false, 0)) && AtAll(p.fetch, 2, LazyCode(b, min, p.env.dotall))
    ensures Blocks(p, 2 + TotalSize(LazyCode(b, min, p.env.dotall)))
    ensures AtomOk(p, Compile(b, p.env.dotall, false, 1), false, EndsFn(p.env, b, false, 1))
  {
    hide Compile;
    hide Program;
    hide AtAll;
    hide TotalSize;
    hide QuantCode;
    hide Supported;
    hide BlockOk;
    hide Blocks;
    hide Ends;
    LazyThenFailCode(b, min, p.env.dotall);
    var loop, dead, rest := LazyCode(b, min, p.env.dotall), IChar32(UINT32_MAX), [ISave(true, 0), IMatch];
    AtAllCons(p.fetch, 0, ISave(false, 0), loop + ([dead] + rest));
    AtAllConcat(p.fetch, 2, loop, [dead] + rest);
    AtAllCons(p.fetch, 2 + TotalSize(loop), dead, rest);
    DeadEnd(p, 2 + TotalSize(loop));
    EndsMoves(p.env, b, false, 1);
    forall q | AtAll(p.fetch, q, Compile(b, p.env.dotall, false, 1))
      ensures BlockOk(p, q, q + TotalSize(Compile(b, p.env.dotall, false, 1)), EndsFn(p.env, b, false, 1))
    {
      CompileOk(p, b, false, 1, q);
    }
  }

  lemma LazySupported(env: Env, b: Re, min: nat)
    requires WellFormed(b) && Supported(env, b, false, 1) && Strict(env, EndsFn(env, b, false, 1)) && min <= INT32_MAX
    ensures WellFormed(LazyThenFail(b, min)) && Supported(env, LazyThenFail(b, min), false, 1)
  {
    hide Compile;
    hide Ends;
    var loop, dead := Quant(b, min, INT32_MAX, false), Class([]);
    var ts := [loop, dead];
    assert ts[..1] == [loop] && [loop][..0] == [];
    assert WellFormedAll([]) && WellFormedAll([loop]) && WellFormedAll(ts);
    assert Supported(env, loop, false, 1 + CapsAll([]));
    assert SupportedAll(env, [loop], false, 1);
    assert Supported(env, dead, false, 1 + CapsAll([loop]));
    assert SupportedAll(env, ts, false, 1);
  }

  lemma LazyHalts(p: Prog, b: Re, min: nat, i: int)
    requires LazyProgram(p, b, min) && Strict(p.env, EndsFn(p.env, b, false, 1)) && 0 <= i <= |p.env.input|
    ensures Halts(p, Run(0, Init(p.env, i), [], [])) && AnswersFrom(p, i)
  {
    hide Program;
    hide AtAll;
    hide Supported;
    hide Reaches;
    hide Halts;
    hide Ends;
    hide Caps;
    hide TopEnds;
    LazySupported(p.env, b, min);
    LazyThenFailCode(b, min, p.env.dotall);
    StickyRun(p, LazyThenFail(b, min), i);
    ReachesHalts(p, Run(0, Init(p.env, i), [], []), Outcome(TopEnds(p.env, LazyThenFail(b, min), i)));
  }

  lemma LazyDiverges(p: Prog, b: Re, min: nat) returns (pos: int)
    requires LazyProgram(p, b, min) && !Strict(p.env, EndsFn(p.env, b, false, 1))
    ensures 0 <= pos <= |p.env.input| && !Halts(p, Run(0, Init(p.env, pos), [], []))
  {
    hide Program;
    hide AtAll;
    hide Supported;
    hide Reaches;
    hide Halts;
    hide ByPosition;
    hide EmptyAt;
    hide Ends;
    hide Blocks;
    hide AtomOk;
    hide QuantCode;
    hide Compile;
    hide TotalSize;
    hide NoBackRef;
    var f := EndsFn(p.env, b, false, 1);
    LazyLayout(p, b, min);
    PatternByPosition(p.env, b, false, 1);
    var st, x :| ValidSt(p.env, st) && x in f(st) && x.pos == st.pos;
    pos := NearestEmpty(p.env, false, f, st, x);
    InitValid(p.env, pos);
    var s0, s1 := Run(0, Init(p.env, pos), [], []), Run(2, SetCap(Init(p.env, pos), 0), [], []);
    assert Step(p, s0) == s1;
    LazyQuantDiverges(p, 2, Compile(b, p.env.dotall, false, 1), 1, 1 + Caps(b), min, false, f, s1.st);
    if Halts(p, s0) {
      ReachesSelf(p, s1);
      ReachesStep(p, s0, s1);
      HaltsLater(p, s0, s1);
    }
  }

  // For an atom without back references the pattern halts from every start if and only if the atom
  // has no empty success anywhere.
  lemma LazyHaltsIff(p: Prog, b: Re, min: nat)
    requires LazyProgram(p, b, min)
    ensures Strict(p.env, EndsFn(p.env, b, false, 1)) <==> HaltsEverywhere(p)
    ensures HaltsEverywhere(p) ==> forall i :: 0 <= i <= |p.env.input| ==> AnswersFrom(p, i)
  {
    hide LazyProgram;
    hide Halts;
    hide AnswersFrom;
    hide Ends;
    if Strict(p.env, EndsFn(p.env, b, false, 1)) {
      forall i | 0 <= i <= |p.env.input| ensures Halts(p, Run(0, Init(p.env, i), [], [])) && AnswersFrom(p, i) {
        LazyHalts(p, b, min, i);
      }
    } else {
      var pos := LazyDiverges(p, b, min);
    }
  }

  // Without assertions this can be read off the tree.
  lemma LazyPlainIff(p: Prog, b: Re, min: nat)
    requires LazyProgram(p, b, min) && Plain(b)
    ensures NeverEmpty(b) <==> HaltsEverywhere(p)
  {
    hide Plain;
    hide NeverEmpty;
    hide Halts;
    hide Strict;
    LazyHaltsIff(p, b, min);
    PlainStrictIff(p.env, b, false, 1);
  }

  // ----- A greedy loop around a back reference to its own group -----

  // /(?:()\1)*/, greedy
  const OWN_REF: Re := Quant(Cat([Capture(Cat([])), BackRef(1)]), 0, INT32_MAX, true)

  lemma OwnRefCode(dotall: bool)
    ensures WellFormed(OWN_REF)
    ensures Program(OWN_REF, dotall)
         == [ISave(false, 0)] + ([ISaveReset(1, 1)] + ([ISplit(true, 11)] + ([ISave(false, 1)] + ([ISave(true, 1)]
              + ([IBackRef(false, 1)] + ([IGoto(-16)] + [ISave(true, 0), IMatch]))))))
  {
    hide StarCode;
    var group, ref := Capture(Cat([])), BackRef(1);
    var atom := [ISave(false, 1), ISave(true, 1), IBackRef(false, 1)];
    hide Compile;
    hide SimpleCount;
    hide CheckAdvance;
    hide TotalSize;
    GroupCode(dotall);
    PairCode(group, ref, dotall, 1);
    assert Compile(Cat([group, ref]), dotall, false, 1) == atom;
    OwnRefUnchecked(atom);
    CompileQuant(OWN_REF, dotall, false, 1);
    assert Caps(Cat([group, ref])) == 1;
    hide Caps;
    OwnRefStar(atom);
    OwnRefFormed();
  }

  lemma GroupCode(dotall: bool)
    ensures Compile(Capture(Cat([])), dotall, false, 1) == [ISave(false, 1), ISave(true, 1)]
    ensures Compile(BackRef(1), dotall, false, 2) == [IBackRef(false, 1)]
    ensures Caps(Capture(Cat([]))) == 1 && Caps(BackRef(1)) == 0
  {
    EmptyCode(dotall, 2);
    CaptureCode(Cat([]), dotall);
    hide QuantCode;
  }

  lemma CaptureCode(b: Re, dotall: bool)
    ensures Compile(Capture(b), dotall, false, 1) == [ISave(false, 1)] + Compile(b, dotall, false, 2) + [ISave(true, 1)]
    ensures Caps(Capture(b)) == 1 + Caps(b)
  {
  }

  lemma EmptyCode(dotall: bool, cc: nat)
    ensures Compile(Cat([]), dotall, false, cc) == [] && Caps(Cat([])) == 0
  {
    assert CompileCat([], dotall, false, cc) == [];
    assert CapsAll([]) == 0;
  }

  lemma OwnRefFormed()
    ensures WellFormed(OWN_REF)
  {
    var group, ref := Capture(Cat([])), BackRef(1);
    var ts := [group, ref];
    assert ts[..1] == [group] && [group][..0] == [];
    assert WellFormedAll([]) && WellFormedAll([group]) && WellFormedAll(ts);
  }

  lemma OwnRefStar(atom: seq<Instr>)
    requires atom == [ISave(false, 1), ISave(true, 1), IBackRef(false, 1)] && TotalSize(atom) == 6
    ensures StarCode(atom, true, false) == [ISplit(true, 11)] + atom + [IGoto(-16)]
  {
  }

  lemma OwnRefUnchecked(atom: seq<Instr>)
    requires atom == [ISave(false, 1), ISave(true, 1), IBackRef(false, 1)]
    ensures CheckAdvance(atom) == -1 && SimpleCount(atom) <= 0 && TotalSize(atom) == 6
  {
    var two, one := atom[1..], atom[2..];
    assert two == [ISave(true, 1), IBackRef(false, 1)] && two[1..] == one && one == [IBackRef(false, 1)] &&
        one[1..] == [];
    assert 1 in Refs(one) && 1 in Refs(two) && 1 in Refs(atom);
    assert 1 in Saves(atom);
    assert 1 in Saves(atom) * Refs(atom);
    assert TotalSize(one) == 2 && TotalSize(two) == 4;
  }

  // Round and round: the group matches the empty string, and so does the reference to it.
  ghost predicate OwnRefCycle(s: Vm, i: int) {
    && s.Run? && s.st.pos == i && |s.st.cap| == 4
    && s.pc in {5, 10, 12, 14, 16}
    && (s.pc in {12, 14} ==> s.st.cap[2] == i)
    && (s.pc == 14 ==> s.st.cap[3] == i)
  }

  lemma OwnRefLayout(p: Prog)
    requires AtAll(p.fetch, 0, Program(OWN_REF, p.env.dotall))
    ensures p.fetch(0) == Some(ISave(false, 0)) && p.fetch(2) == Some(ISaveReset(1, 1)) &&
            p.fetch(5) == Some(ISplit(true, 11))
    ensures p.fetch(10) == Some(ISave(false, 1)) && p.fetch(12) == Some(ISave(true, 1))
    ensures p.fetch(14) == Some(IBackRef(false, 1)) && p.fetch(16) == Some(IGoto(-16))
  {
    hide AtAll;
    hide Program;
    hide TotalSize;
    hide Compile;
    OwnRefCode(p.env.dotall);
    var c6 := [IGoto(-16)] + [ISave(true, 0), IMatch];
    var c5 := [IBackRef(false, 1)] + c6;
    var c4 := [ISave(true, 1)] + c5;
    var c3 := [ISave(false, 1)] + c4;
    var c2 := [ISplit(true, 11)] + c3;
    var c1 := [ISaveReset(1, 1)] + c2;
    AtAllCons(p.fetch, 0, ISave(false, 0), c1);
    AtAllCons(p.fetch, 2, ISaveReset(1, 1), c2);
    AtAllCons(p.fetch, 5, ISplit(true, 11), c3);
    AtAllCons(p.fetch, 10, ISave(false, 1), c4);
    AtAllCons(p.fetch, 12, ISave(true, 1), c5);
    AtAllCons(p.fetch, 14, IBackRef(false, 1), c6);
    AtAllCons(p.fetch, 16, IGoto(-16), [ISave(true, 0), IMatch]);
  }

  lemma {:induction false} OwnRefTurns(p: Prog, s: Vm, i: int, n: nat)
    requires AtAll(p.fetch, 0, Program(OWN_REF, p.env.dotall)) && p.env.capCount == 2
    requires OwnRefCycle(s, i) && 0 <= i <= |p.env.input|
    ensures OwnRefCycle(StepN(p, n, s), i)
    decreases n
  {
    hide AtAll;
    hide Program;
    hide Step;
    hide OwnRefCycle;
    if n > 0 {
      OwnRefTurn(p, s, i);
      OwnRefTurns(p, Step(p, s), i, n - 1);
    }
  }

  lemma OwnRefTurn(p: Prog, s: Vm, i: int)
    requires AtAll(p.fetch, 0, Program(OWN_REF, p.env.dotall)) && p.env.capCount == 2
    requires OwnRefCycle(s, i) && 0 <= i <= |p.env.input|
    ensures OwnRefCycle(Step(p, s), i)
  {
    hide AtAll;
    hide Program;
    OwnRefLayout(p);
    if s.pc == 14 {
      assert p.env.input[i..i] == [];
      assert BackRefMove(p.env, 1, false, s.st) == Some(i);
    }
  }

  // It never halts, on any input and from any start.
  lemma OwnRefRunsForever(p: Prog, i: int)
    requires AtAll(p.fetch, 0, Program(OWN_REF, p.env.dotall)) && p.env.capCount == 2
    requires 0 <= i <= |p.env.input|
    ensures WellFormed(OWN_REF) && !Halts(p, Run(0, Init(p.env, i), [], []))
  {
    hide AtAll;
    hide Program;
    OwnRefCode(p.env.dotall);
    var s0 := Run(0, Init(p.env, i), [], []);
    var s1 := Step(p, s0);
    var s2 := Step(p, s1);
    OwnRefLayout(p);
    assert OwnRefCycle(s2, i);
    forall k: nat ensures GoesOn(p, s0, k) {
      OwnRefTurns(p, s2, i, k);
      assert StepN(p, k + 2, s0) == StepN(p, k, s2);
    }
    NeverStops(p, s0);
  }
}
