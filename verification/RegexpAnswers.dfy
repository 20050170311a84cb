// Whenever execution ends, its answer is right: for every pattern without back references, also one
// whose lazy loops need not end by themselves. An execution that ends goes round such a loop only a
// limited number of times, so that it looks like an execution of the pattern with the loop cut off;
// and cutting off after enough rounds does not change the language.

module RegexpAnswers {
  import opened Basics
  import opened CharRanges
  import opened RegexpCode
  import opened RegexpCompile
  import opened RegexpSemantics
  import opened RegexpVM
  import opened RegexpBlocks
  import opened RegexpTheorem
  import opened RegexpLanguage
  import opened RegexpRun
  import opened RegexpHalts

  // ----- The language does not depend on where loops are cut off -----

  lemma {:induction false} LangSame(env: Env, env': Env, r: Re, i: int, j: int)
    requires env.(rounds := env'.rounds) == env'
    ensures Lang(env, r, i, j) <==> Lang(env', r, i, j)
    decreases r, 1
  {
    match r
    case Group(b) => LangSame(env, env', b, i, j);
    case Capture(b) => LangSame(env, env', b, i, j);
    case Look(_, _, b) =>
      forall k ensures Lang(env, b, k, i) <==> Lang(env', b, k, i) {
        LangSame(env, env', b, k, i);
      }
      forall k ensures Lang(env, b, i, k) <==> Lang(env', b, i, k) {
        LangSame(env, env', b, i, k);
      }
    case Quant(b, _, _, _) =>
      forall n: nat ensures Iter(env, b, n, i, j) <==> Iter(env', b, n, i, j) {
        IterSame(env, env', b, n, i, j);
      }
    case Cat(ts) => LangCatSame(env, env', ts, i, j);
    case Disj(ts) =>
      forall k | 0 <= k < |ts| ensures Lang(env, ts[k], i, j) <==> Lang(env', ts[k], i, j) {
        LangSame(env, env', ts[k], i, j);
      }
    case _ =>
  }

  lemma {:induction false} IterSame(env: Env, env': Env, b: Re, n: nat, i: int, j: int)
    requires env.(rounds := env'.rounds) == env'
    ensures Iter(env, b, n, i, j) <==> Iter(env', b, n, i, j)
    decreases b, 2, n
  {
    if n > 0 {
      var m := n - 1;
      forall k ensures Lang(env, b, i, k) <==> Lang(env', b, i, k) {
        LangSame(env, env', b, i, k);
      }
      forall k ensures Iter(env, b, m, k, j) <==> Iter(env', b, m, k, j) {
        IterSame(env, env', b, m, k, j);
      }
    }
  }

  lemma {:induction false} LangCatSame(env: Env, env': Env, ts: seq<Re>, i: int, j: int)
    requires env.(rounds := env'.rounds) == env'
    ensures LangCat(env, ts, i, j) <==> LangCat(env', ts, i, j)
    decreases ts, 0
  {
    if ts != [] {
      forall k ensures LangCatAt(env, ts, i, k, j) <==> LangCatAt(env', ts, i, k, j) {
        LangCatSame(env, env', ts[..|ts| - 1], i, k);
        LangSame(env, env', ts[|ts| - 1], k, j);
      }
    }
  }

  lemma MatchesSame(env: Env, env': Env, r: Re, i: int)
    requires env.(rounds := env'.rounds) == env'
    ensures Matches(env, r, i) <==> Matches(env', r, i)
  {
    hide Lang;
    forall j ensures Lang(env, r, i, j) <==> Lang(env', r, i, j) {
      LangSame(env, env', r, i, j);
    }
  }

  lemma AcceptsSame(env: Env, env': Env, r: Re, sticky: bool, i: int)
    requires env.(rounds := env'.rounds) == env'
    ensures Accepts(env, r, sticky, i) <==> Accepts(env', r, sticky, i)
  {
    hide Matches;
    forall k ensures Matches(env, r, k) <==> Matches(env', r, k) {
      MatchesSame(env, env', r, k);
    }
  }

  // ----- With lazy loops cut off, every loop is safe -----

  lemma {:induction false} CutSupported(env: Env, r: Re, back: bool, cc: nat)
    requires NoBackRef(r) && env.rounds.Some?
    ensures Supported(env, r, back, cc)
    decreases r, 1
  {
    hide Compile;
    hide Refs;
    match r
    case Group(b) => CutSupported(env, b, back, cc);
    case Capture(b) => CutSupported(env, b, back, cc + 1);
    case Look(_, behind, b) => CutSupported(env, b, behind, cc);
    case Quant(b, _, _, _) =>
      CutSupported(env, b, back, cc);
      CompileNoRefs(b, env.dotall, back, cc);
    case Cat(ts) => AllCutSupported(env, ts, back, cc);
    case Disj(ts) => AllCutSupported(env, ts, back, cc);
    case _ =>
  }

  lemma {:induction false} AllCutSupported(env: Env, ts: seq<Re>, back: bool, cc: nat)
    requires NoBackRefs(ts) && env.rounds.Some?
    ensures SupportedAll(env, ts, back, cc)
    decreases ts, 0
  {
    if ts != [] {
      var n := |ts| - 1;
      AllCutSupported(env, ts[..n], back, cc);
      CutSupported(env, ts[n], back, cc + CapsAll(ts[..n]));
    }
  }

  // ----- Executions that end -----

  // The same program, for executions of at most n steps.
  ghost function Within(p: Prog, n: nat): Prog {
    p.(limit := Some(n), env := p.env.(rounds := Some(n)))
  }

  lemma InitSame(env: Env, env': Env, i: int)
    requires env.(rounds := env'.rounds) == env'
    ensures Init(env, i) == Init(env', i)
  {
  }

  // Where the machine stops is determined.
  lemma SameStop(p: Prog, s: Vm, t: Vm, u: Vm)
    requires Reaches(p, s, t) && Reaches(p, s, u) && Stopped(t) && Stopped(u)
    ensures t == u
  {
    var m: nat :| StepN(p, m, s) == t;
    var n: nat :| StepN(p, n, s) == u;
    if m <= n {
      StoppedLater(p, m, n, s);
    } else {
      StoppedLater(p, n, m, s);
    }
  }

  // An execution of n steps is an execution with the lazy loops cut off.
  lemma CutOutcome(p: Prog, r: Re, sticky: bool, i: int, n: nat)
    requires Loaded(p, r, sticky) && NoBackRef(r) && 0 <= i <= |p.env.input|
    requires Stopped(StepN(p, n, Run(0, Init(p.env, i), [], [])))
    ensures var outs := if sticky then TopEnds(Within(p, n).env, r, i) else SearchEnds(Within(p, n).env, r, i);
            Reaches(p, Run(0, Init(p.env, i), [], []), Outcome(outs))
  {
    hide Reaches;
    hide Program;
    hide NoBackRef;
    hide Supported;
    hide AtAll;
    hide TopEnds;
    hide SearchEnds;
    hide StepN;
    var q, s := Within(p, n), Run(0, Init(p.env, i), [], []);
    CutSupported(q.env, r, false, 1);
    InitSame(p.env, q.env, i);
    hide Init;
    StepNSame(p, q, n, s);
    if sticky {
      assert [] + Program(r, p.env.dotall) == Program(r, p.env.dotall);
      StickyRun(q, r, i);
      ReachesSame(q, p, s, Outcome(TopEnds(q.env, r, i)));
    } else {
      SearchRun(q, r, i);
      ReachesSame(q, p, s, Outcome(SearchEnds(q.env, r, i)));
    }
  }

  // If the machine stops, it stops with an answer, and the answer is a match if and only if the
  // language has one.
  lemma AnswerIsRight(p: Prog, r: Re, sticky: bool, i: int, t: Vm)
    requires Loaded(p, r, sticky) && NoBackRef(r) && 0 <= i <= |p.env.input|
    requires Reaches(p, Run(0, Init(p.env, i), [], []), t) && Stopped(t)
    ensures (t.Match? || t.NoMatch?) && (t.Match? <==> Accepts(p.env, r, sticky, i))
  {
    hide Loaded;
    hide NoBackRef;
    hide TopEnds;
    hide SearchEnds;
    hide Matches;
    hide Init;
    var s := Run(0, Init(p.env, i), [], []);
    var n: nat :| StepN(p, n, s) == t;
    hide Reaches;
    var env := Within(p, n).env;
    CutOutcome(p, r, sticky, i, n);
    SameStop(p, s, t, Outcome(if sticky then TopEnds(env, r, i) else SearchEnds(env, r, i)));
    LoadedFormed(p, r, sticky);
    if sticky {
      AcceptsIffLang(env, r, i);
    } else {
      SearchIffLang(env, r, i);
    }
    AcceptsSame(p.env, env, r, sticky, i);
  }

  lemma LoadedFormed(p: Prog, r: Re, sticky: bool)
    requires Loaded(p, r, sticky)
    ensures WellFormed(r)
  {
  }
}
