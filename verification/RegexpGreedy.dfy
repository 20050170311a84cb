// The fast form of greedy quantifiers over straight-line atoms (REOP_simple_greedy_quant): run the
// atom as often as possible, then hand out ever shorter repetitions by stepping back.

module RegexpGreedy {
  import opened Basics
  import opened RegexpCode
  import opened RegexpCompile
  import opened RegexpSemantics
  import opened RegexpVM
  import opened RegexpBlocks

  // Straight-line code as a partial function on positions.
  ghost function LinRun(env: Env, b: seq<Instr>, pos: int): Simple {
    if pos < 0 || pos > |env.input| then Bad
    else if b == [] then Moved(pos)
    else
      match SimpleStep(env, b[0], pos)
      case Moved(pos') => LinRun(env, b[1..], pos')
      case other => other
  }

  ghost function LinEnds(env: Env, b: seq<Instr>, st: St): seq<St> {
    match LinRun(env, b, st.pos)
    case Moved(pos) => [st.(pos := pos)]
    case _ => []
  }

  // f does what the straight-line code b does.
  ghost predicate LinOk(env: Env, b: seq<Instr>, f: St -> seq<St>) {
    forall st :: ValidSt(env, st) ==> f(st) == LinEnds(env, b, st)
  }

  // Straight-line code never goes wrong, and moves by its number of character opcodes.
  lemma {:induction false} LinRunMoves(env: Env, b: seq<Instr>, pos: int)
    requires SimpleCount(b) >= 0 && 0 <= pos <= |env.input|
    ensures !LinRun(env, b, pos).Bad?
    ensures LinRun(env, b, pos).Moved? ==>
              LinRun(env, b, pos).pos == pos + SimpleCount(b) <= |env.input|
    decreases |b|
  {
    if b != [] {
      var s := SimpleStep(env, b[0], pos);
      if s.Moved? {
        LinRunMoves(env, b[1..], s.pos);
      }
    }
  }

  lemma {:induction false} SimpleRunIsLinRun(p: Prog, pc: int, b: seq<Instr>, pos: int)
    requires AtAll(p.fetch, pc, b + [IMatch]) && ProgOk(p)
    requires SimpleCount(b) >= 0 && 0 <= pos <= |p.env.input|
    ensures SimpleRun(p, pc, pos) == LinRun(p.env, b, pos)
    decreases |b|
  {
    if b == [] {
      assert b + [IMatch] == [IMatch];
      AtAllOne(p.fetch, pc, IMatch);
    } else {
      assert b + [IMatch] == [b[0]] + (b[1..] + [IMatch]);
      AtAllCons(p.fetch, pc, b[0], b[1..] + [IMatch]);
      var s := SimpleStep(p.env, b[0], pos);
      if s.Moved? {
        SimpleRunIsLinRun(p, pc + b[0].Size(), b[1..], s.pos);
      }
    }
  }

  // The successes from the longest repetition down, n steps of c characters below it.
  function Descend(top: St, c: int, n: nat): seq<St>
    decreases n
  {
    [top] + if n == 0 then [] else Descend(top.(pos := top.pos - c), c, n - 1)
  }

  lemma {:induction false} DescendSnoc(top: St, c: int, n: nat)
    requires n >= 1
    ensures Descend(top, c, n) == Descend(top, c, n - 1) + [top.(pos := top.pos - n * c)]
    decreases n
  {
    var next := top.(pos := top.pos - c);
    if n == 1 {
      assert Descend(next, c, 0) == [next];
    } else {
      DescendSnoc(next, c, n - 1);
      MulStep(n, c);
    }
  }

  lemma MulStep(n: int, c: int)
    ensures (n - 1) * c == n * c - c
  {
  }

  // One run of the atom either fails or moves c characters on, and f says which.
  ghost predicate Repeats(env: Env, run: int -> Simple, c: int, f: St -> seq<St>) {
    c > 0 && forall st :: ValidSt(env, st) ==> RepeatsAt(env, run, c, f, st)
  }

  ghost predicate RepeatsAt(env: Env, run: int -> Simple, c: int, f: St -> seq<St>, st: St) {
    var next := st.(pos := st.pos + c);
    (run(st.pos) == Blocked && f(st) == []) || (run(st.pos) == Moved(next.pos) && f(st) == [next] && ValidSt(env, next))
  }

  lemma LinRepeats(p: Prog, pc: int, b: seq<Instr>, f: St -> seq<St>)
    requires ProgOk(p) && AtAll(p.fetch, pc, b + [IMatch]) && SimpleCount(b) > 0
    requires LinOk(p.env, b, f)
    ensures Repeats(p.env, SimpleRunFn(p, pc), SimpleCount(b), f)
  {
    forall st | ValidSt(p.env, st)
      ensures RepeatsAt(p.env, SimpleRunFn(p, pc), SimpleCount(b), f, st)
    {
      SimpleRunIsLinRun(p, pc, b, st.pos);
      LinRunMoves(p.env, b, st.pos);
    }
  }

  // The optional rounds still allowed after q rounds.
  function Optional(f: St -> seq<St>, q: nat, max: int, fuel: nat, st: St): seq<St>
    requires max != INT32_MAX ==> q <= max
  {
    if max == INT32_MAX then Star(f, fuel, true, st) else UpTo(f, max - q, true, st)
  }

  lemma OptionalStep(f: St -> seq<St>, q: nat, max: int, fuel: nat, st: St)
    requires max != INT32_MAX ==> q < max
    requires fuel > 0
    ensures f(st) == [] ==> Optional(f, q, max, fuel, st) == [st]
    ensures |f(st)| == 1 && f(st)[0].pos != st.pos ==>
              Optional(f, q, max, fuel, st) == Optional(f, q + 1, max, fuel - 1, f(st)[0]) + [st]
  {
    if |f(st)| == 1 && f(st)[0].pos != st.pos {
      assert f(st) == [f(st)[0]];
      FlatMapSingle(f(st)[0], if max == INT32_MAX then StarFn(f, fuel - 1, true, st.pos)
                              else UpToFn(f, max - q - 1, true));
    }
  }

  // f can be repeated k times from st and then either fails or (full) is not asked again.
  ghost predicate Chain(f: St -> seq<St>, c: int, st: St, k: nat, full: bool)
    decreases k
  {
    if k == 0 then full || f(st) == []
    else f(st) == [st.(pos := st.pos + c)] && Chain(f, c, st.(pos := st.pos + c), k - 1, full)
  }

  lemma {:induction false} GreedyChain(env: Env, run: int -> Simple, c: int, f: St -> seq<St>, st: St, q: nat,
                                       max: int) returns (k: nat, full: bool)
    requires Repeats(env, run, c, f) && ValidSt(env, st)
    requires max != INT32_MAX ==> q < max
    ensures GreedyRun(run, |env.input|, st.pos, q, max) == Some((q + k, st.pos + k * c))
    ensures st.pos + k * c <= |env.input|
    ensures Chain(f, c, st, k, full)
    ensures if full then max != INT32_MAX && q + k == max else max == INT32_MAX || q + k < max
    decreases Dist(env, false, st)
  {
    assert RepeatsAt(env, run, c, f, st);
    if f(st) == [] {
      k, full := 0, false;
    } else {
      var next := st.(pos := st.pos + c);
      if q + 1 >= max && max != INT32_MAX {
        assert Chain(f, c, next, 0, true);
        k, full := 1, true;
      } else {
        k, full := GreedyChain(env, run, c, f, next, q + 1, max);
        k := k + 1;
        MulStep(k, c);
      }
    }
  }

  // Greedy optional rounds are exactly the descent from the longest run, which has k rounds.
  lemma {:induction false} ChainOptional(f: St -> seq<St>, c: int, st: St, k: nat, full: bool,
                                         q: nat, max: int, fuel: nat)
    requires Chain(f, c, st, k, full) && c > 0 && fuel > k
    requires if full then max != INT32_MAX && q + k == max else max == INT32_MAX || q + k < max
    ensures Optional(f, q, max, fuel, st) == Descend(st.(pos := st.pos + k * c), c, k)
    decreases k
  {
    if k == 0 {
      assert Descend(st, c, 0) == [st];
      if !full {
        OptionalStep(f, q, max, fuel, st);
      }
    } else {
      OptionalStep(f, q, max, fuel, st);
      ChainOptional(f, c, st.(pos := st.pos + c), k - 1, full, q + 1, max, fuel - 1);
      MulStep(k, c);
      DescendSnoc(st.(pos := st.pos + k * c), c, k);
    }
  }

  // One mandatory round peeled off.
  lemma ExactStep(f: St -> seq<St>, m: nat, st: St, rest: St -> seq<St>)
    requires m >= 1
    ensures f(st) == [] ==> FlatMap(Exact(f, m, st), rest) == []
    ensures |f(st)| == 1 ==> FlatMap(Exact(f, m, st), rest) == FlatMap(Exact(f, m - 1, f(st)[0]), rest)
  {
    if |f(st)| == 1 {
      assert f(st) == [f(st)[0]];
      FlatMapSingle(f(st)[0], ExactFn(f, m - 1));
    }
  }

  // With m mandatory rounds in front: the descent stops m rounds up, or there is nothing.
  lemma {:induction false} ChainAll(env: Env, f: St -> seq<St>, c: int, st: St, k: nat, full: bool,
                                    m: nat, min: int, max: int)
    requires Chain(f, c, st, k, full) && c > 0 && st.pos + k * c <= |env.input|
    requires m <= min <= max
    requires if full then max != INT32_MAX && min - m + k == max else max == INT32_MAX || min - m + k < max
    ensures FlatMap(Exact(f, m, st), RestFn(env, f, false, min, max, true))
         == if k < m then [] else Descend(st.(pos := st.pos + k * c), c, k - m)
    decreases m
  {
    hide Descend;
    hide Star;
    hide UpTo;
    var rest := RestFn(env, f, false, min, max, true);
    if m == 0 {
      FlatMapSingle(st, rest);
      MulBound(k, c);
      ChainOptional(f, c, st, k, full, min, max, Dist(env, false, st) + 1);
    } else {
      ExactStep(f, m, st, rest);
      if k > 0 {
        MulStep(k, c);
        ChainAll(env, f, c, st.(pos := st.pos + c), k - 1, full, m - 1, min, max);
      }
    }
  }

  lemma MulBound(k: nat, c: int)
    requires c > 0
    ensures k <= k * c
  {
  }

  // Handing out the descent: each backtrack steps one round to the left.
  lemma {:induction false} DescendOk(p: Prog, pc: int, next: int, min: int, max: int, c: int,
                                     top: St, n: nat, stk: seq<int>, ss: seq<Saved>)
    requires p.fetch(pc) == Some(IGreedy(next, min, max, c))
    ensures var e := pc + 17 + next;
            Yields(p, Run(e, top, stk, if n > 0 then ss + [SGreedy(pc + 1, n, top, stk)] else ss),
                   e, stk, ss, Descend(top, c, n))
    decreases n
  {
    var e := pc + 17 + next;
    if n == 0 {
      assert Descend(top, c, 0) == [top];
      YieldsOne(p, e, stk, ss, top);
    } else {
      var pending := SGreedy(pc + 1, n, top, stk);
      var ss1, lower := ss + [pending], top.(pos := top.pos - c);
      assert ss1[..|ss|] == ss;
      DescendOk(p, pc, next, min, max, c, lower, n - 1, stk, ss);
      var t := Run(e, lower, stk, if n > 1 then ss + [SGreedy(pc + 1, n - 1, lower, stk)] else ss);
      assert Step(p, Fail(ss1)) == t;
      YieldsStep(p, Fail(ss1), e, stk, ss, Descend(lower, c, n - 1));
      UnwindPush(ss, pending);
      ReachesSelf(p, Run(e, top, stk, ss1));
      var outs := Descend(top, c, n);
      assert outs[1..] == Descend(lower, c, n - 1);
      assert YieldsVia(p, Run(e, top, stk, ss1), e, stk, ss, outs, ss1);
    }
  }

  lemma GreedyOk(p: Prog, pc: int, b: seq<Instr>, f: St -> seq<St>, min: int, max: int, st: St, stk: seq<int>,
                 ss: seq<Saved>)
    requires p.fetch(pc) == Some(IGreedy(TotalSize(b) + 1, min, max, SimpleCount(b)))
    requires Repeats(p.env, SimpleRunFn(p, pc + 17), SimpleCount(b), f) && ValidSt(p.env, st)
    requires 0 <= min <= max <= INT32_MAX && 0 < max
    ensures Yields(p, Run(pc, st, stk, ss), pc + 18 + TotalSize(b), stk, ss,
                   FlatMap(Exact(f, min, st), RestFn(p.env, f, false, min, max, true)))
  {
    hide Descend;
    hide FlatMap;
    hide Exact;
    hide SimpleCount;
    hide Chain;
    hide GreedyRun;
    hide TotalSize;
    hide Yields;
    var c := SimpleCount(b);
    var k, full := GreedyChain(p.env, SimpleRunFn(p, pc + 17), c, f, st, 0, max);
    ChainAll(p.env, f, c, st, k, full, min, min, max);
    GreedyInstr(p, pc, TotalSize(b) + 1, min, max, c, st, stk, ss, k, st.pos + k * c,
                FlatMap(Exact(f, min, st), RestFn(p.env, f, false, min, max, true)));
  }

  lemma GreedyInstr(p: Prog, pc: int, next: int, min: int, max: int, c: int, st: St, stk: seq<int>, ss: seq<Saved>,
                    k: nat, end: int, outs: seq<St>)
    requires p.fetch(pc) == Some(IGreedy(next, min, max, c)) && ValidSt(p.env, st)
    requires GreedyRun(SimpleRunFn(p, pc + 17), |p.env.input|, st.pos, 0, max) == Some((k as int, end))
    requires outs == if k < min then [] else Descend(st.(pos := end), c, k - min)
    ensures Yields(p, Run(pc, st, stk, ss), pc + 17 + next, stk, ss, outs)
  {
    var s := Run(pc, st, stk, ss);
    if k < min {
      assert Step(p, s) == Fail(ss);
      YieldsNone(p, pc + 17 + next, stk, ss);
    } else {
      DescendOk(p, pc, next, min, max, c, st.(pos := end), k - min, stk, ss);
    }
    YieldsStep(p, s, pc + 17 + next, stk, ss, outs);
  }
}
