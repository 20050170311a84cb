// The code of a quantifier does what the quantifier means, whichever form the compiler chose.

module RegexpQuant {
  import opened Basics
  import opened RegexpCode
  import opened RegexpCompile
  import opened RegexpSemantics
  import opened RegexpVM
  import opened RegexpBlocks
  import opened RegexpGreedy

  // The atom enumerates f wherever it is stored; it may be stored twice.
  ghost predicate AtomOk(p: Prog, atom: seq<Instr>, back: bool, f: St -> seq<St>) {
    && Moves(p.env, back, f)
    && forall q :: AtAll(p.fetch, q, atom) ==> BlockOk(p, q, q + TotalSize(atom), f)
  }

  lemma BlockSame(p: Prog, pc: int, exit: int, f: St -> seq<St>, g: St -> seq<St>)
    requires BlockOk(p, pc, exit, f)
    requires forall st :: ValidSt(p.env, st) ==> f(st) == g(st)
    ensures BlockOk(p, pc, exit, g)
  {
  }

  lemma BlockUnit(p: Prog, pc: int, f: St -> seq<St>)
    requires forall st :: ValidSt(p.env, st) ==> f(st) == [st]
    ensures BlockOk(p, pc, pc, f)
  {
    forall st, stk, ss | ValidSt(p.env, st)
      ensures Yields(p, Run(pc, st, stk, ss), pc, stk, ss, f(st))
    {
      YieldsOne(p, pc, stk, ss, st);
    }
  }

  // What an unbounded loop needs: a check for empty rounds, an atom that consumes something, or a
  // limit on the execution.
  ghost predicate LoopOk(env: Env, f: St -> seq<St>, greedy: bool, check: bool) {
    if !greedy && env.rounds.Some? then !check else check || Strict(env, f)
  }

  lemma StarTail(p: Prog, pc: int, atom: seq<Instr>, back: bool, f: St -> seq<St>, min: int, greedy: bool, check: bool)
    requires AtAll(p.fetch, pc, StarCode(atom, greedy, check)) && AtomOk(p, atom, back, f)
    requires LimitsFit(p) && LoopOk(p.env, f, greedy, check)
    ensures BlockOk(p, pc, pc + TotalSize(StarCode(atom, greedy, check)),
                    RestFn(p.env, f, back, min, INT32_MAX, greedy))
  {
    hide Yields;
    StarLayout(p.fetch, pc, atom, greedy, check);
    var e := pc + TotalSize(StarCode(atom, greedy, check));
    if !greedy && p.env.rounds.Some? {
      SplitStops(p, pc, TotalSize(atom) + 5);
      LazyTail(p, pc, pc + 5, pc + 5 + TotalSize(atom), e, back, f, min);
    } else {
      StarRest(p, pc, TotalSize(atom), back, f, min, greedy, check);
    }
  }

  // A loop that ends by itself.
  lemma StarRest(p: Prog, pc: int, len: int, back: bool, f: St -> seq<St>, min: int, greedy: bool, check: bool)
    requires StarAt(p.fetch, pc, len, greedy, check) && (check || Strict(p.env, f)) && (greedy || p.env.rounds.None?)
    requires BodyOk(p, pc + 5 + (if check then 1 else 0), len, back, f)
    ensures BlockOk(p, pc, pc + len + 10 + (if check then 1 else 0), RestFn(p.env, f, back, min, INT32_MAX, greedy))
  {
    hide Yields;
    hide StarAt;
    hide BodyOk;
    hide Strict;
    var e := pc + len + 10 + (if check then 1 else 0);
    forall st, stk, ss | ValidSt(p.env, st)
      ensures Yields(p, Run(pc, st, stk, ss), e, stk, ss, RestFn(p.env, f, back, min, INT32_MAX, greedy)(st))
    {
      StarOk(p, pc, len, greedy, check, back, f, Dist(p.env, back, st) + 1, st, stk);
    }
  }

  // A lazy loop that need not end by itself.
  lemma LazyTail(p: Prog, h: int, a: int, m: int, e: int, back: bool, f: St -> seq<St>, min: int)
    requires StopsFirst(p, h, a, e) && GoesTo(p, m, h) && BlockOk(p, a, m, f) && Moves(p.env, back, f)
    requires LimitsFit(p) && p.env.rounds.Some?
    ensures BlockOk(p, h, e, RestFn(p.env, f, back, min, INT32_MAX, false))
  {
    hide Yields;
    hide StopsFirst;
    hide GoesTo;
    hide BlockOk;
    MovesClosed(p.env, back, f);
    hide Moves;
    hide Closed;
    var rest := RestFn(p.env, f, back, min, INT32_MAX, false);
    forall st, stk, ss | ValidSt(p.env, st)
      ensures Yields(p, Run(h, st, stk, ss), e, stk, ss, rest(st))
    {
      LazyLimited(p, h, a, m, e, f, |p.env.input| + p.env.rounds.value, st, stk);
      assert rest(st) == Rest(p.env, f, back, min, INT32_MAX, false, st);
    }
    BlockByStates(p, h, e, rest);
  }

  lemma BlockByStates(p: Prog, pc: int, e: int, f: St -> seq<St>)
    requires forall st, stk, ss :: ValidSt(p.env, st) ==> Yields(p, Run(pc, st, stk, ss), e, stk, ss, f(st))
    ensures BlockOk(p, pc, e, f)
  {
    hide Yields;
  }

  lemma UpToLayout(fetch: Fetch, pc: int, atom: seq<Instr>, n: int, greedy: bool)
    requires AtAll(fetch, pc, UpToCode(atom, n, greedy))
    ensures fetch(pc) == Some(IPushI32(n)) && fetch(pc + 5) == Some(ISplit(greedy, TotalSize(atom) + 5))
    ensures AtAll(fetch, pc + 10, atom)
    ensures fetch(pc + 10 + TotalSize(atom)) == Some(ILoop(-(TotalSize(atom) + 10)))
    ensures fetch(pc + 15 + TotalSize(atom)) == Some(IDrop)
    ensures TotalSize(UpToCode(atom, n, greedy)) == TotalSize(atom) + 16
  {
    hide AtAll;
    hide TotalSize;
    var len: int := TotalSize(atom);
    var push, split, loop := IPushI32(n), ISplit(greedy, len + 5), ILoop(-(len + 10));
    assert UpToCode(atom, n, greedy) == [push] + ([split] + (atom + ([loop] + [IDrop])));
    AtAllCons(fetch, pc, push, [split] + (atom + ([loop] + [IDrop])));
    AtAllCons(fetch, pc + 5, split, atom + ([loop] + [IDrop]));
    AtAllConcat(fetch, pc + 10, atom, [loop] + [IDrop]);
    TotalSizeConcat(atom, [loop] + [IDrop]);
    AtAllCons(fetch, pc + 10 + len, loop, [IDrop]);
    AtAllOne(fetch, pc + 15 + len, IDrop);
  }

  lemma UpToTail(p: Prog, pc: int, atom: seq<Instr>, back: bool, f: St -> seq<St>, min: int, max: int, greedy: bool)
    requires AtAll(p.fetch, pc, UpToCode(atom, max - min, greedy)) && AtomOk(p, atom, back, f)
    requires min < max < INT32_MAX
    ensures BlockOk(p, pc, pc + TotalSize(UpToCode(atom, max - min, greedy)), RestFn(p.env, f, back, min, max, greedy))
  {
    UpToLayout(p.fetch, pc, atom, max - min, greedy);
    var len := TotalSize(atom);
    forall st, stk, ss | ValidSt(p.env, st)
      ensures Yields(p, Run(pc, st, stk, ss), pc + len + 16, stk, ss, RestFn(p.env, f, back, min, max, greedy)(st))
    {
      UpToOk(p, pc + 5, len, greedy, back, f, max - min, st, stk);
      PushOk(p, pc, max - min, st, stk, pc + len + 16, UpTo(f, max - min, greedy, st));
    }
  }

  lemma ExactLayout(fetch: Fetch, pc: int, atom: seq<Instr>, n: int)
    requires AtAll(fetch, pc, ExactCode(atom, n))
    ensures fetch(pc) == Some(IPushI32(n)) && AtAll(fetch, pc + 5, atom)
    ensures fetch(pc + 5 + TotalSize(atom)) == Some(ILoop(-(TotalSize(atom) + 5)))
    ensures fetch(pc + 10 + TotalSize(atom)) == Some(IDrop)
    ensures TotalSize(ExactCode(atom, n)) == TotalSize(atom) + 11
  {
    hide AtAll;
    hide TotalSize;
    var len: int := TotalSize(atom);
    var push, loop := IPushI32(n), ILoop(-(len + 5));
    assert ExactCode(atom, n) == [push] + (atom + ([loop] + [IDrop]));
    AtAllCons(fetch, pc, push, atom + ([loop] + [IDrop]));
    AtAllConcat(fetch, pc + 5, atom, [loop] + [IDrop]);
    TotalSizeConcat(atom, [loop] + [IDrop]);
    AtAllCons(fetch, pc + 5 + len, loop, [IDrop]);
    AtAllOne(fetch, pc + 10 + len, IDrop);
  }

  // The mandatory rounds: a counted loop, or the bare atom for a single one.
  lemma HeadOk(p: Prog, pc: int, atom: seq<Instr>, back: bool, f: St -> seq<St>, n: nat)
    requires AtAll(p.fetch, pc, if n == 1 then atom else ExactCode(atom, n)) && AtomOk(p, atom, back, f)
    requires n >= 1
    ensures BlockOk(p, pc, pc + TotalSize(if n == 1 then atom else ExactCode(atom, n)), ExactFn(f, n))
  {
    hide Yields;
    if n == 1 {
      forall st ensures f(st) == ExactFn(f, 1)(st) {
        FlatMapUnit(f(st), ExactFn(f, 0));
      }
      BlockSame(p, pc, pc + TotalSize(atom), f, ExactFn(f, 1));
    } else {
      ExactLayout(p.fetch, pc, atom, n);
      var len := TotalSize(atom);
      forall st, stk, ss | ValidSt(p.env, st)
        ensures Yields(p, Run(pc, st, stk, ss), pc + len + 11, stk, ss, ExactFn(f, n)(st))
      {
        ExactOk(p, pc + 5, len, back, f, n, st, stk);
        PushOk(p, pc, n, st, stk, pc + len + 11, Exact(f, n, st));
      }
    }
  }

  // split over a single optional atom
  lemma OptionOk(p: Prog, pc: int, atom: seq<Instr>, back: bool, f: St -> seq<St>, greedy: bool)
    requires AtAll(p.fetch, pc, [ISplit(greedy, TotalSize(atom))] + atom) && AtomOk(p, atom, back, f)
    ensures BlockOk(p, pc, pc + 5 + TotalSize(atom), RestFn(p.env, f, back, 0, 1, greedy))
  {
    var len := TotalSize(atom);
    AtAllCons(p.fetch, pc, ISplit(greedy, len), atom);
    var body, e := pc + 5, pc + 5 + len;
    forall st, stk, ss | ValidSt(p.env, st)
      ensures Yields(p, Run(pc, st, stk, ss), e, stk, ss, RestFn(p.env, f, back, 0, 1, greedy)(st))
    {
      FlatMapUnit(f(st), UpToFn(f, 0, greedy));
      BlockArrives(p, body, e, f, st, stk);
      forall ss1 ensures Yields(p, Run(e, st, stk, ss1), e, stk, ss1, [st]) {
        YieldsOne(p, e, stk, ss1, st);
      }
      SplitOk(p, pc, greedy, len, st, stk, ss, body, e, greedy, e, stk, f(st), [st]);
    }
  }

  // What follows the mandatory rounds.
  function TailCode(atom: seq<Instr>, min: int, max: int, greedy: bool, check: bool): seq<Instr> {
    if max == INT32_MAX then StarCode(atom, greedy, check)
    else if max > min then (if min == 0 && max == 1 then [ISplit(greedy, TotalSize(atom))] + atom
                            else UpToCode(atom, max - min, greedy))
    else []
  }

  lemma TailOk(p: Prog, pc: int, atom: seq<Instr>, back: bool, f: St -> seq<St>, min: int, max: int, greedy: bool,
               check: bool)
    requires AtAll(p.fetch, pc, TailCode(atom, min, max, greedy, check)) && AtomOk(p, atom, back, f)
    requires min <= max <= INT32_MAX && LimitsFit(p)
    requires max == INT32_MAX ==> LoopOk(p.env, f, greedy, check)
    ensures BlockOk(p, pc, pc + TotalSize(TailCode(atom, min, max, greedy, check)),
                    RestFn(p.env, f, back, min, max, greedy))
  {
    hide Yields;
    if max == INT32_MAX {
      StarTail(p, pc, atom, back, f, min, greedy, check);
    } else if max > min {
      if min == 0 && max == 1 {
        AtAllCons(p.fetch, pc, ISplit(greedy, TotalSize(atom)), atom);
        OptionOk(p, pc, atom, back, f, greedy);
      } else {
        UpToTail(p, pc, atom, back, f, min, max, greedy);
      }
    } else {
      BlockUnit(p, pc, RestFn(p.env, f, back, min, max, greedy));
    }
  }

  // Captures inside an atom that may be skipped are reset first.
  function Start(min: int, lo: int, hi: int, st: St): St {
    if min == 0 && lo < hi then ResetCaps(st, lo, hi) else st
  }

  function StartFn(lo: int, hi: int): St -> seq<St> {
    st => [Start(0, lo, hi, st)]
  }

  function ResetCode(lo: int, hi: int): seq<Instr> {
    if lo != hi then [ISaveReset(lo, hi - 1)] else []
  }

  lemma ResetOk(p: Prog, pc: int, lo: int, hi: int)
    requires AtAll(p.fetch, pc, ResetCode(lo, hi)) && 0 <= lo <= hi <= p.env.capCount
    ensures BlockOk(p, pc, pc + TotalSize(ResetCode(lo, hi)), StartFn(lo, hi))
    ensures Closed(p.env, StartFn(lo, hi))
  {
    if lo != hi {
      AtAllOne(p.fetch, pc, ISaveReset(lo, hi - 1));
      OneOk(p, ISaveReset(lo, hi - 1), pc, StartFn(lo, hi));
    } else {
      BlockUnit(p, pc, StartFn(lo, hi));
    }
  }

  // All successes of a quantifier: starting state, mandatory rounds, optional rounds.
  ghost function QuantFn(env: Env, f: St -> seq<St>, back: bool, lo: int, hi: int, min: nat, max: int,
                         greedy: bool): St -> seq<St> {
    st => FlatMap(Exact(f, min, Start(min, lo, hi, st)), RestFn(env, f, back, min, max, greedy))
  }

  lemma ExactClosed(env: Env, back: bool, f: St -> seq<St>, n: nat)
    requires Moves(env, back, f)
    ensures Closed(env, ExactFn(f, n))
    decreases n
  {
    forall st, x | ValidSt(env, st) && x in ExactFn(f, n)(st)
      ensures ValidSt(env, x)
    {
      if n > 0 {
        assert ExactFn(f, n)(st) == FlatMap(f(st), ExactFn(f, n - 1));
        FlatMapIn(f(st), ExactFn(f, n - 1), x);
        var y :| y in f(st) && x in ExactFn(f, n - 1)(y);
        ExactClosed(env, back, f, n - 1);
      }
    }
  }

  lemma ConcatLayout(fetch: Fetch, pc: int, a: seq<Instr>, b: seq<Instr>)
    requires AtAll(fetch, pc, a + b)
    ensures AtAll(fetch, pc, a) && AtAll(fetch, pc + TotalSize(a), b)
    ensures TotalSize(a + b) == TotalSize(a) + TotalSize(b)
  {
    hide AtAll;
    hide TotalSize;
    AtAllConcat(fetch, pc, a, b);
    TotalSizeConcat(a, b);
  }

  lemma QuantFnZero(p: Prog, f: St -> seq<St>, back: bool, lo: int, hi: int, max: int, greedy: bool, pc: int, m: int,
                    e: int)
    requires BlockOk(p, pc, m, StartFn(lo, hi)) && Closed(p.env, StartFn(lo, hi))
    requires BlockOk(p, m, e, RestFn(p.env, f, back, 0, max, greedy))
    ensures BlockOk(p, pc, e, QuantFn(p.env, f, back, lo, hi, 0, max, greedy))
  {
    hide Yields;
    var h, rest := QuantFn(p.env, f, back, lo, hi, 0, max, greedy), RestFn(p.env, f, back, 0, max, greedy);
    forall st ensures h(st) == FlatMap(StartFn(lo, hi)(st), rest) {
      assert Exact(f, 0, Start(0, lo, hi, st)) == StartFn(lo, hi)(st);
    }
    BlockSeq(p, pc, m, e, StartFn(lo, hi), rest, h);
  }

  lemma QuantFnPositive(p: Prog, f: St -> seq<St>, back: bool, lo: int, hi: int, min: nat, max: int, greedy: bool,
                        pc: int, m: int, e: int)
    requires min >= 1 && Moves(p.env, back, f)
    requires BlockOk(p, pc, m, ExactFn(f, min)) && BlockOk(p, m, e, RestFn(p.env, f, back, min, max, greedy))
    ensures BlockOk(p, pc, e, QuantFn(p.env, f, back, lo, hi, min, max, greedy))
  {
    hide Yields;
    var h, rest := QuantFn(p.env, f, back, lo, hi, min, max, greedy), RestFn(p.env, f, back, min, max, greedy);
    forall st ensures h(st) == FlatMap(ExactFn(f, min)(st), rest) {
    }
    ExactClosed(p.env, back, f, min);
    BlockSeq(p, pc, m, e, ExactFn(f, min), rest, h);
  }

  lemma GeneralZero(p: Prog, pc: int, atom: seq<Instr>, lo: int, hi: int, max: int, greedy: bool,
                    back: bool, f: St -> seq<St>, check: bool)
    requires AtAll(p.fetch, pc, ResetCode(lo, hi) + TailCode(atom, 0, max, greedy, check))
    requires 0 <= lo <= hi <= p.env.capCount && 0 <= max <= INT32_MAX
    requires AtomOk(p, atom, back, f) && LimitsFit(p)
    requires max == INT32_MAX ==> LoopOk(p.env, f, greedy, check)
    ensures BlockOk(p, pc, pc + TotalSize(ResetCode(lo, hi) + TailCode(atom, 0, max, greedy, check)),
                    QuantFn(p.env, f, back, lo, hi, 0, max, greedy))
  {
    hide BlockOk;
    hide AtAll;
    hide TotalSize;
    hide Yields;
    var reset, tail := ResetCode(lo, hi), TailCode(atom, 0, max, greedy, check);
    ConcatLayout(p.fetch, pc, reset, tail);
    var m, e := pc + TotalSize(reset), pc + TotalSize(reset + tail);
    ResetOk(p, pc, lo, hi);
    TailOk(p, m, atom, back, f, 0, max, greedy, check);
    QuantFnZero(p, f, back, lo, hi, max, greedy, pc, m, e);
  }

  lemma GeneralPositive(p: Prog, pc: int, atom: seq<Instr>, lo: int, hi: int, min: nat, max: int, greedy: bool,
                        back: bool, f: St -> seq<St>, check: bool)
    requires AtAll(p.fetch, pc, (if min == 1 then atom else ExactCode(atom, min))
                     + TailCode(atom, min, max, greedy, check))
    requires 1 <= min <= max <= INT32_MAX
    requires AtomOk(p, atom, back, f) && LimitsFit(p)
    requires max == INT32_MAX ==> LoopOk(p.env, f, greedy, check)
    ensures BlockOk(p, pc, pc + TotalSize((if min == 1 then atom else ExactCode(atom, min))
                                            + TailCode(atom, min, max, greedy, check)),
                    QuantFn(p.env, f, back, lo, hi, min, max, greedy))
  {
    hide BlockOk;
    hide AtAll;
    hide TotalSize;
    hide Yields;
    var head, tail := if min == 1 then atom else ExactCode(atom, min), TailCode(atom, min, max, greedy, check);
    ConcatLayout(p.fetch, pc, head, tail);
    var m, e := pc + TotalSize(head), pc + TotalSize(head + tail);
    HeadOk(p, pc, atom, back, f, min);
    TailOk(p, m, atom, back, f, min, max, greedy, check);
    QuantFnPositive(p, f, back, lo, hi, min, max, greedy, pc, m, e);
  }

  // atom; split back to the atom
  lemma PlusOk(p: Prog, pc: int, atom: seq<Instr>, lo: int, hi: int, greedy: bool, back: bool, f: St -> seq<St>)
    requires AtAll(p.fetch, pc, atom + [ISplit(!greedy, -(TotalSize(atom) + 5))])
    requires AtomOk(p, atom, back, f) && LimitsFit(p) && LoopOk(p.env, f, greedy, false)
    ensures BlockOk(p, pc, pc + TotalSize(atom + [ISplit(!greedy, -(TotalSize(atom) + 5))]),
                    QuantFn(p.env, f, back, lo, hi, 1, INT32_MAX, greedy))
  {
    hide Yields;
    var len: int := TotalSize(atom);
    var split, m := ISplit(!greedy, -(len + 5)), pc + len;
    ConcatLayout(p.fetch, pc, atom, [split]);
    AtAllOne(p.fetch, m, split);
    HeadOk(p, pc, atom, back, f, 1);
    var e, rest := m + 5, RestFn(p.env, f, back, 1, INT32_MAX, greedy);
    if !greedy && p.env.rounds.Some? {
      SplitStopsNext(p, m, -(len + 5));
      LazyTail(p, m, pc, m, e, back, f, 1);
    } else {
      forall st, stk, ss | ValidSt(p.env, st)
        ensures Yields(p, Run(m, st, stk, ss), e, stk, ss, rest(st))
      {
        PlusSplitOk(p, pc, len, greedy, back, f, Dist(p.env, back, st) + 1, st, stk);
      }
      BlockByStates(p, m, e, rest);
    }
    QuantFnPositive(p, f, back, lo, hi, 1, INT32_MAX, greedy, pc, m, e);
  }

  // The straight-line form.
  lemma SimpleFormOk(p: Prog, pc: int, atom: seq<Instr>, lo: int, min: nat, max: int, f: St -> seq<St>)
    requires AtAll(p.fetch, pc, [IGreedy(TotalSize(atom) + 1, min, max, SimpleCount(atom))] + atom + [IMatch])
    requires SimpleCount(atom) > 0 && ProgOk(p)
    requires LinOk(p.env, atom, f)
    requires 0 <= min <= max <= INT32_MAX && 0 < max
    ensures BlockOk(p, pc, pc + TotalSize([IGreedy(TotalSize(atom) + 1, min, max, SimpleCount(atom))] + atom
                                            + [IMatch]),
                    QuantFn(p.env, f, false, lo, lo, min, max, true))
  {
    hide Yields;
    hide LinOk;
    hide SimpleCount;
    hide FlatMap;
    SimpleLayout(p.fetch, pc, atom, IGreedy(TotalSize(atom) + 1, min, max, SimpleCount(atom)));
    LinRepeats(p, pc + 17, atom, f);
    var e, h := pc + 18 + TotalSize(atom), QuantFn(p.env, f, false, lo, lo, min, max, true);
    forall st, stk, ss | ValidSt(p.env, st)
      ensures Yields(p, Run(pc, st, stk, ss), e, stk, ss, h(st))
    {
      GreedyOk(p, pc, atom, f, min, max, st, stk, ss);
      assert h(st) == FlatMap(Exact(f, min, st), RestFn(p.env, f, false, min, max, true));
    }
  }

  lemma SimpleLayout(fetch: Fetch, pc: int, atom: seq<Instr>, i: Instr)
    requires i.IGreedy? && AtAll(fetch, pc, [i] + atom + [IMatch])
    ensures fetch(pc) == Some(i) && AtAll(fetch, pc + 17, atom + [IMatch])
    ensures TotalSize([i] + atom + [IMatch]) == TotalSize(atom) + 18
  {
    hide AtAll;
    hide TotalSize;
    assert [i] + atom + [IMatch] == [i] + (atom + [IMatch]);
    AtAllCons(fetch, pc, i, atom + [IMatch]);
    TotalSizeConcat(atom, [IMatch]);
    AtAllOne(fetch, pc, IMatch);
  }

  // Any form. Straight-line atoms of greedy quantifiers are the business of SimpleFormOk; an
  // unbounded loop needs the zero-advance check or an atom that always advances.
  lemma QuantOk(p: Prog, pc: int, atom: seq<Instr>, lo: int, hi: int, min: nat, max: int, greedy: bool,
                back: bool, f: St -> seq<St>)
    requires AtAll(p.fetch, pc, QuantCode(atom, lo, hi, min, max, greedy)) && ProgOk(p) && LimitsFit(p)
    requires 0 <= lo <= hi <= p.env.capCount && min <= max <= INT32_MAX
    requires AtomOk(p, atom, back, f)
    requires greedy && max > 0 && SimpleCount(atom) > 0 ==>
               !back && lo == hi && LinOk(p.env, atom, f)
    requires max == INT32_MAX && !(greedy && SimpleCount(atom) > 0) ==>
               LoopOk(p.env, f, greedy, greedy && CheckAdvance(atom) == 0)
    ensures BlockOk(p, pc, pc + TotalSize(QuantCode(atom, lo, hi, min, max, greedy)),
                    QuantFn(p.env, f, back, lo, hi, min, max, greedy))
  {
    hide BlockOk;
    hide LinOk;
    hide SimpleCount;
    hide TotalSize;
    hide CheckAdvance;
    var code := QuantCode(atom, lo, hi, min, max, greedy);
    var check := greedy && CheckAdvance(atom) == 0;
    if greedy && max > 0 && SimpleCount(atom) > 0 {
      SimpleFormOk(p, pc, atom, lo, min, max, f);
    } else if min == 0 {
      assert code == ResetCode(lo, hi) + TailCode(atom, 0, max, greedy, check);
      GeneralZero(p, pc, atom, lo, hi, max, greedy, back, f, check);
    } else if min == 1 && max == INT32_MAX && !check {
      PlusOk(p, pc, atom, lo, hi, greedy, back, f);
    } else {
      assert code == (if min == 1 then atom else ExactCode(atom, min)) + TailCode(atom, min, max, greedy, check);
      GeneralPositive(p, pc, atom, lo, hi, min, max, greedy, back, f, check);
    }
  }
}
