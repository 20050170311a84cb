// The compiled code of every tree enumerates the successes of that tree.

module RegexpCorrect {
  import opened Basics
  import opened CharRanges
  import opened RegexpCode
  import opened RegexpCompile
  import opened RegexpSemantics
  import opened RegexpVM
  import opened RegexpBlocks
  import opened RegexpGreedy

  // ----- Character classes -----

  // All points but the last have 16 bits, and so has the last unless it stands for no upper bound.
  ghost predicate HighPoints(points: seq<u32>) {
    && (forall k :: 0 <= k < |points| - 1 ==> points[k] <= 0xFFFF)
    && (points != [] ==> points[|points| - 1] <= 0xFFFF || points[|points| - 1] == UINT32_MAX)
  }

  lemma HighBound(points: seq<u32>)
    requires StrictlyAscending(points) && |points| % 2 == 0 && points != []
    ensures RangeInstr(points).IRange? ==> HighPoints(points)
  {
  }

  // The emitted intervals accept exactly the code points of the class.
  lemma RangeInstrAccepts(points: seq<u32>, c: int)
    requires StrictlyAscending(points) && |points| % 2 == 0
    requires 0 <= c < UINT32_MAX
    ensures CharOpAccepts(RangeInstr(points), c) <==> In(points, c)
  {
    hide StrictlyAscending;
    hide PairsHit;
    hide RangeHit;
    hide Pairs16;
    hide Pairs32;
    if |points| == 0 {
      hide RangeInstr;
      NoneIn(points, c);
    } else {
      HighBound(points);
      Range32Accepts(points, Pairs32(points), c);
      if RangeInstr(points).IRange? {
        Range16Accepts(points, Pairs16(points), c);
      }
      hide In;
    }
  }

  lemma NoneIn(points: seq<u32>, c: int)
    requires |points| == 0 && c < UINT32_MAX
    ensures !CharOpAccepts(RangeInstr(points), c) && !In(points, c)
  {
  }

  lemma Range32Accepts(points: seq<u32>, pairs: seq<Pair>, c: int)
    requires |points| % 2 == 0 && pairs == Pairs32(points)
    ensures PairsHit(pairs, c) <==> In(points, c)
  {
    if PairsHit(pairs, c) {
      var k :| 0 <= k < |pairs| && pairs[k].lo <= c <= pairs[k].hi;
      assert Between(points, k, c);
    }
    if In(points, c) {
      var k :| 0 <= k && 2 * k + 1 < |points| && Between(points, k, c);
      assert pairs[k].lo <= c <= pairs[k].hi;
    }
  }

  lemma Range16Accepts(points: seq<u32>, pairs: seq<Pair>, c: int)
    requires StrictlyAscending(points) && |points| % 2 == 0 && points != []
    requires 0 <= c < UINT32_MAX && pairs == Pairs16(points) && HighPoints(points)
    ensures RangeHit(pairs, c) <==> In(points, c)
  {
    var n := |pairs|;
    assert n > 0 && 2 * (n - 1) + 1 == |points| - 1;
    if PairsHit(pairs, c) {
      var k :| 0 <= k < n && pairs[k].lo <= c <= pairs[k].hi;
      assert Between(points, k, c);
    } else if RangeHit(pairs, c) {
      assert Between(points, n - 1, c);
    }
    if In(points, c) {
      var k :| 0 <= k && 2 * k + 1 < |points| && Between(points, k, c);
      assert points[0] <= points[2 * k];
      if points[2 * k + 1] == UINT32_MAX {
        assert 2 * k + 1 == |points| - 1;
        if c <= 0xFFFF {
          assert pairs[k].lo <= c <= pairs[k].hi;
        }
      } else {
        assert pairs[k].lo <= c <= pairs[k].hi;
      }
    }
  }

  // ----- Positions only move in the direction of matching -----

  lemma {:induction false} ExactMoves(env: Env, back: bool, f: St -> seq<St>, n: nat, st: St, x: St)
    requires Moves(env, back, f) && ValidSt(env, st) && x in Exact(f, n, st)
    ensures ValidSt(env, x) && Dist(env, back, x) <= Dist(env, back, st)
    ensures n > 0 && Strict(env, f) ==> x.pos != st.pos
    decreases n
  {
    if n > 0 {
      FlatMapIn(f(st), ExactFn(f, n - 1), x);
      var y :| y in f(st) && x in ExactFn(f, n - 1)(y);
      ExactMoves(env, back, f, n - 1, y, x);
    }
  }

  lemma {:induction false} UpToMoves(env: Env, back: bool, f: St -> seq<St>, n: nat, greedy: bool, st: St, x: St)
    requires Moves(env, back, f) && ValidSt(env, st) && x in UpTo(f, n, greedy, st)
    ensures ValidSt(env, x) && Dist(env, back, x) <= Dist(env, back, st)
    decreases n
  {
    if x != st {
      FlatMapIn(f(st), UpToFn(f, n - 1, greedy), x);
      var y :| y in f(st) && x in UpToFn(f, n - 1, greedy)(y);
      UpToMoves(env, back, f, n - 1, greedy, y, x);
    }
  }

  lemma StarIn(f: St -> seq<St>, fuel: nat, greedy: bool, st: St, x: St) returns (y: St)
    requires x in Star(f, fuel, greedy, st) && x != st
    ensures fuel > 0 && y in f(st)
    ensures y.pos == st.pos ==> x == y
    ensures y.pos != st.pos ==> x in Star(f, fuel - 1, greedy, y)
  {
    var g := StarFn(f, fuel - 1, greedy, st.pos);
    FlatMapIn(f(st), g, x);
    y :| y in f(st) && x in g(y);
  }

  lemma {:induction false} StarMoves(env: Env, back: bool, f: St -> seq<St>, fuel: nat, greedy: bool, st: St, x: St)
    requires Moves(env, back, f) && ValidSt(env, st) && x in Star(f, fuel, greedy, st)
    ensures ValidSt(env, x) && Dist(env, back, x) <= Dist(env, back, st)
    decreases fuel
  {
    if x != st {
      var y := StarIn(f, fuel, greedy, st, x);
      if y.pos != st.pos {
        StarMoves(env, back, f, fuel - 1, greedy, y, x);
      }
    }
  }

  lemma RestMoves(env: Env, back: bool, f: St -> seq<St>, min: int, max: int, greedy: bool, st: St, x: St)
    requires Moves(env, back, f) && ValidSt(env, st) && x in Rest(env, f, back, min, max, greedy, st)
    ensures ValidSt(env, x) && Dist(env, back, x) <= Dist(env, back, st)
  {
    if max == INT32_MAX && !greedy && env.rounds.Some? {
      UpToMoves(env, back, f, |env.input| + env.rounds.value, false, st, x);
    } else if max == INT32_MAX {
      StarMoves(env, back, f, Dist(env, back, st) + 1, greedy, st, x);
    } else {
      UpToMoves(env, back, f, max - min, greedy, st, x);
    }
  }

  lemma ResetValid(env: Env, st: St, lo: int, hi: int)
    requires ValidSt(env, st)
    ensures ValidSt(env, ResetCaps(st, lo, hi))
  {
  }

  ghost function QuantStart(b: Re, min: int, cc: nat, st: St): St {
    if min == 0 && Caps(b) > 0 then ResetCaps(st, cc, cc + Caps(b)) else st
  }

  // A success of a capture group comes from a success of its body.
  lemma CaptureIn(env: Env, b: Re, back: bool, cc: nat, st: St, x: St) returns (y: St)
    requires x in Ends(env, Capture(b), back, cc, st)
    ensures y in Ends(env, b, back, cc + 1, SetCap(st, 2 * cc + BoolBit(back)))
    ensures x == SetCap(y, 2 * cc + BoolBit(!back))
  {
    var st1, k := SetCap(st, 2 * cc + BoolBit(back)), 2 * cc + BoolBit(!back);
    FlatMapIn(Ends(env, b, back, cc + 1, st1), SetCapFn(k), x);
    y :| y in Ends(env, b, back, cc + 1, st1) && x in SetCapFn(k)(y);
  }

  lemma QuantMove(env: Env, f: St -> seq<St>, back: bool, min: int, max: int, greedy: bool, st: St, x: St)
    requires Moves(env, back, f) && ValidSt(env, st)
    requires x in FlatMap(Exact(f, if min < 0 then 0 else min, st), RestFn(env, f, back, min, max, greedy))
    ensures ValidSt(env, x) && Dist(env, back, x) <= Dist(env, back, st)
    ensures min >= 1 && Strict(env, f) ==> x.pos != st.pos
  {
    var m, g := if min < 0 then 0 else min, RestFn(env, f, back, min, max, greedy);
    FlatMapIn(Exact(f, m, st), g, x);
    var y :| y in Exact(f, m, st) && x in g(y);
    ExactMoves(env, back, f, m, st, y);
    RestMoves(env, back, f, min, max, greedy, y, x);
  }

  lemma {:induction false} EndsMove(env: Env, r: Re, back: bool, cc: nat, st: St, x: St)
    requires ValidSt(env, st) && x in Ends(env, r, back, cc, st)
    ensures ValidSt(env, x) && Dist(env, back, x) <= Dist(env, back, st)
    decreases r, 1
  {
    match r
    case Group(b) => EndsMove(env, b, back, cc, st, x);
    case Capture(b) =>
      var y := CaptureIn(env, b, back, cc, st, x);
      EndsMove(env, b, back, cc + 1, SetCap(st, 2 * cc + BoolBit(back)), y);
    case Look(neg, behind, b) =>
      var inner := Ends(env, b, behind, cc, st);
      if inner != [] {
        EndsMove(env, b, behind, cc, st, inner[0]);
      }
    case Quant(_, _, _, _) => EndsMoveQuant(env, r, back, cc, st, x);
    case Cat(ts) => EndsCatMove(env, ts, back, cc, st, x);
    case Disj(ts) => EndsDisjMove(env, ts, back, cc, st, x);
    case _ => EndsMoveLeaf(env, r, back, cc, st, x);
  }

  lemma EndsMoveLeaf(env: Env, r: Re, back: bool, cc: nat, st: St, x: St)
    requires r.Chr? || r.Dot? || r.Class? || r.LineStart? || r.LineEnd? || r.WordBoundary? || r.BackRef?
    requires ValidSt(env, st) && x in Ends(env, r, back, cc, st)
    ensures ValidSt(env, x) && Dist(env, back, x) <= Dist(env, back, st)
  {
  }

  lemma {:induction false} EndsMoveQuant(env: Env, r: Re, back: bool, cc: nat, st: St, x: St)
    requires r.Quant? && ValidSt(env, st) && x in Ends(env, r, back, cc, st)
    ensures ValidSt(env, x) && Dist(env, back, x) <= Dist(env, back, st)
    decreases r, 0
  {
    var b, f := r.body, EndsFn(env, r.body, back, cc);
    forall s, y | ValidSt(env, s) && y in f(s)
      ensures ValidSt(env, y) && Dist(env, back, y) <= Dist(env, back, s)
    {
      EndsMove(env, b, back, cc, s, y);
    }
    ResetValid(env, st, cc, cc + Caps(b));
    QuantMove(env, f, back, r.min, r.max, r.greedy, QuantStart(b, r.min, cc, st), x);
  }

  lemma {:induction false} EndsCatMove(env: Env, ts: seq<Re>, back: bool, cc: nat, st: St, x: St)
    requires ValidSt(env, st) && x in EndsCat(env, ts, back, cc, st)
    ensures ValidSt(env, x) && Dist(env, back, x) <= Dist(env, back, st)
    decreases ts, 0
  {
    if ts != [] {
      var n := |ts| - 1;
      var c1 := cc + CapsAll(ts[..n]);
      var last, init := EndsFn(env, ts[n], back, c1), EndsCatFn(env, ts[..n], back, cc);
      if back {
        FlatMapIn(last(st), init, x);
        var y :| y in last(st) && x in init(y);
        EndsMove(env, ts[n], back, c1, st, y);
        EndsCatMove(env, ts[..n], back, cc, y, x);
      } else {
        FlatMapIn(init(st), last, x);
        var y :| y in init(st) && x in last(y);
        EndsCatMove(env, ts[..n], back, cc, st, y);
        EndsMove(env, ts[n], back, c1, y, x);
      }
    }
  }

  lemma {:induction false} EndsDisjMove(env: Env, ts: seq<Re>, back: bool, cc: nat, st: St, x: St)
    requires ValidSt(env, st) && x in EndsDisj(env, ts, back, cc, st)
    ensures ValidSt(env, x) && Dist(env, back, x) <= Dist(env, back, st)
    decreases ts, 0
  {
    if ts != [] {
      var n := |ts| - 1;
      if x in EndsDisj(env, ts[..n], back, cc, st) {
        EndsDisjMove(env, ts[..n], back, cc, st, x);
      } else {
        EndsMove(env, ts[n], back, cc + CapsAll(ts[..n]), st, x);
      }
    }
  }

  lemma EndsMoves(env: Env, r: Re, back: bool, cc: nat)
    ensures Moves(env, back, EndsFn(env, r, back, cc))
  {
    forall st, x | ValidSt(env, st) && x in EndsFn(env, r, back, cc)(st)
      ensures ValidSt(env, x) && Dist(env, back, x) <= Dist(env, back, st)
    {
      EndsMove(env, r, back, cc, st, x);
    }
  }

  lemma EndsCatMoves(env: Env, ts: seq<Re>, back: bool, cc: nat)
    ensures Moves(env, back, EndsCatFn(env, ts, back, cc))
  {
    forall st, x | ValidSt(env, st) && x in EndsCatFn(env, ts, back, cc)(st)
      ensures ValidSt(env, x) && Dist(env, back, x) <= Dist(env, back, st)
    {
      EndsCatMove(env, ts, back, cc, st, x);
    }
  }

  // ----- Soundness of the zero-advance scan -----

  lemma {:induction false} FirstKindConcat(a: seq<Instr>, b: seq<Instr>)
    ensures FirstKind(a + b) == if FirstKind(a).Undetermined? then FirstKind(b) else FirstKind(a)
  {
    if a == [] {
      assert a + b == b;
    } else {
      FirstKindConcat(a[1..], b);
      assert (a + b)[1..] == a[1..] + b;
    }
  }

  lemma FirstKindCons(i: Instr, b: seq<Instr>)
    ensures FirstKind([i] + b) == if FirstKind([i]).Undetermined? then FirstKind(b) else FirstKind([i])
  {
    FirstKindConcat([i], b);
  }

  // Code of a quantifier that surely advances has a mandatory round of a surely advancing atom.
  lemma FirstKindQuant(atom: seq<Instr>, capLo: int, capHi: int, min: int, max: int, greedy: bool)
    requires min >= 0
    requires FirstKind(QuantCode(atom, capLo, capHi, min, max, greedy)).Advances?
    ensures min >= 1 && FirstKind(atom).Advances?
  {
    var len: int := TotalSize(atom);
    if greedy && max > 0 && SimpleCount(atom) > 0 {
      FirstKindConcat([IGreedy(len + 1, min, max, SimpleCount(atom))] + atom, [IMatch]);
      FirstKindCons(IGreedy(len + 1, min, max, SimpleCount(atom)), atom);
    } else {
      var check := greedy && CheckAdvance(atom) == 0;
      FirstKindStar(atom, greedy, check);
      if min == 0 {
        FirstKindUpTo(atom, max, greedy);
        FirstKindCons(ISplit(greedy, len), atom);
        var reset := if capLo != capHi then [ISaveReset(capLo, capHi - 1)] else [];
        var body := if max == 0 then []
                    else if max == 1 then [ISplit(greedy, len)] + atom
                    else if max == INT32_MAX then StarCode(atom, greedy, check)
                    else UpToCode(atom, max, greedy);
        FirstKindConcat(reset, body);
      } else if min == 1 && max == INT32_MAX && !check {
        FirstKindConcat(atom, [ISplit(!greedy, -(len + 5))]);
      } else {
        FirstKindUpTo(atom, max - min, greedy);
        FirstKindExact(atom, min);
        var head := if min == 1 then atom else ExactCode(atom, min);
        var tail := if max == INT32_MAX then StarCode(atom, greedy, check)
                    else if max > min then UpToCode(atom, max - min, greedy)
                    else [];
        FirstKindConcat(head, tail);
      }
    }
  }

  lemma FirstKindStar(atom: seq<Instr>, greedy: bool, check: bool)
    ensures FirstKind(StarCode(atom, greedy, check)).Unpredictable?
  {
  }

  lemma FirstKindUpTo(atom: seq<Instr>, n: int, greedy: bool)
    ensures FirstKind(UpToCode(atom, n, greedy)).Unpredictable?
  {
    var len: int := TotalSize(atom);
    assert UpToCode(atom, n, greedy)
        == [IPushI32(n)] + ([ISplit(greedy, len + 5)] + atom + [ILoop(-(len + 10)), IDrop]);
    FirstKindCons(IPushI32(n), [ISplit(greedy, len + 5)] + atom + [ILoop(-(len + 10)), IDrop]);
  }

  lemma FirstKindExact(atom: seq<Instr>, n: int)
    ensures FirstKind(ExactCode(atom, n)) == if FirstKind(atom).Undetermined? then Unpredictable else FirstKind(atom)
  {
    var tail := [ILoop(-(TotalSize(atom) + 5)), IDrop];
    assert ExactCode(atom, n) == [IPushI32(n)] + (atom + tail);
    FirstKindCons(IPushI32(n), atom + tail);
    FirstKindConcat(atom, tail);
  }

  lemma CaptureKind(body: seq<Instr>, back: bool, cc: nat)
    requires FirstKind([ISave(back, cc)] + body + [ISave(!back, cc)]).Advances?
    ensures FirstKind(body).Advances?
  {
    FirstKindConcat([ISave(back, cc)] + body, [ISave(!back, cc)]);
    FirstKindCons(ISave(back, cc), body);
  }

  lemma LookKind(body: seq<Instr>, neg: bool)
    ensures FirstKind([ILook(neg, TotalSize(body) + 1)] + body + [IMatch]).Unpredictable?
  {
    FirstKindConcat([ILook(neg, TotalSize(body) + 1)] + body, [IMatch]);
    FirstKindCons(ILook(neg, TotalSize(body) + 1), body);
  }

  // re_check_advance is right to promise progress: if the first opcode with a say consumes a
  // character, every success is elsewhere.
  lemma {:induction false} AdvanceStrict(env: Env, r: Re, back: bool, cc: nat, st: St, x: St)
    requires WellFormed(r) && FirstKind(Compile(r, env.dotall, back, cc)).Advances?
    requires ValidSt(env, st) && x in Ends(env, r, back, cc, st)
    ensures x.pos != st.pos
    decreases r, 1
  {
    hide FirstKind;
    hide QuantCode;
    hide Oriented;
    hide RangeInstr;
    hide FlatMap;
    match r
    case Group(b) => AdvanceStrict(env, b, back, cc, st, x);
    case Capture(b) => AdvanceStrictCapture(env, b, back, cc, st, x);
    case Look(neg, behind, b) => LookKind(Compile(b, env.dotall, behind, cc), neg);
    case Quant(_, _, _, _) => AdvanceStrictQuant(env, r, back, cc, st, x);
    case Cat(ts) => AdvanceStrictCat(env, ts, back, cc, st, x);
    case Disj(ts) => AdvanceStrictDisj(env, ts, back, cc, st, x);
    case _ => AdvanceStrictLeaf(env, r, back, cc, st, x);
  }

  lemma {:induction false} AdvanceStrictCapture(env: Env, b: Re, back: bool, cc: nat, st: St, x: St)
    requires WellFormed(b) && FirstKind(Compile(Capture(b), env.dotall, back, cc)).Advances?
    requires ValidSt(env, st) && x in Ends(env, Capture(b), back, cc, st)
    ensures x.pos != st.pos
    decreases b, 2
  {
    hide FirstKind;
    hide FlatMap;
    CaptureKind(Compile(b, env.dotall, back, cc + 1), back, cc);
    var y := CaptureIn(env, b, back, cc, st, x);
    hide Ends;
    hide Compile;
    AdvanceStrict(env, b, back, cc + 1, SetCap(st, 2 * cc + BoolBit(back)), y);
  }

  lemma AdvanceStrictLeaf(env: Env, r: Re, back: bool, cc: nat, st: St, x: St)
    requires r.Chr? || r.Dot? || r.Class? || r.LineStart? || r.LineEnd? || r.WordBoundary? || r.BackRef?
    requires FirstKind(Compile(r, env.dotall, back, cc)).Advances?
    requires ValidSt(env, st) && x in Ends(env, r, back, cc, st)
    ensures x.pos != st.pos
  {
    hide FirstKind;
    if !(r.Chr? || r.Dot? || r.Class?) {
      AssertKind(r, env.dotall, back, cc);
    }
  }

  lemma AssertKind(r: Re, dotall: bool, back: bool, cc: nat)
    requires r.LineStart? || r.LineEnd? || r.WordBoundary? || r.BackRef?
    ensures FirstKind(Compile(r, dotall, back, cc)).Undetermined?
  {
    var c := Compile(r, dotall, back, cc);
    assert c[1..] == [];
  }

  lemma {:induction false} AdvanceStrictQuant(env: Env, r: Re, back: bool, cc: nat, st: St, x: St)
    requires r.Quant? && WellFormed(r) && FirstKind(Compile(r, env.dotall, back, cc)).Advances?
    requires ValidSt(env, st) && x in Ends(env, r, back, cc, st)
    ensures x.pos != st.pos
    decreases r, 0
  {
    var f, atom := EndsFn(env, r.body, back, cc), Compile(r.body, env.dotall, back, cc);
    FirstKindQuant(atom, cc, cc + Caps(r.body), r.min, r.max, r.greedy);
    EndsMoves(env, r.body, back, cc);
    forall s, y | ValidSt(env, s) && y in f(s)
      ensures y.pos != s.pos
    {
      AdvanceStrict(env, r.body, back, cc, s, y);
    }
    QuantMove(env, f, back, r.min, r.max, r.greedy, st, x);
  }

  lemma {:induction false} AdvanceStrictCat(env: Env, ts: seq<Re>, back: bool, cc: nat, st: St, x: St)
    requires WellFormedAll(ts) && FirstKind(CompileCat(ts, env.dotall, back, cc)).Advances?
    requires ValidSt(env, st) && x in EndsCat(env, ts, back, cc, st)
    ensures x.pos != st.pos
    decreases ts, 0
  {
    var n := |ts| - 1;
    var c1 := cc + CapsAll(ts[..n]);
    var last, init := EndsFn(env, ts[n], back, c1), EndsCatFn(env, ts[..n], back, cc);
    var lastCode, initCode := Compile(ts[n], env.dotall, back, c1), CompileCat(ts[..n], env.dotall, back, cc);
    if back {
      FirstKindConcat(lastCode, initCode);
      FlatMapIn(last(st), init, x);
      var y :| y in last(st) && x in init(y);
      EndsMove(env, ts[n], back, c1, st, y);
      EndsCatMove(env, ts[..n], back, cc, y, x);
      if FirstKind(lastCode).Advances? {
        AdvanceStrict(env, ts[n], back, c1, st, y);
      } else {
        AdvanceStrictCat(env, ts[..n], back, cc, y, x);
      }
    } else {
      FirstKindConcat(initCode, lastCode);
      FlatMapIn(init(st), last, x);
      var y :| y in init(st) && x in last(y);
      EndsCatMove(env, ts[..n], back, cc, st, y);
      EndsMove(env, ts[n], back, c1, y, x);
      if FirstKind(initCode).Advances? {
        AdvanceStrictCat(env, ts[..n], back, cc, st, y);
      } else {
        AdvanceStrict(env, ts[n], back, c1, y, x);
      }
    }
  }

  lemma {:induction false} AdvanceStrictDisj(env: Env, ts: seq<Re>, back: bool, cc: nat, st: St, x: St)
    requires WellFormedAll(ts) && FirstKind(CompileDisj(ts, env.dotall, back, cc)).Advances?
    requires ValidSt(env, st) && x in EndsDisj(env, ts, back, cc, st)
    ensures x.pos != st.pos
    decreases ts, 0
  {
    var n := |ts| - 1;
    assert n >= 0;
    if n == 0 {
      assert EndsDisj(env, ts[..0], back, cc, st) == [];
      AdvanceStrict(env, ts[0], back, cc + CapsAll(ts[..0]), st, x);
    }
  }
}
