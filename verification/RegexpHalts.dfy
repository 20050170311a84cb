// Which patterns always halt, as a condition on the tree: an unbounded loop is harmless if its atom
// never matches the empty string, or if it is greedy and free of back references.

module RegexpHalts {
  import opened Basics
  import opened CharRanges
  import opened RegexpCode
  import opened RegexpCompile
  import opened RegexpSemantics
  import opened RegexpVM
  import opened RegexpBlocks
  import opened RegexpCorrect
  import opened RegexpTheorem
  import opened RegexpLanguage
  import opened RegexpRun

  // ----- Code without back references -----

  lemma {:induction false} RefsConcat(a: seq<Instr>, b: seq<Instr>)
    ensures Refs(a + b) == Refs(a) + Refs(b)
    decreases |a|
  {
    if a == [] {
      assert a + b == b;
    } else {
      RefsConcat(a[1..], b);
      assert (a + b)[1..] == a[1..] + b;
    }
  }

  lemma RefsAround(a: seq<Instr>, b: seq<Instr>, c: seq<Instr>)
    requires Refs(a) == {} && Refs(b) == {} && Refs(c) == {}
    ensures Refs(a + b + c) == {}
  {
    RefsConcat(a, b);
    RefsConcat(a + b, c);
  }

  lemma RefsOne(i: Instr)
    requires !i.IBackRef?
    ensures Refs([i]) == {}
  {
    assert [i][1..] == [];
  }

  lemma RefsTwo(i: Instr, j: Instr)
    requires !i.IBackRef? && !j.IBackRef?
    ensures Refs([i, j]) == {}
  {
    RefsOne(i);
    RefsOne(j);
    RefsConcat([i], [j]);
    assert [i] + [j] == [i, j];
  }

  lemma StarNoRefs(atom: seq<Instr>, greedy: bool, check: bool)
    requires Refs(atom) == {}
    ensures Refs(StarCode(atom, greedy, check)) == {}
  {
    var len: int := TotalSize(atom);
    var z := if check then 1 else 0;
    var head := [ISplit(greedy, len + 5 + z)] + (if check then [IPushCharPos] else []);
    var tail := [if check then IBneCharPos(-(len + 10 + z)) else IGoto(-(len + 10 + z))];
    RefsOne(ISplit(greedy, len + 5 + z));
    RefsOne(IPushCharPos);
    RefsOne(tail[0]);
    RefsConcat([ISplit(greedy, len + 5 + z)], if check then [IPushCharPos] else []);
    RefsAround(head, atom, tail);
  }

  lemma UpToNoRefs(atom: seq<Instr>, n: int, greedy: bool)
    requires Refs(atom) == {}
    ensures Refs(UpToCode(atom, n, greedy)) == {}
  {
    hide Refs;
    hide TotalSize;
    var len: int := TotalSize(atom);
    RefsTwo(IPushI32(n), ISplit(greedy, len + 5));
    RefsTwo(ILoop(-(len + 10)), IDrop);
    RefsAround([IPushI32(n), ISplit(greedy, len + 5)], atom, [ILoop(-(len + 10)), IDrop]);
  }

  lemma ExactNoRefs(atom: seq<Instr>, n: int)
    requires Refs(atom) == {}
    ensures Refs(ExactCode(atom, n)) == {}
  {
    var len: int := TotalSize(atom);
    RefsOne(IPushI32(n));
    RefsTwo(ILoop(-(len + 5)), IDrop);
    RefsAround([IPushI32(n)], atom, [ILoop(-(len + 5)), IDrop]);
  }

  lemma QuantNoRefs(atom: seq<Instr>, lo: int, hi: int, min: int, max: int, greedy: bool)
    requires Refs(atom) == {}
    ensures Refs(QuantCode(atom, lo, hi, min, max, greedy)) == {}
  {
    hide SimpleCount;
    hide CheckAdvance;
    hide TotalSize;
    hide StarCode;
    hide UpToCode;
    hide ExactCode;
    var len: int := TotalSize(atom);
    if greedy && max > 0 && SimpleCount(atom) > 0 {
      RefsOne(IGreedy(len + 1, min, max, SimpleCount(atom)));
      RefsOne(IMatch);
      RefsAround([IGreedy(len + 1, min, max, SimpleCount(atom))], atom, [IMatch]);
    } else {
      var check := greedy && CheckAdvance(atom) == 0;
      StarNoRefs(atom, greedy, check);
      UpToNoRefs(atom, max, greedy);
      UpToNoRefs(atom, max - min, greedy);
      ExactNoRefs(atom, min);
      RefsOne(ISplit(greedy, len));
      RefsConcat([ISplit(greedy, len)], atom);
      RefsOne(ISplit(!greedy, -(len + 5)));
      RefsConcat(atom, [ISplit(!greedy, -(len + 5))]);
      RefsOne(ISaveReset(lo, hi - 1));
      var front := if lo != hi then [ISaveReset(lo, hi - 1)] else [];
      var some := if min == 1 then atom else ExactCode(atom, min);
      var rest := if max == INT32_MAX then StarCode(atom, greedy, check)
                  else if max > min then UpToCode(atom, max - min, greedy)
                  else [];
      var none := if max == 0 then []
                  else if max == 1 then [ISplit(greedy, len)] + atom
                  else if max == INT32_MAX then StarCode(atom, greedy, check)
                  else UpToCode(atom, max, greedy);
      RefsConcat(front, none);
      RefsConcat(some, rest);
    }
  }

  lemma SaveNoRefs(c: seq<Instr>, back: bool, cc: nat)
    requires Refs(c) == {}
    ensures Refs([ISave(back, cc)] + c + [ISave(!back, cc)]) == {}
  {
    RefsOne(ISave(back, cc));
    RefsOne(ISave(!back, cc));
    RefsAround([ISave(back, cc)], c, [ISave(!back, cc)]);
  }

  lemma LookNoRefs(c: seq<Instr>, neg: bool)
    requires Refs(c) == {}
    ensures Refs([ILook(neg, TotalSize(c) + 1)] + c + [IMatch]) == {}
  {
    RefsOne(ILook(neg, TotalSize(c) + 1));
    RefsOne(IMatch);
    RefsAround([ILook(neg, TotalSize(c) + 1)], c, [IMatch]);
  }

  // Code of a pattern without back references contains none.
  lemma {:induction false} CompileNoRefs(r: Re, dotall: bool, back: bool, cc: nat)
    requires NoBackRef(r)
    ensures Refs(Compile(r, dotall, back, cc)) == {}
    decreases r, 1
  {
    hide QuantCode;
    hide Oriented;
    hide Refs;
    match r
    case Group(b) =>
      CompileNoRefs(b, dotall, back, cc);
    case Capture(b) =>
      CompileNoRefs(b, dotall, back, cc + 1);
      SaveNoRefs(Compile(b, dotall, back, cc + 1), back, cc);
    case Look(neg, behind, b) =>
      CompileNoRefs(b, dotall, behind, cc);
      LookNoRefs(Compile(b, dotall, behind, cc), neg);
    case Quant(b, min, max, greedy) =>
      CompileNoRefs(b, dotall, back, cc);
      QuantNoRefs(Compile(b, dotall, back, cc), cc, cc + Caps(b), min, max, greedy);
    case Cat(ts) =>
      CatNoRefs(ts, dotall, back, cc);
    case Disj(ts) =>
      DisjNoRefs(ts, dotall, back, cc);
    case _ =>
      LeafNoRefs(r, dotall, back, cc);
  }

  lemma LeafNoRefs(r: Re, dotall: bool, back: bool, cc: nat)
    requires r.Chr? || r.Dot? || r.Class? || r.LineStart? || r.LineEnd? || r.WordBoundary?
    ensures Refs(Compile(r, dotall, back, cc)) == {}
  {
    hide RangeInstr;
    hide Refs;
    match r
    case LineStart => RefsOne(ILineStart);
    case LineEnd => RefsOne(ILineEnd);
    case WordBoundary(neg) => RefsOne(IWordBoundary(neg));
    case Chr(c) => OrientedNoRefs(if c <= 0xFFFF then IChar(c) else IChar32(c), back);
    case Dot => OrientedNoRefs(if dotall then IAny else IDot, back);
    case Class(points) =>
      ClassInstr(points);
      OrientedNoRefs(RangeInstr(points), back);
  }

  lemma ClassInstr(points: seq<u32>)
    ensures !RangeInstr(points).IBackRef?
  {
    hide Pairs16;
    hide Pairs32;
  }

  lemma OrientedNoRefs(i: Instr, back: bool)
    requires !i.IBackRef?
    ensures Refs(Oriented(i, back)) == {}
  {
    RefsOne(i);
    RefsOne(IPrev);
    RefsAround([IPrev], [i], [IPrev]);
    assert [IPrev] + [i] + [IPrev] == [IPrev, i, IPrev];
  }

  lemma {:induction false} CatNoRefs(ts: seq<Re>, dotall: bool, back: bool, cc: nat)
    requires NoBackRefs(ts)
    ensures Refs(CompileCat(ts, dotall, back, cc)) == {}
    decreases ts, 0
  {
    if ts != [] {
      var n := |ts| - 1;
      CatNoRefs(ts[..n], dotall, back, cc);
      CompileNoRefs(ts[n], dotall, back, cc + CapsAll(ts[..n]));
      var init := CompileCat(ts[..n], dotall, back, cc);
      var last := Compile(ts[n], dotall, back, cc + CapsAll(ts[..n]));
      RefsConcat(init, last);
      RefsConcat(last, init);
    }
  }

  lemma AltNoRefs(init: seq<Instr>, last: seq<Instr>)
    requires Refs(init) == {} && Refs(last) == {}
    ensures Refs([ISplit(true, TotalSize(init) + 5)] + init + [IGoto(TotalSize(last))] + last) == {}
  {
    RefsOne(ISplit(true, TotalSize(init) + 5));
    RefsOne(IGoto(TotalSize(last)));
    RefsAround([ISplit(true, TotalSize(init) + 5)], init, [IGoto(TotalSize(last))]);
    RefsConcat([ISplit(true, TotalSize(init) + 5)] + init + [IGoto(TotalSize(last))], last);
  }

  lemma {:induction false} DisjNoRefs(ts: seq<Re>, dotall: bool, back: bool, cc: nat)
    requires NoBackRefs(ts)
    ensures Refs(CompileDisj(ts, dotall, back, cc)) == {}
    decreases ts, 0
  {
    hide TotalSize;
    if ts != [] {
      var n := |ts| - 1;
      var last := Compile(ts[n], dotall, back, cc + CapsAll(ts[..n]));
      CompileNoRefs(ts[n], dotall, back, cc + CapsAll(ts[..n]));
      if n > 0 {
        DisjNoRefs(ts[..n], dotall, back, cc);
        AltNoRefs(CompileDisj(ts[..n], dotall, back, cc), last);
      }
    }
  }

  // ----- Atoms that consume something -----

  // By its shape, r matches no empty string.
  ghost predicate NeverEmpty(r: Re) {
    match r
    case Chr(_) => true
    case Dot => true
    case Class(_) => true
    case Group(b) => NeverEmpty(b)
    case Capture(b) => NeverEmpty(b)
    case Quant(b, min, _, _) => min >= 1 && NeverEmpty(b)
    case Cat(ts) => SomeNeverEmpty(ts)
    case Disj(ts) => AllNeverEmpty(ts)
    case _ => false
  }

  ghost predicate SomeNeverEmpty(ts: seq<Re>) {
    ts != [] && (SomeNeverEmpty(ts[..|ts| - 1]) || NeverEmpty(ts[|ts| - 1]))
  }

  ghost predicate AllNeverEmpty(ts: seq<Re>) {
    ts == [] || (AllNeverEmpty(ts[..|ts| - 1]) && NeverEmpty(ts[|ts| - 1]))
  }

  // Every success of such a pattern is elsewhere.
  lemma {:induction false} NeverEmptyMoves(env: Env, r: Re, back: bool, cc: nat, st: St, x: St)
    requires NeverEmpty(r) && ValidSt(env, st) && x in Ends(env, r, back, cc, st)
    ensures x.pos != st.pos
    decreases r, 1
  {
    match r
    case Group(b) =>
      NeverEmptyMoves(env, b, back, cc, st, x);
    case Capture(b) =>
      var y := CaptureIn(env, b, back, cc, st, x);
      NeverEmptyMoves(env, b, back, cc + 1, SetCap(st, 2 * cc + BoolBit(back)), y);
    case Quant(b, min, max, greedy) =>
      NeverEmptyStrict(env, b, back, cc);
      EndsMoves(env, b, back, cc);
      QuantMove(env, EndsFn(env, b, back, cc), back, min, max, greedy, st, x);
    case Cat(ts) =>
      NeverEmptyCat(env, ts, back, cc, st, x);
    case Disj(ts) =>
      NeverEmptyDisj(env, ts, back, cc, st, x);
    case _ =>
  }

  lemma {:induction false} NeverEmptyStrict(env: Env, b: Re, back: bool, cc: nat)
    requires NeverEmpty(b)
    ensures Strict(env, EndsFn(env, b, back, cc))
    decreases b, 2
  {
    forall st, x | ValidSt(env, st) && x in EndsFn(env, b, back, cc)(st)
      ensures x.pos != st.pos
    {
      NeverEmptyMoves(env, b, back, cc, st, x);
    }
  }

  lemma {:induction false} NeverEmptyCat(env: Env, ts: seq<Re>, back: bool, cc: nat, st: St, x: St)
    requires SomeNeverEmpty(ts) && ValidSt(env, st) && x in EndsCat(env, ts, back, cc, st)
    ensures x.pos != st.pos
    decreases ts, 0
  {
    var n := |ts| - 1;
    var c1 := cc + CapsAll(ts[..n]);
    var last, init := EndsFn(env, ts[n], back, c1), EndsCatFn(env, ts[..n], back, cc);
    if back {
      FlatMapIn(last(st), init, x);
      var y :| y in last(st) && x in init(y);
      EndsMove(env, ts[n], back, c1, st, y);
      EndsCatMove(env, ts[..n], back, cc, y, x);
      if NeverEmpty(ts[n]) {
        NeverEmptyMoves(env, ts[n], back, c1, st, y);
      } else {
        NeverEmptyCat(env, ts[..n], back, cc, y, x);
      }
    } else {
      FlatMapIn(init(st), last, x);
      var y :| y in init(st) && x in last(y);
      EndsCatMove(env, ts[..n], back, cc, st, y);
      EndsMove(env, ts[n], back, c1, y, x);
      if NeverEmpty(ts[n]) {
        NeverEmptyMoves(env, ts[n], back, c1, y, x);
      } else {
        NeverEmptyCat(env, ts[..n], back, cc, st, y);
      }
    }
  }

  lemma {:induction false} NeverEmptyDisj(env: Env, ts: seq<Re>, back: bool, cc: nat, st: St, x: St)
    requires AllNeverEmpty(ts) && ValidSt(env, st) && x in EndsDisj(env, ts, back, cc, st)
    ensures x.pos != st.pos
    decreases ts, 0
  {
    var n := |ts| - 1;
    if x in EndsDisj(env, ts[..n], back, cc, st) {
      NeverEmptyDisj(env, ts[..n], back, cc, st, x);
    } else {
      NeverEmptyMoves(env, ts[n], back, cc + CapsAll(ts[..n]), st, x);
    }
  }

  // ----- ... and no others, for patterns without assertions -----

  ghost predicate Plain(r: Re) {
    match r
    case Chr(_) => true
    case Dot => true
    case Class(_) => true
    case Group(b) => Plain(b)
    case Capture(b) => Plain(b)
    case Quant(b, _, _, _) => Plain(b)
    case Cat(ts) => AllPlain(ts)
    case Disj(ts) => AllPlain(ts)
    case _ => false
  }

  ghost predicate AllPlain(ts: seq<Re>) {
    ts == [] || (AllPlain(ts[..|ts| - 1]) && Plain(ts[|ts| - 1]))
  }

  lemma {:induction false} PlainNoBackRef(r: Re)
    requires Plain(r)
    ensures NoBackRef(r)
    decreases r, 1
  {
    match r
    case Group(b) => PlainNoBackRef(b);
    case Capture(b) => PlainNoBackRef(b);
    case Quant(b, _, _, _) => PlainNoBackRef(b);
    case Cat(ts) => PlainNoBackRefs(ts);
    case Disj(ts) => PlainNoBackRefs(ts);
    case _ =>
  }

  lemma {:induction false} PlainNoBackRefs(ts: seq<Re>)
    requires AllPlain(ts)
    ensures NoBackRefs(ts)
    decreases ts, 0
  {
    if ts != [] {
      PlainNoBackRefs(ts[..|ts| - 1]);
      PlainNoBackRef(ts[|ts| - 1]);
    }
  }

  // The empty string is matched wherever one looks.
  lemma {:induction false} PlainEmpty(env: Env, r: Re, i: int)
    requires WellFormed(r) && Plain(r) && !NeverEmpty(r) && 0 <= i <= |env.input|
    ensures Lang(env, r, i, i)
    decreases r, 1
  {
    match r
    case Group(b) => PlainEmpty(env, b, i);
    case Capture(b) => PlainEmpty(env, b, i);
    case Quant(b, min, max, _) =>
      if min >= 1 {
        PlainEmpty(env, b, i);
      }
      EmptyRounds(env, b, min, i);
      assert Iter(env, b, min, i, i);
    case Cat(ts) => PlainEmptyCat(env, ts, i);
    case Disj(ts) => PlainEmptyDisj(env, ts, i);
  }

  lemma {:induction false} EmptyRounds(env: Env, b: Re, n: nat, i: int)
    requires n >= 1 ==> Lang(env, b, i, i)
    requires 0 <= i <= |env.input|
    ensures Iter(env, b, n, i, i)
    decreases n
  {
    if n > 0 {
      EmptyRounds(env, b, n - 1, i);
    }
  }

  lemma {:induction false} PlainEmptyCat(env: Env, ts: seq<Re>, i: int)
    requires WellFormedAll(ts) && AllPlain(ts) && !SomeNeverEmpty(ts) && 0 <= i <= |env.input|
    ensures LangCat(env, ts, i, i)
    decreases ts, 0
  {
    if ts != [] {
      PlainEmptyCat(env, ts[..|ts| - 1], i);
      PlainEmpty(env, ts[|ts| - 1], i);
      assert LangCatAt(env, ts, i, i, i);
    }
  }

  lemma {:induction false} PlainEmptyDisj(env: Env, ts: seq<Re>, i: int)
    requires WellFormedAll(ts) && AllPlain(ts) && !AllNeverEmpty(ts) && 0 <= i <= |env.input|
    ensures exists k :: 0 <= k < |ts| && Lang(env, ts[k], i, i)
    decreases ts, 0
  {
    var n := |ts| - 1;
    if AllNeverEmpty(ts[..n]) {
      PlainEmpty(env, ts[n], i);
    } else {
      PlainEmptyDisj(env, ts[..n], i);
      var k :| 0 <= k < n && Lang(env, ts[..n][k], i, i);
      assert ts[k] == ts[..n][k];
    }
  }

  // Without assertions and back references the shape decides, on every input.
  lemma PlainStrictIff(env: Env, r: Re, back: bool, cc: nat)
    requires WellFormed(r) && Plain(r)
    ensures NeverEmpty(r) <==> Strict(env, EndsFn(env, r, back, cc))
  {
    hide NeverEmpty;
    hide Plain;
    hide Lang;
    hide Ends;
    if NeverEmpty(r) {
      NeverEmptyStrict(env, r, back, cc);
    } else {
      var st := Init(env, 0);
      InitValid(env, 0);
      PlainEmpty(env, r, 0);
      PlainNoBackRef(r);
      EndsHits(env, r, back, cc, st, 0);
      var x :| x in EndsFn(env, r, back, cc)(st) && x.pos == 0;
    }
  }

  // ----- Patterns that halt -----

  // Every unbounded loop is over an atom that consumes something, or is greedy without back references.
  ghost predicate TreeSafe(r: Re) {
    match r
    case Group(b) => TreeSafe(b)
    case Capture(b) => TreeSafe(b)
    case Look(_, _, b) => TreeSafe(b)
    case Quant(b, _, max, greedy) => TreeSafe(b) && (max == INT32_MAX ==> NeverEmpty(b) || (greedy && NoBackRef(b)))
    case Cat(ts) => AllTreeSafe(ts)
    case Disj(ts) => AllTreeSafe(ts)
    case _ => true
  }

  ghost predicate AllTreeSafe(ts: seq<Re>) {
    ts == [] || (AllTreeSafe(ts[..|ts| - 1]) && TreeSafe(ts[|ts| - 1]))
  }

  // Every quantifier is greedy.
  ghost predicate GreedyOnly(r: Re) {
    match r
    case Group(b) => GreedyOnly(b)
    case Capture(b) => GreedyOnly(b)
    case Look(_, _, b) => GreedyOnly(b)
    case Quant(b, _, _, greedy) => greedy && GreedyOnly(b)
    case Cat(ts) => AllGreedyOnly(ts)
    case Disj(ts) => AllGreedyOnly(ts)
    case _ => true
  }

  ghost predicate AllGreedyOnly(ts: seq<Re>) {
    ts == [] || (AllGreedyOnly(ts[..|ts| - 1]) && GreedyOnly(ts[|ts| - 1]))
  }

  lemma {:induction false} GreedySafe(r: Re)
    requires GreedyOnly(r) && NoBackRef(r)
    ensures TreeSafe(r)
    decreases r, 1
  {
    match r
    case Group(b) => GreedySafe(b);
    case Capture(b) => GreedySafe(b);
    case Look(_, _, b) => GreedySafe(b);
    case Quant(b, _, _, _) => GreedySafe(b);
    case Cat(ts) => AllGreedySafe(ts);
    case Disj(ts) => AllGreedySafe(ts);
    case _ =>
  }

  lemma {:induction false} AllGreedySafe(ts: seq<Re>)
    requires AllGreedyOnly(ts) && NoBackRefs(ts)
    ensures AllTreeSafe(ts)
    decreases ts, 0
  {
    if ts != [] {
      AllGreedySafe(ts[..|ts| - 1]);
      GreedySafe(ts[|ts| - 1]);
    }
  }

  // The shape of the tree makes every loop safe, whatever the input.
  lemma {:induction false} TreeSafeSupported(env: Env, r: Re, back: bool, cc: nat)
    requires TreeSafe(r)
    ensures Supported(env, r, back, cc)
    decreases r, 1
  {
    hide Compile;
    hide Refs;
    hide NeverEmpty;
    hide NoBackRef;
    match r
    case Group(b) =>
      TreeSafeSupported(env, b, back, cc);
    case Capture(b) =>
      TreeSafeSupported(env, b, back, cc + 1);
    case Look(_, behind, b) =>
      TreeSafeSupported(env, b, behind, cc);
    case Quant(b, _, max, greedy) =>
      TreeSafeSupported(env, b, back, cc);
      if NeverEmpty(b) {
        NeverEmptyStrict(env, b, back, cc);
      } else if NoBackRef(b) {
        CompileNoRefs(b, env.dotall, back, cc);
      }
    case Cat(ts) =>
      AllTreeSafeSupported(env, ts, back, cc);
    case Disj(ts) =>
      AllTreeSafeSupported(env, ts, back, cc);
    case _ =>
  }

  lemma {:induction false} AllTreeSafeSupported(env: Env, ts: seq<Re>, back: bool, cc: nat)
    requires AllTreeSafe(ts)
    ensures SupportedAll(env, ts, back, cc)
    decreases ts, 0
  {
    if ts != [] {
      var n := |ts| - 1;
      AllTreeSafeSupported(env, ts[..n], back, cc);
      TreeSafeSupported(env, ts[n], back, cc + CapsAll(ts[..n]));
    }
  }

  // Every loop of a greedy pattern without back references is safe.
  lemma GreedySupported(env: Env, r: Re, back: bool, cc: nat)
    requires GreedyOnly(r) && NoBackRef(r)
    ensures Supported(env, r, back, cc)
  {
    GreedySafe(r);
    TreeSafeSupported(env, r, back, cc);
  }

  // The program of the pattern, with or without the search loop in front, on this input.
  ghost predicate Loaded(p: Prog, r: Re, sticky: bool) {
    && WellFormed(r) && 1 + Caps(r) <= p.env.capCount && p.env.Valid() && ProgOk(p) && Unlimited(p)
    && AtAll(p.fetch, 0, (if sticky then [] else SEARCH_PREFIX) + Program(r, p.env.dotall))
  }

  // Execution of such a pattern halts on every input, and it reports a match iff the language of
  // the pattern has one.
  lemma SafeHalts(p: Prog, r: Re, sticky: bool, i: int) returns (t: Vm)
    requires Loaded(p, r, sticky) && TreeSafe(r) && NoBackRef(r) && 0 <= i <= |p.env.input|
    ensures Reaches(p, Run(0, Init(p.env, i), [], []), t) && (t.NoMatch? || t.Match?)
    ensures t.Match? <==> Accepts(p.env, r, sticky, i)
  {
    hide Matches;
    hide Reaches;
    hide Program;
    hide TreeSafe;
    hide NoBackRef;
    hide Supported;
    hide AtAll;
    hide TopEnds;
    hide SearchEnds;
    TreeSafeSupported(p.env, r, false, 1);
    if sticky {
      assert [] + Program(r, p.env.dotall) == Program(r, p.env.dotall);
      StickyRun(p, r, i);
      AcceptsIffLang(p.env, r, i);
      t := Outcome(TopEnds(p.env, r, i));
    } else {
      SearchRun(p, r, i);
      SearchIffLang(p.env, r, i);
      t := Outcome(SearchEnds(p.env, r, i));
    }
  }

  // In particular every greedy pattern without back references.
  lemma GreedyHalts(p: Prog, r: Re, sticky: bool, i: int) returns (t: Vm)
    requires Loaded(p, r, sticky) && GreedyOnly(r) && NoBackRef(r) && 0 <= i <= |p.env.input|
    ensures Reaches(p, Run(0, Init(p.env, i), [], []), t) && (t.NoMatch? || t.Match?)
    ensures t.Match? <==> Accepts(p.env, r, sticky, i)
  {
    GreedySafe(r);
    t := SafeHalts(p, r, sticky, i);
  }
}
