// lre_compile and lre_exec of quickjs/libregexp.c end to end: header, bytecode, execution.

module RegexpApi {
  import opened Basics
  import opened RegexpCode
  import opened RegexpCompile
  import opened RegexpSemantics
  import opened RegexpVM
  import opened RegexpTheorem
  import opened RegexpLanguage
  import opened RegexpClosed
  import opened RegexpRun
  import opened RegexpScan
  import opened RegexpEmit
  import opened RegexpExec
  import opened RegexpHalts
  import opened RegexpAnswers
  import opened RegexpCaptures
  import opened RegexpReference
  import opened RegexpAtoms

  // ----- Header -----

  const RE_HEADER_LEN: int := 7

  const LRE_FLAG_MULTILINE: int := 4
  const LRE_FLAG_DOTALL: int := 8
  const LRE_FLAG_STICKY: int := 32

  function Flag(flags: byte, bit: int): bool
    requires bit > 0
  {
    flags as int / bit % 2 == 1
  }

  // What the flags mean, by their values in the interface.
  predicate Multiline(flags: byte) {
    flags as int / 4 % 2 == 1
  }

  predicate Dotall(flags: byte) {
    flags as int / 8 % 2 == 1
  }

  predicate Sticky(flags: byte) {
    flags as int / 32 % 2 == 1
  }

  lemma FlagsAre(flags: byte)
    ensures Flag(flags, LRE_FLAG_MULTILINE) == Multiline(flags)
    ensures Flag(flags, LRE_FLAG_DOTALL) == Dotall(flags)
    ensures Flag(flags, LRE_FLAG_STICKY) == Sticky(flags)
  {
  }

  function WholeProgram(r: Re, flags: byte): seq<Instr> {
    (if Sticky(flags) then [] else SEARCH_PREFIX) + Program(r, Dotall(flags))
  }

  // The buffer lre_compile returns for the pattern r.
  ghost predicate CodeOf(bc: seq<byte>, r: Re, flags: byte) {
    var prog := WholeProgram(r, flags);
    && AllValid(prog) && |bc| == RE_HEADER_LEN + TotalSize(prog) && TotalSize(prog) < TWO32
    && bc[0] == flags && bc[1] as int == 1 + Caps(r) && bc[2] as int == MaxDepth(prog, 0)
    && GetU32(bc, 3) == TotalSize(prog)
    && bc[RE_HEADER_LEN..] == EncAll(prog)
  }

  // ----- Compiling -----

  lemma ProgramParts(r: Re, flags: byte)
    ensures var d := Dotall(flags);
      WholeProgram(r, flags)
      == (if Sticky(flags) then [] else SEARCH_PREFIX) + [ISave(false, 0)] + Compile(r, d, false, 1)
            + [ISave(true, 0), IMatch]
  {
  }

  lemma PrefixEnc()
    ensures AllValid(SEARCH_PREFIX)
    ensures EncAll(SEARCH_PREFIX) == Word(8, 6) + [4] + Word(7, ToU32(-11))
  {
    hide U32;
    EncBetween(ISplit(false, 6), [IAny], IGoto(-11));
    EncOne(IAny);
    assert SEARCH_PREFIX == [ISplit(false, 6)] + [IAny] + [IGoto(-11)];
    assert Enc(IAny) == [4];
  }

  lemma TailEnc()
    ensures AllValid([ISave(true, 0), IMatch]) && EncAll([ISave(true, 0), IMatch]) == [12, 0, 10]
  {
    EncOne(IMatch);
    EncCons(ISave(true, 0), [IMatch]);
    assert [ISave(true, 0), IMatch] == [ISave(true, 0)] + [IMatch];
    assert Enc(ISave(true, 0)) == [12, 0] && Enc(IMatch) == [10];
  }

  // The bytes of the whole program, from those of the pattern.
  lemma ProgramEnc(r: Re, flags: byte)
    ensures var c := Compile(r, Dotall(flags), false, 1);
      AllValid(c) ==>
        && AllValid(WholeProgram(r, flags))
        && EncAll(WholeProgram(r, flags))
           == (if Sticky(flags) then [] else EncAll(SEARCH_PREFIX)) + [11, 0] + EncAll(c) + [12, 0, 10]
  {
    hide EncAll;
    hide Compile;
    hide Flag;
    var c := Compile(r, Dotall(flags), false, 1);
    var pre := if Sticky(flags) then [] else SEARCH_PREFIX;
    if AllValid(c) {
      PrefixEnc();
      EncNil();
      TailEnc();
      EncOne(ISave(false, 0));
      assert Enc(ISave(false, 0)) == [11, 0];
      EncAllConcat(pre, [ISave(false, 0)]);
      EncAllConcat(pre + [ISave(false, 0)], c);
      EncAllConcat(pre + [ISave(false, 0)] + c, [ISave(true, 0), IMatch]);
      ProgramParts(r, flags);
    }
  }

  ghost function Front(flags: byte): seq<byte> {
    (if Sticky(flags) then [] else EncAll(SEARCH_PREFIX)) + [11, 0]
  }

  // The search loop and the start of group 0.
  method EmitFront(s: REParseState, flags: byte)
    requires s.byteCode == []
    modifies s`byteCode
    ensures AllValid(SEARCH_PREFIX) && s.byteCode == Front(flags)
  {
    hide EncAll;
    FlagsAre(flags);
    hide Flag;
    hide Sticky;
    hide Word;
    PrefixEnc();
    if !Flag(flags, LRE_FLAG_STICKY) {
      var _ := s.EmitOpU32(8, 6);
      s.EmitOp(4);
      var _ := s.EmitOpU32(7, ToU32(-(5 + 1 + 5)));
    }
    s.EmitOpU8(11, 0);
  }

  // The whole program: the search loop, group 0 around the pattern, and the final match.
  method EmitProgram(s: REParseState, r: Re, flags: byte) returns (ok: bool)
    requires s.byteCode == [] && s.captureCount == 1 && s.dotall == Dotall(flags)
    requires Parsed(r) && Fits(r, s.dotall, false, 1)
    modifies s
    ensures ok <==> WellFormed(r) && 1 + Caps(r) <= 255
    ensures ok ==> s.captureCount == 1 + Caps(r) && AllValid(WholeProgram(r, flags))
    ensures ok ==> s.byteCode == EncAll(WholeProgram(r, flags))
  {
    hide EncAll;
    hide Compile;
    hide Flag;
    hide Parsed;
    hide Fits;
    hide WellFormed;
    hide WholeProgram;
    hide AllValid;
    hide Caps;
    ProgramEnc(r, flags);
    EmitFront(s, flags);
    ok := s.Emit(r, false);
    if !ok {
      return;
    }
    s.EmitOpU8(12, 0);
    s.EmitOp(10);
    ghost var c := EncAll(Compile(r, s.dotall, false, 1));
    assert s.byteCode == Front(flags) + c + [12, 0, 10];
  }

  // lre_compile, for a pattern that has been read into a tree.
  method LreCompile(r: Re, flags: byte) returns (ok: bool, bc: seq<byte>)
    requires Parsed(r) && Fits(r, Dotall(flags), false, 1)
    requires TotalSize(WholeProgram(r, flags)) < TWO32
    ensures ok <==> WellFormed(r) && 1 + Caps(r) <= 255 &&
                    MaxDepth(WholeProgram(r, flags), 0) <= 255
    ensures ok ==> CodeOf(bc, r, flags)
  {
    hide EncAll;
    hide Compile;
    FlagsAre(flags);
    hide Flag;
    hide Dotall;
    hide Parsed;
    hide Fits;
    hide WellFormed;
    hide MaxDepth;
    hide Header;
    hide WholeProgram;
    hide TotalSize;
    hide GetU32;
    ghost var prog := WholeProgram(r, flags);
    bc := [];
    var s := new REParseState(Flag(flags, LRE_FLAG_DOTALL));
    ok := EmitProgram(s, r, flags);
    if ok {
      var stackSize := ComputeStackSize(s.byteCode, prog);
      if stackSize < 0 {
        DepthNat(prog);
        return false, [];
      }
      bc := Header(flags, s.captureCount, stackSize, |s.byteCode|) + s.byteCode;
      HeaderFields(flags, s.captureCount, stackSize, |s.byteCode|, s.byteCode);
    }
  }

  lemma DepthNat(prog: seq<Instr>)
    ensures MaxDepth(prog, 0) >= 0
  {
  }

  function Header(flags: byte, captureCount: byte, stackSize: byte, size: int): (h: seq<byte>)
    requires 0 <= size < TWO32
    ensures |h| == RE_HEADER_LEN
  {
    [flags, captureCount, stackSize] + U32(size)
  }

  lemma HeaderFields(flags: byte, captureCount: byte, stackSize: byte, size: int, code: seq<byte>)
    requires 0 <= size < TWO32
    ensures var bc := Header(flags, captureCount, stackSize, size) + code;
      && bc[0] == flags && bc[1] == captureCount && bc[2] == stackSize && GetU32(bc, 3) == size
      && bc[RE_HEADER_LEN..] == code
  {
    var bc := Header(flags, captureCount, stackSize, size) + code;
    assert forall k :: 0 <= k < 4 ==> bc[3 + k] == U32(size)[k];
    GetU32Put(bc, 3, size);
  }

  // ----- Executing -----

  ghost function AllEnds(env: Env, r: Re, sticky: bool, i: int): seq<St> {
    if sticky then TopEnds(env, r, i) else SearchEnds(env, r, i)
  }

  ghost function EnvOf(input: seq<int>, flags: byte, r: Re): Env {
    Env(input, Dotall(flags), Multiline(flags), 1 + Caps(r), None)
  }

  lemma FetcherOk(code: seq<byte>, env: Env)
    ensures ProgOk(Prog(Fetcher(code), |code|, env, None))
  {
    hide SizeAt;
  }

  lemma {:induction false} MaxDepthPrefix(a: seq<Instr>, b: seq<Instr>, d: int)
    ensures MaxDepth(a, d) <= MaxDepth(a + b, d)
    decreases |a|
  {
    if a != [] {
      MaxDepthPrefix(a[1..], b, d + Effect(a[0]));
      assert (a + b)[1..] == a[1..] + b;
    }
  }

  // The code behind the header, loaded to run on env.
  ghost function ProgOf(bc: seq<byte>, env: Env): Prog
    requires |bc| >= RE_HEADER_LEN
  {
    Prog(Fetcher(bc[RE_HEADER_LEN..]), |bc[RE_HEADER_LEN..]|, env, None)
  }

  // The machine started at i comes to an answer t.
  ghost predicate Answers(bc: seq<byte>, env: Env, i: int, t: Vm) {
    |bc| >= RE_HEADER_LEN && Final(t) && Reaches(ProgOf(bc, env), Run(0, Init(env, i), [], []), t)
  }

  // Execution ends, one way or the other.
  ghost predicate Halting(bc: seq<byte>, env: Env, i: int) {
    exists t :: Answers(bc, env, i, t)
  }

  lemma CodeLoaded(bc: seq<byte>, r: Re, flags: byte, env: Env)
    requires CodeOf(bc, r, flags) && env == EnvOf(env.input, flags, r)
    ensures |bc| >= RE_HEADER_LEN && ProgOk(ProgOf(bc, env)) && AtAll(ProgOf(bc, env).fetch, 0, WholeProgram(r, flags))
  {
    hide EncAll;
    hide Flag;
    hide MaxDepth;
    hide TotalSize;
    hide GetU32;
    hide AtAll;
    hide WholeProgram;
    var code, prog := bc[RE_HEADER_LEN..], WholeProgram(r, flags);
    assert code[0..0 + TotalSize(prog)] == EncAll(prog);
    EncAllAt(code, 0, prog);
    FetcherOk(code, env);
  }

  // Compiled code starts out on the rails.
  lemma StartsOk(bc: seq<byte>, r: Re, flags: byte, env: Env, i: int) returns (body: seq<Instr>)
    requires CodeOf(bc, r, flags) && WellFormed(r) && env == EnvOf(env.input, flags, r)
    ensures |bc| >= RE_HEADER_LEN && ClosedProgram(ProgOf(bc, env), body)
    ensures MaxDepth(body, 0) <= MaxDepth(WholeProgram(r, flags), 0)
    ensures StackOk(ProgOf(bc, env), body, Run(0, Init(env, i), [], []))
  {
    hide Compile;
    hide Flag;
    hide WellFormed;
    hide MaxDepth;
    hide Program;
    hide AtAll;
    hide ClosedProgram;
    hide StackOk;
    hide CodeOf;
    CodeLoaded(bc, r, flags, env);
    body := ProgramClosed(ProgOf(bc, env), r, env.dotall, Sticky(flags));
    MaxDepthPrefix(body, [IMatch], 0);
  }

  // A pattern whose loops are safe on this input is executed to its first success.
  lemma RunOutcome(bc: seq<byte>, r: Re, flags: byte, env: Env, i: int)
    requires CodeOf(bc, r, flags) && WellFormed(r) && env == EnvOf(env.input, flags, r) && env.Valid()
    requires Supported(env, r, false, 1) && 0 <= i <= |env.input|
    ensures Answers(bc, env, i, Outcome(AllEnds(env, r, Sticky(flags), i)))
  {
    hide Compile;
    hide Flag;
    hide WellFormed;
    hide Supported;
    hide Program;
    hide AtAll;
    hide Reaches;
    hide SearchEnds;
    hide TopEnds;
    hide CodeOf;
    CodeLoaded(bc, r, flags, env);
    if Sticky(flags) {
      assert [] + Program(r, env.dotall) == Program(r, env.dotall);
      StickyRun(ProgOf(bc, env), r, i);
    } else {
      SearchRun(ProgOf(bc, env), r, i);
    }
  }

  // The answer and the registers an execution delivers. Without back references they are those of
  // the language and of the groups. If the loops of the pattern are safe, they are what the reference
  // delivers, for every pattern.
  ghost predicate Delivers(env: Env, r: Re, sticky: bool, i: int, ret: bool, cap: seq<int>) {
    && (NoBackRef(r) ==> (ret <==> Accepts(env, r, sticky, i)) && (ret ==> CapturedRight(env, r, sticky, i, cap)))
    && (Supported(env, r, false, 1) ==> Reference(env, r, sticky, i) == if ret then Some(cap) else None)
  }

  // An execution that ends delivers this.
  lemma AnswerDelivers(bc: seq<byte>, r: Re, flags: byte, env: Env, i: int, t: Vm)
    requires CodeOf(bc, r, flags) && WellFormed(r) && env == EnvOf(env.input, flags, r) && env.Valid()
    requires 0 <= i <= |env.input| && Answers(bc, env, i, t)
    ensures Delivers(env, r, Sticky(flags), i, t.Match?, if t.Match? then t.st.cap else [])
  {
    hide Compile;
    hide Dotall;
    hide Multiline;
    hide Sticky;
    hide WellFormed;
    hide Program;
    hide AtAll;
    hide Reaches;
    hide CodeOf;
    hide Accepts;
    hide CapturedRight;
    hide Reference;
    hide Supported;
    hide NoBackRef;
    CodeLoaded(bc, r, flags, env);
    var p := ProgOf(bc, env);
    if NoBackRef(r) {
      AnswerIsRight(p, r, Sticky(flags), i, t);
      if t.Match? {
        AnswerCaptures(p, r, Sticky(flags), i, t);
      }
    }
    if Supported(env, r, false, 1) {
      SafeDelivers(bc, r, flags, env, i, t);
    }
  }

  lemma SafeDelivers(bc: seq<byte>, r: Re, flags: byte, env: Env, i: int, t: Vm)
    requires CodeOf(bc, r, flags) && WellFormed(r) && env == EnvOf(env.input, flags, r) && env.Valid()
    requires 0 <= i <= |env.input| && Answers(bc, env, i, t) && Supported(env, r, false, 1)
    ensures Reference(env, r, Sticky(flags), i) == if t.Match? then Some(t.st.cap) else None
  {
    hide Dotall;
    hide Multiline;
    hide Sticky;
    hide WellFormed;
    hide Reaches;
    hide CodeOf;
    hide Supported;
    hide TopEnds;
    hide SearchEnds;
    hide MatchAt;
    hide MatchFrom;
    var outs := AllEnds(env, r, Sticky(flags), i);
    RunOutcome(bc, r, flags, env, i);
    SameStop(ProgOf(bc, env), Run(0, Init(env, i), [], []), t, Outcome(outs));
    if Sticky(flags) {
      MatchAtIs(env, r, i);
    } else {
      MatchFromIs(env, r, i);
    }
  }

  // Setting up the registers and running the machine.
  method ExecLoaded(capture: array<int>, bc: seq<byte>, env: Env, cindex: int, ghost r: Re, ghost final: Vm)
    returns (ret: bool)
    requires |bc| >= RE_HEADER_LEN && CodeOf(bc, r, bc[0]) && WellFormed(r) && env == EnvOf(env.input, bc[0], r)
    requires env.Valid() && 0 <= cindex <= |env.input| && Answers(bc, env, cindex, final)
    requires capture.Length == 2 * (bc[1] as int)
    modifies capture
    ensures ret == final.Match? && (ret ==> capture[..] == final.st.cap)
  {
    hide EncAll;
    hide Compile;
    hide Dotall;
    hide Multiline;
    hide Sticky;
    hide WellFormed;
    hide MaxDepth;
    hide TotalSize;
    hide GetU32;
    hide WholeProgram;
    hide ClosedProgram;
    hide StackOk;
    hide Reaches;
    ghost var body := StartsOk(bc, r, bc[0], env, cindex);
    var i := 0;
    while i < capture.Length
      invariant 0 <= i <= capture.Length && forall k :: 0 <= k < i ==> capture[k] == NULL
    {
      capture[i] := NULL;
      i := i + 1;
    }
    assert capture[..] == Init(env, cindex).cap;
    var stack := new int[bc[2]];
    var s := new REExecContext(bc[RE_HEADER_LEN..], env, capture, stack);
    s.cptr := cindex;
    assert s.Here() == Run(0, Init(env, cindex), [], []);
    ret := s.Execute(body, final);
  }

  // lre_exec, for executions that end.
  method LreExec(capture: array<int>, bc: seq<byte>, input: seq<int>, cindex: int, ghost r: Re) returns (ret: bool)
    requires |bc| >= RE_HEADER_LEN && CodeOf(bc, r, bc[0]) && WellFormed(r) && EnvOf(input, bc[0], r).Valid()
    requires capture.Length == 2 * (bc[1] as int) && 0 <= cindex <= |input| &&
             Halting(bc, EnvOf(input, bc[0], r), cindex)
    modifies capture
    ensures exists t :: Answers(bc, EnvOf(input, bc[0], r), cindex, t) && ret == t.Match? &&
                        (ret ==> capture[..] == t.st.cap)
    ensures Delivers(EnvOf(input, bc[0], r), r, Sticky(bc[0]), cindex, ret, if ret then capture[..] else [])
    ensures Supported(EnvOf(input, bc[0], r), r, false, 1) ==>
              var outs := AllEnds(EnvOf(input, bc[0], r), r, Sticky(bc[0]), cindex);
              (ret <==> outs != []) && (ret ==> capture[..] == outs[0].cap)
  {
    hide WellFormed;
    hide Supported;
    hide AllEnds;
    hide Delivers;
    hide Answers;
    FlagsAre(bc[0]);
    CodeCaps(bc, r, bc[0]);
    hide CodeOf;
    var env := Env(input, Flag(bc[0], LRE_FLAG_DOTALL), Flag(bc[0], LRE_FLAG_MULTILINE), bc[1] as int, None);
    hide Flag;
    ghost var final :| Answers(bc, env, cindex, final);
    ret := ExecLoaded(capture, bc, env, cindex, r, final);
    AnswerDelivers(bc, r, bc[0], env, cindex, final);
    if Supported(env, r, false, 1) {
      SafeOutcome(bc, r, bc[0], env, cindex, final);
    }
  }

  lemma CodeCaps(bc: seq<byte>, r: Re, flags: byte)
    requires CodeOf(bc, r, flags)
    ensures |bc| >= RE_HEADER_LEN && bc[1] as int == 1 + Caps(r)
  {
  }

  lemma SafeOutcome(bc: seq<byte>, r: Re, flags: byte, env: Env, i: int, t: Vm)
    requires CodeOf(bc, r, flags) && WellFormed(r) && env == EnvOf(env.input, flags, r) && env.Valid()
    requires 0 <= i <= |env.input| && Answers(bc, env, i, t) && Supported(env, r, false, 1)
    ensures t == Outcome(AllEnds(env, r, Sticky(flags), i))
  {
    hide WellFormed;
    hide Reaches;
    hide CodeOf;
    hide Supported;
    hide AllEnds;
    RunOutcome(bc, r, flags, env, i);
    SameStop(ProgOf(bc, env), Run(0, Init(env, i), [], []), t, Outcome(AllEnds(env, r, Sticky(flags), i)));
  }

  // The code of the pattern, wherever it comes from, ends on this input.
  ghost predicate AlwaysHalts(r: Re, flags: byte, input: seq<int>, i: int) {
    forall bc :: CodeOf(bc, r, flags) ==> Halting(bc, EnvOf(input, flags, r), i)
  }

  // So it does if the loops are safe.
  lemma SupportedHalts(r: Re, flags: byte, input: seq<int>, i: int)
    requires WellFormed(r) && EnvOf(input, flags, r).Valid() && Supported(EnvOf(input, flags, r), r, false, 1)
    requires 0 <= i <= |input|
    ensures AlwaysHalts(r, flags, input, i)
  {
    hide CodeOf;
    hide WellFormed;
    hide Supported;
    hide Dotall;
    hide Multiline;
    hide Sticky;
    hide AllEnds;
    hide Answers;
    forall bc | CodeOf(bc, r, flags) ensures Halting(bc, EnvOf(input, flags, r), i) {
      RunOutcome(bc, r, flags, EnvOf(input, flags, r), i);
    }
  }

  // The code of an atom ends on every input.
  lemma AtomHalts(r: Re, flags: byte, input: seq<int>, i: int)
    requires Atom(r) && WellFormed(r) && EnvOf(input, flags, r).Valid() && 0 <= i <= |input|
    ensures AlwaysHalts(r, flags, input, i)
  {
    TreeSafeSupported(EnvOf(input, flags, r), r, false, 1);
    hide AlwaysHalts;
    SupportedHalts(r, flags, input, i);
  }

  lemma AtomDelivers(env: Env, r: Re, flags: byte, i: int, ret: bool, cap: seq<int>)
    requires Atom(r) && WellFormed(r) && env == EnvOf(env.input, flags, r) && 0 <= i <= |env.input|
    requires Delivers(env, r, Sticky(flags), i, ret, cap)
    ensures ret <==> AtomFound(r, flags, env.input, i)
  {
    hide Accepts;
    hide Supported;
    hide Reference;
    hide AtomFound;
    AtomAccepts(env, r, flags, i);
  }

  // Compile, run, and get the answer and the registers; or learn that the pattern is too big.
  method Match(r: Re, flags: byte, input: seq<int>, cindex: int) returns (ok: bool, ret: bool, groups: seq<int>)
    requires Parsed(r) && Fits(r, Dotall(flags), false, 1)
    requires TotalSize(WholeProgram(r, flags)) < TWO32
    requires EnvOf(input, flags, r).Valid() && 0 <= cindex <= |input| && AlwaysHalts(r, flags, input, cindex)
    ensures ok <==> WellFormed(r) && 1 + Caps(r) <= 255 &&
                    MaxDepth(WholeProgram(r, flags), 0) <= 255
    ensures ok ==> Delivers(EnvOf(input, flags, r), r, Sticky(flags), cindex, ret, groups)
    ensures ok && Atom(r) ==> (ret <==> AtomFound(r, flags, input, cindex))
  {
    hide Atom;
    hide AtomFound;
    hide Flag;
    hide Dotall;
    hide Multiline;
    hide Sticky;
    hide Delivers;
    hide AllEnds;
    hide Supported;
    hide WellFormed;
    hide Parsed;
    hide Fits;
    hide MaxDepth;
    hide WholeProgram;
    hide TotalSize;
    hide Answers;
    hide Halting;
    var bc;
    ret := false;
    groups := [];
    ok, bc := LreCompile(r, flags);
    if ok {
      var capture := new int[2 * (bc[1] as int)];
      ret := LreExec(capture, bc, input, cindex, r);
      if ret {
        groups := capture[..];
      }
      if Atom(r) {
        AtomDelivers(EnvOf(input, flags, r), r, flags, cindex, ret, groups);
      }
    }
  }
}
