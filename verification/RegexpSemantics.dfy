// What a pattern matches: the ordered list of successes that a backtracking search must deliver,
// and, independently, the language of the pattern as a relation on input positions.

module RegexpSemantics {
  import opened Basics
  import opened CharRanges
  import opened RegexpCode
  import opened RegexpCompile

  // The subject string, one code unit per character, and the flags consulted while matching. With
  // rounds, unbounded lazy loops are cut off after that many rounds more than there are characters:
  // an approximation, for describing executions that end. There is none in a real execution.
  datatype Env = Env(input: seq<int>, dotall: bool, multiline: bool, capCount: nat, rounds: Option<nat>) {
    ghost predicate Valid() {
      forall k :: 0 <= k < |input| ==> 0 <= input[k] < UINT32_MAX
    }
  }

  const NULL: int := -1

  // A search position with the capture registers (start and end of each group, or NULL).
  datatype St = St(pos: int, cap: seq<int>)

  ghost predicate ValidSt(env: Env, st: St) {
    && 0 <= st.pos <= |env.input|
    && |st.cap| == 2 * env.capCount
    && forall k :: 0 <= k < |st.cap| ==> NULL <= st.cap[k] <= |env.input|
  }

  // ----- Single characters and assertions -----

  // LineTerminator in section 11.3 of ECMA-262.
  predicate LineBreak(c: int) {
    c in {0x0A, 0x0D, 0x2028, 0x2029}
  }

  // The characters of \w: digits, capital letters, the low line, small letters.
  predicate WordUnit(c: int) {
    0x30 <= c < 0x3A || 0x41 <= c < 0x5B || c == 0x5F || 0x61 <= c < 0x7B
  }

  predicate AtLineStart(env: Env, pos: int)
    requires 0 <= pos <= |env.input|
  {
    pos == 0 || (env.multiline && LineBreak(env.input[pos - 1]))
  }

  predicate AtLineEnd(env: Env, pos: int)
    requires 0 <= pos <= |env.input|
  {
    pos == |env.input| || (env.multiline && LineBreak(env.input[pos]))
  }

  // Exactly one of the neighbours is a word character.
  predicate AtWordBoundary(env: Env, pos: int)
    requires 0 <= pos <= |env.input|
  {
    (pos > 0 && WordUnit(env.input[pos - 1])) != (pos < |env.input| && WordUnit(env.input[pos]))
  }

  // ----- Lists of successes -----

  function FlatMap(xs: seq<St>, g: St -> seq<St>): seq<St> {
    if xs == [] then [] else g(xs[0]) + FlatMap(xs[1..], g)
  }

  ghost predicate CharAccepts(env: Env, r: Re, c: int) {
    match r
    case Chr(v) => v == c
    case Dot => env.dotall || !LineBreak(c)
    case Class(points) => In(points, c)
    case _ => false
  }

  ghost function CharEnds(env: Env, r: Re, back: bool, st: St): seq<St> {
    if back then
      if 0 < st.pos <= |env.input| && CharAccepts(env, r, env.input[st.pos - 1]) then [st.(pos := st.pos - 1)] else []
    else
      if 0 <= st.pos < |env.input| && CharAccepts(env, r, env.input[st.pos]) then [st.(pos := st.pos + 1)] else []
  }

  function SetCap(st: St, k: int): St {
    if 0 <= k < |st.cap| then st.(cap := st.cap[k := st.pos]) else st
  }

  // Groups lo..hi-1 forget what they captured.
  function ResetCaps(st: St, lo: int, hi: int): St {
    st.(cap := seq(|st.cap|, k requires 0 <= k < |st.cap| => if 2 * lo <= k < 2 * hi then NULL else st.cap[k]))
  }

  // Text captured by group n; empty when it has not taken part.
  function RefEnds(env: Env, n: int, back: bool, st: St): seq<St> {
    if n < 0 || n >= env.capCount || |st.cap| != 2 * env.capCount then []
    else
      var lo, hi := st.cap[2 * n], st.cap[2 * n + 1];
      if lo == NULL || hi == NULL then [st]
      else
        var t := if 0 <= lo <= hi <= |env.input| then env.input[lo..hi] else [];
        if back then
          if 0 <= st.pos - |t| && st.pos <= |env.input| && env.input[st.pos - |t|..st.pos] == t
          then [st.(pos := st.pos - |t|)] else []
        else
          if 0 <= st.pos && st.pos + |t| <= |env.input| && env.input[st.pos..st.pos + |t|] == t
          then [st.(pos := st.pos + |t|)] else []
  }

  function Ordered(greedy: bool, more: seq<St>, stop: seq<St>): seq<St> {
    if greedy then more + stop else stop + more
  }

  // Characters left in the direction of matching.
  function Dist(env: Env, back: bool, st: St): int {
    if back then st.pos else |env.input| - st.pos
  }

  // Exactly n rounds of f.
  function Exact(f: St -> seq<St>, n: nat, st: St): seq<St>
    decreases n, 0
  {
    if n == 0 then [st] else FlatMap(f(st), ExactFn(f, n - 1))
  }

  function ExactFn(f: St -> seq<St>, n: nat): St -> seq<St>
    decreases n, 1
  {
    x => Exact(f, n, x)
  }

  // At most n rounds.
  function UpTo(f: St -> seq<St>, n: nat, greedy: bool, st: St): seq<St>
    decreases n, 0
  {
    if n == 0 then [st]
    else Ordered(greedy, FlatMap(f(st), UpToFn(f, n - 1, greedy)), [st])
  }

  function UpToFn(f: St -> seq<St>, n: nat, greedy: bool): St -> seq<St>
    decreases n, 1
  {
    x => UpTo(f, n, greedy, x)
  }

  // Any number of rounds; a round that consumes nothing is the last one.
  function Star(f: St -> seq<St>, fuel: nat, greedy: bool, st: St): seq<St>
    decreases fuel, 0
  {
    if fuel == 0 then []
    else Ordered(greedy, FlatMap(f(st), StarFn(f, fuel - 1, greedy, st.pos)), [st])
  }

  // After a round that started at pos.
  function StarFn(f: St -> seq<St>, fuel: nat, greedy: bool, pos: int): St -> seq<St>
    decreases fuel, 1
  {
    (x: St) => if x.pos == pos then [x] else Star(f, fuel, greedy, x)
  }

  // The optional rounds after the mandatory ones.
  function Rest(env: Env, f: St -> seq<St>, back: bool, min: int, max: int, greedy: bool, st: St): seq<St> {
    if max == 0x7FFF_FFFF then
      if !greedy && env.rounds.Some? then UpTo(f, |env.input| + env.rounds.value, false, st)
      else if Dist(env, back, st) < 0 then []
      else Star(f, Dist(env, back, st) + 1, greedy, st)
    else if max < min then []
    else UpTo(f, max - min, greedy, st)
  }

  function RestFn(env: Env, f: St -> seq<St>, back: bool, min: int, max: int, greedy: bool): St -> seq<St> {
    x => Rest(env, f, back, min, max, greedy, x)
  }

  function SetCapFn(k: int): St -> seq<St> {
    x => [SetCap(x, k)]
  }

  // All ways to match r from st, best first.
  ghost function Ends(env: Env, r: Re, back: bool, cc: nat, st: St): seq<St>
    decreases r, 1
  {
    match r
    case LineStart => if 0 <= st.pos <= |env.input| && AtLineStart(env, st.pos) then [st] else []
    case LineEnd => if 0 <= st.pos <= |env.input| && AtLineEnd(env, st.pos) then [st] else []
    case WordBoundary(neg) => if 0 <= st.pos <= |env.input| && AtWordBoundary(env, st.pos) != neg then [st] else []
    case BackRef(n) => RefEnds(env, n, back, st)
    case Group(b) => Ends(env, b, back, cc, st)
    case Capture(b) =>
      FlatMap(Ends(env, b, back, cc + 1, SetCap(st, 2 * cc + BoolBit(back))),
              SetCapFn(2 * cc + BoolBit(!back)))
    case Look(neg, behind, b) =>
      var inner := Ends(env, b, behind, cc, st);
      if neg then (if inner == [] then [st] else [])
      else (if inner == [] then [] else [st.(cap := inner[0].cap)])
    case Quant(b, min, max, greedy) =>
      var f := EndsFn(env, b, back, cc);
      var start := if min == 0 && Caps(b) > 0 then ResetCaps(st, cc, cc + Caps(b)) else st;
      FlatMap(Exact(f, if min < 0 then 0 else min, start), RestFn(env, f, back, min, max, greedy))
    case Cat(ts) => EndsCat(env, ts, back, cc, st)
    case Disj(ts) => EndsDisj(env, ts, back, cc, st)
    case _ => CharEnds(env, r, back, st)
  }

  ghost function EndsFn(env: Env, r: Re, back: bool, cc: nat): St -> seq<St>
    decreases r, 2
  {
    x => Ends(env, r, back, cc, x)
  }

  ghost function EndsCat(env: Env, ts: seq<Re>, back: bool, cc: nat, st: St): seq<St>
    decreases ts, 0, 0
  {
    if ts == [] then [st]
    else
      var n := |ts| - 1;
      var last := EndsFn(env, ts[n], back, cc + CapsAll(ts[..n]));
      var init := EndsCatFn(env, ts[..n], back, cc);
      if back then FlatMap(last(st), init) else FlatMap(init(st), last)
  }

  ghost function EndsCatFn(env: Env, ts: seq<Re>, back: bool, cc: nat): St -> seq<St>
    decreases ts, 0, 1
  {
    x => EndsCat(env, ts, back, cc, x)
  }

  ghost function EndsDisj(env: Env, ts: seq<Re>, back: bool, cc: nat, st: St): seq<St>
    decreases ts, 0
  {
    if ts == [] then []
    else
      var n := |ts| - 1;
      EndsDisj(env, ts[..n], back, cc, st) + Ends(env, ts[n], back, cc + CapsAll(ts[..n]), st)
  }

  // ----- The language -----

  // r matches the part of the input between positions i and j.
  ghost predicate Lang(env: Env, r: Re, i: int, j: int)
    decreases r, 1
  {
    match r
    case LineStart => i == j && 0 <= i <= |env.input| && AtLineStart(env, i)
    case LineEnd => i == j && 0 <= i <= |env.input| && AtLineEnd(env, i)
    case WordBoundary(neg) => i == j && 0 <= i <= |env.input| && AtWordBoundary(env, i) != neg
    case BackRef(_) => false
    case Group(b) => Lang(env, b, i, j)
    case Capture(b) => Lang(env, b, i, j)
    case Look(neg, behind, b) =>
      i == j && 0 <= i <= |env.input|
      && (exists k :: 0 <= k <= |env.input| && if behind then Lang(env, b, k, i) else Lang(env, b, i, k)) != neg
    case Quant(b, min, max, _) =>
      exists n: nat :: min <= n && (max == 0x7FFF_FFFF || n <= max) && Iter(env, b, n, i, j)
    case Cat(ts) => LangCat(env, ts, i, j)
    case Disj(ts) => exists k :: 0 <= k < |ts| && Lang(env, ts[k], i, j)
    case _ => 0 <= i < |env.input| && j == i + 1 && CharAccepts(env, r, env.input[i])
  }

  // n consecutive matches of r.
  ghost predicate Iter(env: Env, r: Re, n: nat, i: int, j: int)
    decreases r, 2, n
  {
    if n == 0 then i == j && 0 <= i <= |env.input|
    else exists k :: Lang(env, r, i, k) && Iter(env, r, n - 1, k, j)
  }

  ghost predicate LangCat(env: Env, ts: seq<Re>, i: int, j: int)
    decreases ts, 0, 1
  {
    if ts == [] then i == j && 0 <= i <= |env.input|
    else exists k :: LangCatAt(env, ts, i, k, j)
  }

  ghost predicate LangCatAt(env: Env, ts: seq<Re>, i: int, k: int, j: int)
    requires ts != []
    decreases ts, 0, 0
  {
    LangCat(env, ts[..|ts| - 1], i, k) && Lang(env, ts[|ts| - 1], k, j)
  }
}
