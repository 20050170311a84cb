// A reference for what a pattern matches, in the style of section 21.2.2 of ECMA-262: a matcher takes
// a position, the captures so far and a continuation, and delivers what the continuation delivers for
// the first way to match that it accepts. It covers every construct, and the order of preference.
// Where the code departs from the standard (an empty round ends a loop, captures are cleared once in
// front of an optional loop), the reference follows the code.

module RegexpReference {
  import opened Basics
  import opened CharRanges
  import opened RegexpCode
  import opened RegexpCompile
  import opened RegexpSemantics
  import opened RegexpVM
  import opened RegexpBlocks
  import opened RegexpCorrect
  import opened RegexpTheorem
  import opened RegexpRun

  // ----- The matcher -----

  // What is to be matched next: the final registers, or failure.
  type Cont = (int, seq<int>) -> Option<seq<int>>

  ghost function DoneFn(): Cont {
    (j: int, c: seq<int>) => Some(c)
  }

  function Put(cap: seq<int>, k: int, v: int): seq<int> {
    if 0 <= k < |cap| then cap[k := v] else cap
  }

  // Groups cc to cc + n - 1 have not taken part.
  function Clear(cap: seq<int>, cc: nat, n: nat): seq<int> {
    seq(|cap|, k requires 0 <= k < |cap| => if 2 * cc <= k < 2 * (cc + n) then -1 else cap[k])
  }

  ghost predicate Consumes(env: Env, r: Re, c: int) {
    match r
    case Chr(v) => c == v
    case Dot => env.dotall || c !in {0x0A, 0x0D, 0x2028, 0x2029}
    case Class(points) => In(points, c)
    case _ => false
  }

  predicate WordCharAt(input: seq<int>, k: int) {
    0 <= k < |input| && (0x30 <= input[k] <= 0x39 || 0x41 <= input[k] <= 0x5A || input[k] == 0x5F
                         || 0x61 <= input[k] <= 0x7A)
  }

  predicate BreakCharAt(input: seq<int>, k: int) {
    0 <= k < |input| && input[k] in {0x0A, 0x0D, 0x2028, 0x2029}
  }

  // An assertion holds between the characters i - 1 and i.
  ghost predicate Holds(env: Env, r: Re, i: int) {
    match r
    case LineStart => i == 0 || (env.multiline && BreakCharAt(env.input, i - 1))
    case LineEnd => i == |env.input| || (env.multiline && BreakCharAt(env.input, i))
    case WordBoundary(neg) => (WordCharAt(env.input, i - 1) != WordCharAt(env.input, i)) != neg
    case _ => false
  }

  // The text of a group that has taken part.
  function GroupText(input: seq<int>, lo: int, hi: int): seq<int> {
    if 0 <= lo <= hi <= |input| then input[lo..hi] else []
  }

  ghost function Attempt(env: Env, r: Re, back: bool, cc: nat, i: int, cap: seq<int>, k: Cont): Option<seq<int>>
    decreases r, 1
  {
    match r
    case Group(b) => Attempt(env, b, back, cc, i, cap, k)
    case Capture(b) =>
      if back then Attempt(env, b, back, cc + 1, i, Put(cap, 2 * cc + 1, i), CloseFn(k, 2 * cc))
      else Attempt(env, b, back, cc + 1, i, Put(cap, 2 * cc, i), CloseFn(k, 2 * cc + 1))
    case Look(neg, behind, b) =>
      var inner := Attempt(env, b, behind, cc, i, cap, DoneFn());
      if neg then (if inner.None? then k(i, cap) else None)
      else if inner.None? then None
      else k(i, inner.value)
    case Quant(b, min, max, greedy) =>
      Rounds(env, b, back, cc, if min < 0 then 0 else min, i, if min == 0 then Clear(cap, cc, Caps(b)) else cap,
             OptionalFn(env, b, back, cc, min, max, greedy, k))
    case Cat(ts) => Sequence(env, ts, back, cc, i, cap, k)
    case Disj(ts) => Alternatives(env, ts, back, cc, i, cap, k)
    case BackRef(n) =>
      if n < 0 || 2 * n + 1 >= |cap| then None
      else if cap[2 * n] == -1 || cap[2 * n + 1] == -1 then k(i, cap)
      else
        var t := GroupText(env.input, cap[2 * n], cap[2 * n + 1]);
        var lo, hi := if back then i - |t| else i, if back then i else i + |t|;
        if 0 <= lo && hi <= |env.input| && env.input[lo..hi] == t then k(if back then lo else hi, cap) else None
    case Chr(_) => ReadOne(env, r, back, i, cap, k)
    case Dot => ReadOne(env, r, back, i, cap, k)
    case Class(_) => ReadOne(env, r, back, i, cap, k)
    case _ => if 0 <= i <= |env.input| && Holds(env, r, i) then k(i, cap) else None
  }

  ghost function ReadOne(env: Env, r: Re, back: bool, i: int, cap: seq<int>, k: Cont): Option<seq<int>> {
    var at := if back then i - 1 else i;
    if 0 <= at < |env.input| && Consumes(env, r, env.input[at]) then k(if back then i - 1 else i + 1, cap) else None
  }

  ghost function CloseFn(k: Cont, index: int): Cont {
    (j: int, c: seq<int>) => k(j, Put(c, index, j))
  }

  // n rounds.
  ghost function Rounds(env: Env, b: Re, back: bool, cc: nat, n: nat, i: int, cap: seq<int>, k: Cont): Option<seq<int>>
    decreases b, 2, n, 0
  {
    if n == 0 then k(i, cap) else Attempt(env, b, back, cc, i, cap, RoundsFn(env, b, back, cc, n - 1, k))
  }

  ghost function RoundsFn(env: Env, b: Re, back: bool, cc: nat, n: nat, k: Cont): Cont
    decreases b, 2, n, 1
  {
    (j: int, c: seq<int>) => Rounds(env, b, back, cc, n, j, c, k)
  }

  // The first of two ways that delivers something.
  function Either(a: Option<seq<int>>, b: Option<seq<int>>): Option<seq<int>> {
    if a.Some? then a else b
  }

  // At most n rounds more.
  ghost function UpToRounds(env: Env, b: Re, back: bool, cc: nat, n: nat, greedy: bool, i: int, cap: seq<int>, k: Cont):
    Option<seq<int>>
    decreases b, 2, n, 0
  {
    if n == 0 then k(i, cap)
    else
      var more := Attempt(env, b, back, cc, i, cap, UpToRoundsFn(env, b, back, cc, n - 1, greedy, k));
      if greedy then Either(more, k(i, cap)) else Either(k(i, cap), more)
  }

  ghost function UpToRoundsFn(env: Env, b: Re, back: bool, cc: nat, n: nat, greedy: bool, k: Cont): Cont
    decreases b, 2, n, 1
  {
    (j: int, c: seq<int>) => UpToRounds(env, b, back, cc, n, greedy, j, c, k)
  }

  // Any number of rounds; one that consumes nothing is the last. There are fewer than n left that
  // consume something.
  ghost function AllRounds(env: Env, b: Re, back: bool, cc: nat, n: nat, greedy: bool, i: int, cap: seq<int>, k: Cont):
    Option<seq<int>>
    decreases b, 2, n, 0
  {
    if n == 0 then None
    else
      var more := Attempt(env, b, back, cc, i, cap, AgainFn(env, b, back, cc, n - 1, greedy, i, k));
      if greedy then Either(more, k(i, cap)) else Either(k(i, cap), more)
  }

  // After a round that started at i.
  ghost function AgainFn(env: Env, b: Re, back: bool, cc: nat, n: nat, greedy: bool, i: int, k: Cont): Cont
    decreases b, 2, n, 1
  {
    (j: int, c: seq<int>) => if j == i then k(j, c) else AllRounds(env, b, back, cc, n, greedy, j, c, k)
  }

  // The rounds after the first min.
  ghost function Optional(env: Env, b: Re, back: bool, cc: nat, min: int, max: int, greedy: bool, i: int,
                          cap: seq<int>, k: Cont): Option<seq<int>>
    decreases b, 3
  {
    if max == 0x7FFF_FFFF then
      var left := if back then i else |env.input| - i;
      if left < 0 then None else AllRounds(env, b, back, cc, left + 1, greedy, i, cap, k)
    else if max < min then None
    else UpToRounds(env, b, back, cc, max - min, greedy, i, cap, k)
  }

  ghost function OptionalFn(env: Env, b: Re, back: bool, cc: nat, min: int, max: int, greedy: bool, k: Cont): Cont
    decreases b, 4
  {
    (j: int, c: seq<int>) => Optional(env, b, back, cc, min, max, greedy, j, c, k)
  }

  // Forward the terms are matched from left to right, backward from right to left.
  ghost function Sequence(env: Env, ts: seq<Re>, back: bool, cc: nat, i: int, cap: seq<int>, k: Cont): Option<seq<int>>
    decreases ts, 0, 0, 0
  {
    if ts == [] then k(i, cap)
    else
      var n := |ts| - 1;
      if back then
        Attempt(env, ts[n], back, cc + CapsAll(ts[..n]), i, cap, SequenceFn(env, ts[..n], back, cc, k))
      else
        Sequence(env, ts[..n], back, cc, i, cap, TermFn(env, ts[n], back, cc + CapsAll(ts[..n]), k))
  }

  ghost function SequenceFn(env: Env, ts: seq<Re>, back: bool, cc: nat, k: Cont): Cont
    decreases ts, 0, 0, 1
  {
    (j: int, c: seq<int>) => Sequence(env, ts, back, cc, j, c, k)
  }

  ghost function TermFn(env: Env, r: Re, back: bool, cc: nat, k: Cont): Cont
    decreases r, 2
  {
    (j: int, c: seq<int>) => Attempt(env, r, back, cc, j, c, k)
  }

  ghost function Alternatives(env: Env, ts: seq<Re>, back: bool, cc: nat, i: int, cap: seq<int>, k: Cont):
    Option<seq<int>>
    decreases ts, 0
  {
    if ts == [] then None
    else
      var n := |ts| - 1;
      Either(Alternatives(env, ts[..n], back, cc, i, cap, k),
             Attempt(env, ts[n], back, cc + CapsAll(ts[..n]), i, cap, k))
  }

  // ----- First successes -----

  // What k delivers for the first success it accepts.
  ghost function First(xs: seq<St>, k: Cont): Option<seq<int>> {
    if xs == [] then None else Either(k(xs[0].pos, xs[0].cap), First(xs[1..], k))
  }

  lemma {:induction false} FirstAppend(xs: seq<St>, ys: seq<St>, k: Cont)
    ensures First(xs + ys, k) == Either(First(xs, k), First(ys, k))
    decreases |xs|
  {
    if xs == [] {
      assert xs + ys == ys;
    } else {
      FirstAppend(xs[1..], ys, k);
      assert (xs + ys)[1..] == xs[1..] + ys;
    }
  }

  lemma FirstOne(x: St, k: Cont)
    ensures First([x], k) == k(x.pos, x.cap)
  {
    assert [x][1..] == [];
  }

  lemma {:induction false} FirstFlatMap(xs: seq<St>, g: St -> seq<St>, k: Cont, l: Cont)
    requires forall x :: x in xs ==> l(x.pos, x.cap) == First(g(x), k)
    ensures First(FlatMap(xs, g), k) == First(xs, l)
    decreases |xs|
  {
    if xs != [] {
      assert xs[0] in xs;
      FirstFlatMap(xs[1..], g, k, l);
      FirstAppend(g(xs[0]), FlatMap(xs[1..], g), k);
    }
  }

  // ----- The matcher finds the first success -----

  lemma {:induction false} AttemptIs(env: Env, r: Re, back: bool, cc: nat, st: St, k: Cont)
    requires ValidSt(env, st) && env.rounds.None?
    ensures Attempt(env, r, back, cc, st.pos, st.cap, k) == First(Ends(env, r, back, cc, st), k)
    decreases r, 1
  {
    match r
    case Group(b) => AttemptIs(env, b, back, cc, st, k);
    case Capture(b) => AttemptCapture(env, b, back, cc, st, k);
    case Look(neg, behind, b) => AttemptLook(env, r, back, cc, st, k);
    case Quant(b, min, max, greedy) => AttemptQuant(env, b, min, max, greedy, back, cc, st, k);
    case Cat(ts) => SequenceIs(env, ts, back, cc, st, k);
    case Disj(ts) => AlternativesIs(env, ts, back, cc, st, k);
    case _ => AttemptLeaf(env, r, back, cc, st, k);
  }

  lemma AttemptLeaf(env: Env, r: Re, back: bool, cc: nat, st: St, k: Cont)
    requires r.Chr? || r.Dot? || r.Class? || r.LineStart? || r.LineEnd? || r.WordBoundary? || r.BackRef?
    requires ValidSt(env, st)
    ensures Attempt(env, r, back, cc, st.pos, st.cap, k) == First(Ends(env, r, back, cc, st), k)
  {
    if r.BackRef? {
      AttemptBackRef(env, r.n, back, cc, st, k);
    } else {
      var xs := Ends(env, r, back, cc, st);
      if xs != [] {
        assert xs == [xs[0]];
        FirstOne(xs[0], k);
      }
    }
  }

  lemma AttemptBackRef(env: Env, n: int, back: bool, cc: nat, st: St, k: Cont)
    requires ValidSt(env, st)
    ensures Attempt(env, BackRef(n), back, cc, st.pos, st.cap, k) == First(Ends(env, BackRef(n), back, cc, st), k)
  {
    var xs := RefEnds(env, n, back, st);
    assert Ends(env, BackRef(n), back, cc, st) == xs;
    if xs != [] {
      assert xs == [xs[0]];
      FirstOne(xs[0], k);
    }
    hide First;
  }

  lemma {:induction false} AttemptCapture(env: Env, b: Re, back: bool, cc: nat, st: St, k: Cont)
    requires ValidSt(env, st) && env.rounds.None?
    ensures Attempt(env, Capture(b), back, cc, st.pos, st.cap, k) == First(Ends(env, Capture(b), back, cc, st), k)
    decreases b, 2
  {
    var open, close := if back then 2 * cc + 1 else 2 * cc, if back then 2 * cc else 2 * cc + 1;
    var st1, g, l := SetCap(st, open), SetCapFn(close), CloseFn(k, close);
    CaptureUnfold(env, b, back, cc, st, k, open, close);
    hide Ends;
    hide Attempt;
    var xs := Ends(env, b, back, cc + 1, st1);
    hide First;
    hide FlatMap;
    AttemptIs(env, b, back, cc + 1, st1, l);
    forall x | x in xs ensures l(x.pos, x.cap) == First(g(x), k) {
      CloseIs(x, close, k);
    }
    FirstFlatMap(xs, g, k, l);
  }

  lemma CaptureUnfold(env: Env, b: Re, back: bool, cc: nat, st: St, k: Cont, open: int, close: int)
    requires open == (if back then 2 * cc + 1 else 2 * cc) && close == (if back then 2 * cc else 2 * cc + 1)
    ensures Ends(env, Capture(b), back, cc, st)
         == FlatMap(Ends(env, b, back, cc + 1, SetCap(st, open)), SetCapFn(close))
    ensures Attempt(env, Capture(b), back, cc, st.pos, st.cap, k)
         == Attempt(env, b, back, cc + 1, st.pos, SetCap(st, open).cap, CloseFn(k, close))
    ensures SetCap(st, open).pos == st.pos
  {
    hide FlatMap;
    assert SetCap(st, open).cap == Put(st.cap, open, st.pos);
  }

  lemma CloseIs(x: St, close: int, k: Cont)
    ensures CloseFn(k, close)(x.pos, x.cap) == First(SetCapFn(close)(x), k)
  {
    assert SetCapFn(close)(x) == [SetCap(x, close)];
    assert SetCap(x, close).cap == Put(x.cap, close, x.pos) && SetCap(x, close).pos == x.pos;
    FirstOne(SetCap(x, close), k);
  }

  lemma {:induction false} AttemptLook(env: Env, r: Re, back: bool, cc: nat, st: St, k: Cont)
    requires r.Look? && ValidSt(env, st) && env.rounds.None?
    ensures Attempt(env, r, back, cc, st.pos, st.cap, k) == First(Ends(env, r, back, cc, st), k)
    decreases r, 0
  {
    var xs, out := Ends(env, r.body, r.behind, cc, st), Ends(env, r, back, cc, st);
    AttemptIs(env, r.body, r.behind, cc, st, DoneFn());
    if out != [] {
      assert out == [out[0]];
      FirstOne(out[0], k);
    }
  }

  lemma {:induction false} RoundsIs(env: Env, b: Re, back: bool, cc: nat, n: nat, st: St, k: Cont)
    requires ValidSt(env, st) && env.rounds.None?
    ensures Rounds(env, b, back, cc, n, st.pos, st.cap, k) == First(Exact(EndsFn(env, b, back, cc), n, st), k)
    decreases b, 2, n
  {
    hide Attempt;
    hide Ends;
    hide FlatMap;
    var f := EndsFn(env, b, back, cc);
    if n == 0 {
      FirstOne(st, k);
    } else {
      hide First;
      var g, l := ExactFn(f, n - 1), RoundsFn(env, b, back, cc, n - 1, k);
      AttemptIs(env, b, back, cc, st, l);
      forall x | x in f(st) ensures l(x.pos, x.cap) == First(g(x), k) {
        EndsMove(env, b, back, cc, st, x);
        RoundsIs(env, b, back, cc, n - 1, x, k);
      }
      FirstFlatMap(f(st), g, k, l);
    }
  }

  lemma FirstOrdered(greedy: bool, more: seq<St>, st: St, k: Cont)
    ensures First(Ordered(greedy, more, [st]), k)
         == if greedy then Either(First(more, k), k(st.pos, st.cap)) else Either(k(st.pos, st.cap), First(more, k))
  {
    FirstOne(st, k);
    FirstAppend(more, [st], k);
    FirstAppend([st], more, k);
  }

  lemma {:induction false} UpToIs(env: Env, b: Re, back: bool, cc: nat, n: nat, greedy: bool, st: St, k: Cont)
    requires ValidSt(env, st) && env.rounds.None?
    ensures UpToRounds(env, b, back, cc, n, greedy, st.pos, st.cap, k)
         == First(UpTo(EndsFn(env, b, back, cc), n, greedy, st), k)
    decreases b, 2, n
  {
    hide Attempt;
    hide Ends;
    hide FlatMap;
    var f := EndsFn(env, b, back, cc);
    if n == 0 {
      FirstOne(st, k);
    } else {
      hide First;
      var g, l := UpToFn(f, n - 1, greedy), UpToRoundsFn(env, b, back, cc, n - 1, greedy, k);
      AttemptIs(env, b, back, cc, st, l);
      forall x | x in f(st) ensures l(x.pos, x.cap) == First(g(x), k) {
        EndsMove(env, b, back, cc, st, x);
        UpToIs(env, b, back, cc, n - 1, greedy, x, k);
      }
      FirstFlatMap(f(st), g, k, l);
      FirstOrdered(greedy, FlatMap(f(st), g), st, k);
    }
  }

  lemma {:induction false} AllRoundsIs(env: Env, b: Re, back: bool, cc: nat, n: nat, greedy: bool, st: St, k: Cont)
    requires ValidSt(env, st) && env.rounds.None?
    ensures AllRounds(env, b, back, cc, n, greedy, st.pos, st.cap, k)
         == First(Star(EndsFn(env, b, back, cc), n, greedy, st), k)
    decreases b, 2, n
  {
    hide Attempt;
    hide Ends;
    hide FlatMap;
    var f := EndsFn(env, b, back, cc);
    if n > 0 {
      hide First;
      var g, l := StarFn(f, n - 1, greedy, st.pos), AgainFn(env, b, back, cc, n - 1, greedy, st.pos, k);
      AttemptIs(env, b, back, cc, st, l);
      forall x | x in f(st) ensures l(x.pos, x.cap) == First(g(x), k) {
        EndsMove(env, b, back, cc, st, x);
        if x.pos == st.pos {
          FirstOne(x, k);
        } else {
          AllRoundsIs(env, b, back, cc, n - 1, greedy, x, k);
        }
        hide AllRounds;
        hide Star;
      }
      FirstFlatMap(f(st), g, k, l);
      FirstOrdered(greedy, FlatMap(f(st), g), st, k);
    }
  }

  lemma {:induction false} OptionalIs(env: Env, b: Re, back: bool, cc: nat, min: int, max: int, greedy: bool, st: St,
                                      k: Cont)
    requires ValidSt(env, st) && env.rounds.None?
    ensures Optional(env, b, back, cc, min, max, greedy, st.pos, st.cap, k)
         == First(Rest(env, EndsFn(env, b, back, cc), back, min, max, greedy, st), k)
    decreases b, 3
  {
    hide Ends;
    hide AllRounds;
    hide UpToRounds;
    hide Star;
    hide UpTo;
    if max == 0x7FFF_FFFF {
      AllRoundsIs(env, b, back, cc, Dist(env, back, st) + 1, greedy, st, k);
    } else if max >= min {
      UpToIs(env, b, back, cc, max - min, greedy, st, k);
    }
  }

  lemma {:induction false} AttemptQuant(env: Env, b: Re, min: int, max: int, greedy: bool, back: bool, cc: nat, st: St,
                                        k: Cont)
    requires ValidSt(env, st) && env.rounds.None?
    ensures Attempt(env, Quant(b, min, max, greedy), back, cc, st.pos, st.cap, k)
         == First(Ends(env, Quant(b, min, max, greedy), back, cc, st), k)
    decreases b, 4
  {
    var f, n := EndsFn(env, b, back, cc), if min < 0 then 0 else min;
    var g, l := RestFn(env, f, back, min, max, greedy), OptionalFn(env, b, back, cc, min, max, greedy, k);
    var start := QuantStart(b, min, cc, st);
    assert Ends(env, Quant(b, min, max, greedy), back, cc, st) == FlatMap(Exact(f, n, start), g);
    assert Attempt(env, Quant(b, min, max, greedy), back, cc, st.pos, st.cap, k)
        == Rounds(env, b, back, cc, n, st.pos, if min == 0 then Clear(st.cap, cc, Caps(b)) else st.cap, l);
    hide Ends;
    hide Attempt;
    hide Rounds;
    hide Optional;
    hide Exact;
    hide Rest;
    hide FlatMap;
    hide First;
    ClearIs(b, cc, st);
    ResetValid(env, st, cc, cc + Caps(b));
    hide Caps;
    hide Clear;
    hide ResetCaps;
    RoundsIs(env, b, back, cc, n, start, l);
    EndsMoves(env, b, back, cc);
    forall x | x in Exact(f, n, start) ensures l(x.pos, x.cap) == First(g(x), k) {
      ExactMoves(env, back, f, n, start, x);
      OptionalIs(env, b, back, cc, min, max, greedy, x, k);
    }
    FirstFlatMap(Exact(f, n, start), g, k, l);
  }

  lemma ClearIs(b: Re, cc: nat, st: St)
    ensures Caps(b) > 0 ==> ResetCaps(st, cc, cc + Caps(b)).cap == Clear(st.cap, cc, Caps(b))
    ensures Caps(b) == 0 ==> st.cap == Clear(st.cap, cc, Caps(b))
  {
  }

  lemma {:induction false} SequenceIs(env: Env, ts: seq<Re>, back: bool, cc: nat, st: St, k: Cont)
    requires ValidSt(env, st) && env.rounds.None?
    ensures Sequence(env, ts, back, cc, st.pos, st.cap, k) == First(EndsCat(env, ts, back, cc, st), k)
    decreases ts, 0
  {
    if ts == [] {
      FirstOne(st, k);
    } else {
      var n := |ts| - 1;
      var c1 := cc + CapsAll(ts[..n]);
      var last, init := EndsFn(env, ts[n], back, c1), EndsCatFn(env, ts[..n], back, cc);
      if back {
        var l := SequenceFn(env, ts[..n], back, cc, k);
        AttemptIs(env, ts[n], back, c1, st, l);
        forall x | x in last(st) ensures l(x.pos, x.cap) == First(init(x), k) {
          EndsMove(env, ts[n], back, c1, st, x);
          SequenceIs(env, ts[..n], back, cc, x, k);
        }
        FirstFlatMap(last(st), init, k, l);
      } else {
        var l := TermFn(env, ts[n], back, c1, k);
        SequenceIs(env, ts[..n], back, cc, st, l);
        forall x | x in init(st) ensures l(x.pos, x.cap) == First(last(x), k) {
          EndsCatMove(env, ts[..n], back, cc, st, x);
          AttemptIs(env, ts[n], back, c1, x, k);
        }
        FirstFlatMap(init(st), last, k, l);
      }
    }
  }

  lemma {:induction false} AlternativesIs(env: Env, ts: seq<Re>, back: bool, cc: nat, st: St, k: Cont)
    requires ValidSt(env, st) && env.rounds.None?
    ensures Alternatives(env, ts, back, cc, st.pos, st.cap, k) == First(EndsDisj(env, ts, back, cc, st), k)
    decreases ts, 0
  {
    if ts != [] {
      var n := |ts| - 1;
      var c1 := cc + CapsAll(ts[..n]);
      AlternativesIs(env, ts[..n], back, cc, st, k);
      AttemptIs(env, ts[n], back, c1, st, k);
      FirstAppend(EndsDisj(env, ts[..n], back, cc, st), Ends(env, ts[n], back, c1, st), k);
    }
  }

  // ----- Whole matches -----

  // The registers after matching r at i: the match itself is group 0.
  ghost function MatchAt(env: Env, r: Re, i: int): Option<seq<int>> {
    Attempt(env, Capture(r), false, 0, i, seq(2 * env.capCount, _ => -1), DoneFn())
  }

  // The same for the first position from i on where there is a match.
  ghost function MatchFrom(env: Env, r: Re, i: int): Option<seq<int>>
    decreases |env.input| - i
  {
    if i >= |env.input| then MatchAt(env, r, i) else Either(MatchAt(env, r, i), MatchFrom(env, r, i + 1))
  }

  // What a sticky execution delivers, and what a search delivers.
  ghost function Reference(env: Env, r: Re, sticky: bool, i: int): Option<seq<int>> {
    if sticky then MatchAt(env, r, i) else MatchFrom(env, r, i)
  }

  lemma MatchAtIs(env: Env, r: Re, i: int)
    requires 0 <= i <= |env.input| && env.rounds.None?
    ensures var outs := TopEnds(env, r, i);
            MatchAt(env, r, i) == if outs == [] then None else Some(outs[0].cap)
  {
    InitValid(env, i);
    assert Init(env, i).cap == seq(2 * env.capCount, _ => -1);
    AttemptIs(env, Capture(r), false, 0, Init(env, i), DoneFn());
  }

  lemma {:induction false} MatchFromIs(env: Env, r: Re, i: int)
    requires 0 <= i <= |env.input| && env.rounds.None?
    ensures var outs := SearchEnds(env, r, i);
            MatchFrom(env, r, i) == if outs == [] then None else Some(outs[0].cap)
    decreases |env.input| - i
  {
    hide TopEnds;
    MatchAtIs(env, r, i);
    if i < |env.input| {
      MatchFromIs(env, r, i + 1);
    }
  }
}
