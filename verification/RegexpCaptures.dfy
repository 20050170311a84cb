// What the capture registers hold after a match, in terms of the language of the groups alone.

module RegexpCaptures {
  import opened Basics
  import opened CharRanges
  import opened RegexpCode
  import opened RegexpCompile
  import opened RegexpSemantics
  import opened RegexpVM
  import opened RegexpBlocks
  import opened RegexpCorrect
  import opened RegexpTheorem
  import opened RegexpLanguage
  import opened RegexpRun
  import opened RegexpHalts
  import opened RegexpAnswers

  // ----- Groups -----

  // The bodies of the groups of a pattern, in the order of their opening parentheses.
  ghost function Groups(r: Re): (gs: seq<Re>)
    ensures |gs| == Caps(r)
    decreases r, 1
  {
    match r
    case Group(b) => Groups(b)
    case Capture(b) => [b] + Groups(b)
    case Look(_, _, b) => Groups(b)
    case Quant(b, _, _, _) => Groups(b)
    case Cat(ts) => GroupsAll(ts)
    case Disj(ts) => GroupsAll(ts)
    case _ => []
  }

  ghost function GroupsAll(ts: seq<Re>): (gs: seq<Re>)
    ensures |gs| == CapsAll(ts)
    decreases ts, 0
  {
    if ts == [] then [] else GroupsAll(ts[..|ts| - 1]) + Groups(ts[|ts| - 1])
  }

  // A group has not taken part, or its body matches what lies between its registers.
  ghost predicate GroupOk(env: Env, b: Re, lo: int, hi: int) {
    (lo == -1 && hi == -1) || (0 <= lo <= hi <= |env.input| && Lang(env, b, lo, hi))
  }

  // Group k of gs has the registers 2 * (cc + k) and 2 * (cc + k) + 1.
  ghost predicate GroupsOk(env: Env, gs: seq<Re>, cc: nat, cap: seq<int>) {
    && 2 * (cc + |gs|) <= |cap|
    && forall k: nat :: k < |gs| ==> GroupOkAt(env, gs, cc, cap, k)
  }

  ghost predicate GroupOkAt(env: Env, gs: seq<Re>, cc: nat, cap: seq<int>, k: nat)
    requires 2 * (cc + |gs|) <= |cap| && k < |gs|
  {
    GroupOk(env, gs[k], cap[2 * (cc + k)], cap[2 * (cc + k) + 1])
  }

  // Only the registers of groups cc to cc + n - 1 differ.
  ghost predicate OnlyGroups(was: seq<int>, now: seq<int>, cc: nat, n: nat) {
    && |was| == |now|
    && forall k :: 0 <= k < |was| && !(2 * cc <= k < 2 * (cc + n)) ==> now[k] == was[k]
  }

  // st has the groups in order, and agrees with was on all other registers.
  ghost predicate InOrder(env: Env, gs: seq<Re>, cc: nat, was: seq<int>, st: St) {
    ValidSt(env, st) && GroupsOk(env, gs, cc, st.cap) && OnlyGroups(was, st.cap, cc, |gs|)
  }

  lemma GroupsSplit(env: Env, a: seq<Re>, b: seq<Re>, cc: nat, cap: seq<int>)
    ensures GroupsOk(env, a + b, cc, cap) <==> GroupsOk(env, a, cc, cap) && GroupsOk(env, b, cc + |a|, cap)
  {
    hide GroupOk;
    if GroupsOk(env, a + b, cc, cap) {
      forall k: nat | k < |a| ensures GroupOkAt(env, a, cc, cap, k) {
        assert GroupOkAt(env, a + b, cc, cap, k);
      }
      var c1 := cc + |a|;
      forall k: nat | k < |b| ensures GroupOkAt(env, b, c1, cap, k) {
        assert GroupOkAt(env, a + b, cc, cap, |a| + k);
      }
    }
    if GroupsOk(env, a, cc, cap) && GroupsOk(env, b, cc + |a|, cap) {
      var n := |a| + |b|;
      forall k: nat | k < n ensures GroupOkAt(env, a + b, cc, cap, k) {
        if k < |a| {
          assert GroupOkAt(env, a, cc, cap, k);
        } else {
          assert GroupOkAt(env, b, cc + |a|, cap, k - |a|);
        }
      }
    }
  }

  // Groups whose registers are not touched stay in order.
  lemma GroupsKept(env: Env, gs: seq<Re>, cc: nat, was: seq<int>, now: seq<int>)
    requires GroupsOk(env, gs, cc, was) && |was| == |now|
    requires forall k :: 2 * cc <= k < 2 * (cc + |gs|) ==> now[k] == was[k]
    ensures GroupsOk(env, gs, cc, now)
  {
    hide GroupOk;
    forall k: nat | k < |gs| ensures GroupOkAt(env, gs, cc, now, k) {
      assert GroupOkAt(env, gs, cc, was, k);
    }
  }

  // ----- Rounds of a loop -----

  ghost predicate Preserves(f: St -> seq<St>, inv: St -> bool) {
    forall s, y :: inv(s) && y in f(s) ==> inv(y)
  }

  lemma {:induction false} ExactPreserves(f: St -> seq<St>, inv: St -> bool, n: nat, st: St, x: St)
    requires Preserves(f, inv) && inv(st) && x in Exact(f, n, st)
    ensures inv(x)
    decreases n
  {
    if n > 0 {
      FlatMapIn(f(st), ExactFn(f, n - 1), x);
      var y :| y in f(st) && x in ExactFn(f, n - 1)(y);
      ExactPreserves(f, inv, n - 1, y, x);
    }
  }

  lemma {:induction false} UpToPreserves(f: St -> seq<St>, inv: St -> bool, n: nat, greedy: bool, st: St, x: St)
    requires Preserves(f, inv) && inv(st) && x in UpTo(f, n, greedy, st)
    ensures inv(x)
    decreases n
  {
    if x != st {
      FlatMapIn(f(st), UpToFn(f, n - 1, greedy), x);
      var y :| y in f(st) && x in UpToFn(f, n - 1, greedy)(y);
      UpToPreserves(f, inv, n - 1, greedy, y, x);
    }
  }

  lemma {:induction false} StarPreserves(f: St -> seq<St>, inv: St -> bool, fuel: nat, greedy: bool, st: St, x: St)
    requires Preserves(f, inv) && inv(st) && x in Star(f, fuel, greedy, st)
    ensures inv(x)
    decreases fuel
  {
    if x != st {
      var y := StarIn(f, fuel, greedy, st, x);
      if y.pos != st.pos {
        StarPreserves(f, inv, fuel - 1, greedy, y, x);
      }
    }
  }

  lemma RestPreserves(env: Env, f: St -> seq<St>, back: bool, inv: St -> bool, min: int, max: int, greedy: bool,
                      st: St, x: St)
    requires Preserves(f, inv) && inv(st) && x in Rest(env, f, back, min, max, greedy, st)
    ensures inv(x)
  {
    if max == INT32_MAX && !greedy && env.rounds.Some? {
      UpToPreserves(f, inv, |env.input| + env.rounds.value, false, st, x);
    } else if max == INT32_MAX {
      StarPreserves(f, inv, Dist(env, back, st) + 1, greedy, st, x);
    } else {
      UpToPreserves(f, inv, max - min, greedy, st, x);
    }
  }

  // ----- Successes keep the groups in order -----

  lemma {:induction false} EndsGroups(env: Env, r: Re, back: bool, cc: nat, was: seq<int>, st: St, x: St)
    requires WellFormed(r) && NoBackRef(r) && x in Ends(env, r, back, cc, st)
    requires InOrder(env, Groups(r), cc, was, st)
    ensures InOrder(env, Groups(r), cc, was, x)
    decreases r, 1
  {
    EndsMove(env, r, back, cc, st, x);
    match r
    case Group(b) => EndsGroups(env, b, back, cc, was, st, x);
    case Capture(b) => CaptureGroups(env, r, b, back, cc, was, st, x);
    case Look(neg, behind, b) =>
      var inner := Ends(env, b, behind, cc, st);
      if inner != [] {
        EndsGroups(env, b, behind, cc, was, st, inner[0]);
      }
    case Quant(_, _, _, _) => QuantGroups(env, r, back, cc, was, st, x);
    case Cat(ts) => CatGroups(env, ts, back, cc, was, st, x);
    case Disj(ts) => DisjGroups(env, ts, back, cc, was, st, x);
    case _ => LeafCaps(env, r, back, cc, st, x);
  }

  lemma LeafCaps(env: Env, r: Re, back: bool, cc: nat, st: St, x: St)
    requires r.Chr? || r.Dot? || r.Class? || r.LineStart? || r.LineEnd? || r.WordBoundary?
    requires x in Ends(env, r, back, cc, st)
    ensures x.cap == st.cap
  {
  }

  lemma {:induction false} CaptureGroups(env: Env, r: Re, b: Re, back: bool, cc: nat, was: seq<int>, st: St, x: St)
    requires r == Capture(b) && WellFormed(r) && NoBackRef(r) && x in Ends(env, r, back, cc, st)
    requires InOrder(env, Groups(r), cc, was, st)
    ensures InOrder(env, Groups(r), cc, was, x)
    decreases r, 0
  {
    var gs := Groups(b);
    CaptureParts(r);
    hide Ends;
    hide Groups;
    hide InOrder;
    hide WellFormed;
    hide NoBackRef;
    hide SetCap;
    var st1 := SetCap(st, 2 * cc + BoolBit(back));
    var y := CaptureIn(env, b, back, cc, st, x);
    EndsMove(env, r, back, cc, st, x);
    BodyOrder(env, b, gs, cc, was, st, st1, BoolBit(back));
    EndsGroups(env, b, back, cc + 1, st1.cap, st1, y);
    AfterGroup(env, b, gs, back, cc, was, st, st1, y, x);
  }

  lemma AfterGroup(env: Env, b: Re, gs: seq<Re>, back: bool, cc: nat, was: seq<int>, st: St, st1: St, y: St, x: St)
    requires WellFormed(b) && NoBackRef(b) && gs == Groups(b) && InOrder(env, [b] + gs, cc, was, st)
    requires st1 == SetCap(st, 2 * cc + BoolBit(back)) && y in Ends(env, b, back, cc + 1, st1)
    requires InOrder(env, gs, cc + 1, st1.cap, y) && x == SetCap(y, 2 * cc + BoolBit(!back)) && ValidSt(env, x)
    requires 2 * cc + 1 < |st.cap|
    ensures InOrder(env, [b] + gs, cc, was, x)
  {
    hide Ends;
    hide Groups;
    hide WellFormed;
    hide NoBackRef;
    hide SetCap;
    hide GroupOk;
    OrderFacts(env, [b] + gs, cc, was, st);
    OrderFacts(env, gs, cc + 1, st1.cap, y);
    hide InOrder;
    OwnGroup(env, b, back, cc, st, st1, y, x);
    GroupOrder(env, b, gs, cc, was, st, st1, y, x, BoolBit(back));
  }

  lemma CaptureParts(r: Re)
    requires r.Capture? && WellFormed(r) && NoBackRef(r)
    ensures WellFormed(r.body) && NoBackRef(r.body) && Groups(r) == [r.body] + Groups(r.body)
  {
  }

  // A group about to match, with one of its registers set.
  lemma BodyOrder(env: Env, b: Re, gs: seq<Re>, cc: nat, was: seq<int>, st: St, st1: St, bit: int)
    requires InOrder(env, [b] + gs, cc, was, st) && 0 <= bit <= 1 && st1 == SetCap(st, 2 * cc + bit)
    ensures InOrder(env, gs, cc + 1, st1.cap, st1) && 2 * cc + 1 < |st.cap|
  {
    hide GroupOk;
    GroupsSplit(env, [b], gs, cc, st.cap);
    GroupsKept(env, gs, cc + 1, st.cap, st1.cap);
  }

  lemma OrderFacts(env: Env, gs: seq<Re>, cc: nat, was: seq<int>, st: St)
    requires InOrder(env, gs, cc, was, st)
    ensures ValidSt(env, st) && OnlyGroups(was, st.cap, cc, |gs|)
  {
  }

  // ... and after it has matched.
  lemma GroupOrder(env: Env, b: Re, gs: seq<Re>, cc: nat, was: seq<int>, st: St, st1: St, y: St, x: St, bit: int)
    requires InOrder(env, [b] + gs, cc, was, st) && 0 <= bit <= 1 && st1 == SetCap(st, 2 * cc + bit)
    requires InOrder(env, gs, cc + 1, st1.cap, y) && x == SetCap(y, 2 * cc + (1 - bit)) && ValidSt(env, x)
    requires 2 * cc + 1 < |x.cap| && GroupOk(env, b, x.cap[2 * cc], x.cap[2 * cc + 1])
    ensures InOrder(env, [b] + gs, cc, was, x)
  {
    GroupsKept(env, gs, cc + 1, y.cap, x.cap);
    assert GroupOkAt(env, [b], cc, x.cap, 0);
    assert GroupsOk(env, [b], cc, x.cap);
    GroupsSplit(env, [b], gs, cc, x.cap);
  }

  // The registers of a group that has just matched.
  lemma OwnGroup(env: Env, b: Re, back: bool, cc: nat, st: St, st1: St, y: St, x: St)
    requires WellFormed(b) && NoBackRef(b) && ValidSt(env, st) && 2 * cc + 1 < |st.cap|
    requires st1 == SetCap(st, 2 * cc + BoolBit(back)) && y in Ends(env, b, back, cc + 1, st1)
    requires x == SetCap(y, 2 * cc + BoolBit(!back)) && OnlyGroups(st1.cap, y.cap, cc + 1, Caps(b))
    ensures |x.cap| == |st.cap| && GroupOk(env, b, x.cap[2 * cc], x.cap[2 * cc + 1])
    ensures if back then x.cap[2 * cc] == x.pos && x.cap[2 * cc + 1] == st.pos
            else x.cap[2 * cc] == st.pos && x.cap[2 * cc + 1] == x.pos
  {
    hide Ends;
    hide Lang;
    EndsHits(env, b, back, cc + 1, st1, y.pos);
    assert Hits(Ends(env, b, back, cc + 1, st1), y.pos);
    if back {
      LangInside(env, b, y.pos, st.pos);
    } else {
      LangInside(env, b, st.pos, y.pos);
    }
  }

  lemma {:induction false} QuantGroups(env: Env, r: Re, back: bool, cc: nat, was: seq<int>, st: St, x: St)
    requires r.Quant? && WellFormed(r) && NoBackRef(r) && x in Ends(env, r, back, cc, st)
    requires InOrder(env, Groups(r), cc, was, st)
    ensures InOrder(env, Groups(r), cc, was, x)
    decreases r, 0
  {
    var b, f := r.body, EndsFn(env, r.body, back, cc);
    var start := QuantStart(b, r.min, cc, st);
    StartGroups(env, b, r.min, cc, was, st);
    var inv: St -> bool := s => InOrder(env, Groups(b), cc, was, s);
    forall s, y | inv(s) && y in f(s) ensures inv(y) {
      EndsGroups(env, b, back, cc, was, s, y);
    }
    hide InOrder;
    FlatMapIn(Exact(f, r.min, start), RestFn(env, f, back, r.min, r.max, r.greedy), x);
    var y :| y in Exact(f, r.min, start) && x in RestFn(env, f, back, r.min, r.max, r.greedy)(y);
    ExactPreserves(f, inv, r.min, start, y);
    RestPreserves(env, f, back, inv, r.min, r.max, r.greedy, y, x);
  }

  // Resetting registers leaves groups that have not taken part.
  lemma StartGroups(env: Env, b: Re, min: int, cc: nat, was: seq<int>, st: St)
    requires InOrder(env, Groups(b), cc, was, st)
    ensures InOrder(env, Groups(b), cc, was, QuantStart(b, min, cc, st))
  {
    hide Lang;
    var start := QuantStart(b, min, cc, st);
    if min == 0 && Caps(b) > 0 {
      forall k: nat | k < |Groups(b)| ensures GroupOkAt(env, Groups(b), cc, start.cap, k) {
      }
    }
  }

  // A state in order for both parts of a sequence of groups is in order for each.
  lemma OrderSplit(env: Env, a: seq<Re>, b: seq<Re>, cc: nat, st: St)
    requires ValidSt(env, st) && GroupsOk(env, a + b, cc, st.cap)
    ensures InOrder(env, a, cc, st.cap, st) && InOrder(env, b, cc + |a|, st.cap, st)
  {
    hide GroupOk;
    GroupsSplit(env, a, b, cc, st.cap);
  }

  // ... and what changes one of them only leaves both in order.
  lemma OrderLeft(env: Env, a: seq<Re>, b: seq<Re>, cc: nat, was: seq<int>, st: St, x: St)
    requires InOrder(env, a + b, cc, was, st) && InOrder(env, a, cc, st.cap, x)
    ensures InOrder(env, a + b, cc, was, x)
  {
    hide GroupOk;
    GroupsSplit(env, a, b, cc, st.cap);
    GroupsKept(env, b, cc + |a|, st.cap, x.cap);
    GroupsSplit(env, a, b, cc, x.cap);
  }

  lemma OrderRight(env: Env, a: seq<Re>, b: seq<Re>, cc: nat, was: seq<int>, st: St, x: St)
    requires InOrder(env, a + b, cc, was, st) && InOrder(env, b, cc + |a|, st.cap, x)
    ensures InOrder(env, a + b, cc, was, x)
  {
    hide GroupOk;
    GroupsSplit(env, a, b, cc, st.cap);
    GroupsKept(env, a, cc, st.cap, x.cap);
    GroupsSplit(env, a, b, cc, x.cap);
  }

  lemma {:induction false} CatGroups(env: Env, ts: seq<Re>, back: bool, cc: nat, was: seq<int>, st: St, x: St)
    requires WellFormedAll(ts) && NoBackRefs(ts) && x in EndsCat(env, ts, back, cc, st)
    requires InOrder(env, GroupsAll(ts), cc, was, st)
    ensures InOrder(env, GroupsAll(ts), cc, was, x)
    decreases ts, 0
  {
    hide InOrder;
    if ts != [] {
      var n := |ts| - 1;
      var c1 := cc + CapsAll(ts[..n]);
      var last, init := EndsFn(env, ts[n], back, c1), EndsCatFn(env, ts[..n], back, cc);
      var a, b := GroupsAll(ts[..n]), Groups(ts[n]);
      if back {
        FlatMapIn(last(st), init, x);
        var y :| y in last(st) && x in init(y);
        OrderParts(env, a, b, cc, was, st);
        EndsGroups(env, ts[n], back, c1, st.cap, st, y);
        OrderRight(env, a, b, cc, was, st, y);
        OrderParts(env, a, b, cc, was, y);
        CatGroups(env, ts[..n], back, cc, y.cap, y, x);
        OrderLeft(env, a, b, cc, was, y, x);
      } else {
        FlatMapIn(init(st), last, x);
        var y :| y in init(st) && x in last(y);
        OrderParts(env, a, b, cc, was, st);
        CatGroups(env, ts[..n], back, cc, st.cap, st, y);
        OrderLeft(env, a, b, cc, was, st, y);
        OrderParts(env, a, b, cc, was, y);
        EndsGroups(env, ts[n], back, c1, y.cap, y, x);
        OrderRight(env, a, b, cc, was, y, x);
      }
    }
  }

  lemma OrderParts(env: Env, a: seq<Re>, b: seq<Re>, cc: nat, was: seq<int>, st: St)
    requires InOrder(env, a + b, cc, was, st)
    ensures InOrder(env, a, cc, st.cap, st) && InOrder(env, b, cc + |a|, st.cap, st)
  {
    hide GroupsOk;
    OrderSplit(env, a, b, cc, st);
  }

  lemma {:induction false} DisjGroups(env: Env, ts: seq<Re>, back: bool, cc: nat, was: seq<int>, st: St, x: St)
    requires WellFormedAll(ts) && NoBackRefs(ts) && x in EndsDisj(env, ts, back, cc, st)
    requires InOrder(env, GroupsAll(ts), cc, was, st)
    ensures InOrder(env, GroupsAll(ts), cc, was, x)
    decreases ts, 0
  {
    hide InOrder;
    var n := |ts| - 1;
    var a, b := GroupsAll(ts[..n]), Groups(ts[n]);
    OrderParts(env, a, b, cc, was, st);
    if x in EndsDisj(env, ts[..n], back, cc, st) {
      DisjGroups(env, ts[..n], back, cc, st.cap, st, x);
      OrderLeft(env, a, b, cc, was, st, x);
    } else {
      EndsGroups(env, ts[n], back, cc + CapsAll(ts[..n]), st.cap, st, x);
      OrderRight(env, a, b, cc, was, st, x);
    }
  }

  // ----- Whole matches -----

  // The registers cap after a match of r that was looked for at i, or from i on: where the match is,
  // that it starts as early as it can, and what its groups are.
  ghost predicate CapturedRight(env: Env, r: Re, sticky: bool, i: int, cap: seq<int>) {
    && 2 + 2 * Caps(r) <= |cap|
    && 0 <= cap[0] <= cap[1] <= |env.input| && Lang(env, r, cap[0], cap[1])
    && (if sticky then cap[0] == i else EarliestFrom(env, r, i, cap[0]))
    && forall k: nat :: k < Caps(r) ==> GroupOk(env, Groups(r)[k], cap[2 + 2 * k], cap[3 + 2 * k])
  }

  // No match starts between i and k.
  ghost predicate EarliestFrom(env: Env, r: Re, i: int, k: int) {
    i <= k && forall j :: i <= j < k ==> !Matches(env, r, j)
  }

  lemma TopCaptures(env: Env, r: Re, i: int, x: St)
    requires WellFormed(r) && NoBackRef(r) && 1 + Caps(r) <= env.capCount && 0 <= i <= |env.input|
    requires x in TopEnds(env, r, i)
    ensures CapturedRight(env, r, true, i, x.cap)
  {
    var y := TopGroups(env, r, i, x);
    hide Ends;
    hide Lang;
    hide SetCap;
    hide TopEnds;
    hide GroupsOk;
    LangInside(env, r, i, x.cap[1]);
    GroupsKept(env, Groups(r), 1, y.cap, x.cap);
    forall k: nat | k < Caps(r) ensures GroupOk(env, Groups(r)[k], x.cap[2 + 2 * k], x.cap[3 + 2 * k]) {
      TopGroup(env, Groups(r), x.cap, k);
    }
  }

  lemma TopGroup(env: Env, gs: seq<Re>, cap: seq<int>, k: nat)
    requires GroupsOk(env, gs, 1, cap) && k < |gs|
    ensures 4 + 2 * k <= |cap| && GroupOk(env, gs[k], cap[2 + 2 * k], cap[3 + 2 * k])
  {
    hide GroupOk;
    assert GroupOkAt(env, gs, 1, cap, k);
  }

  // The success y of the pattern behind the success x of group 0.
  lemma TopGroups(env: Env, r: Re, i: int, x: St) returns (y: St)
    requires WellFormed(r) && NoBackRef(r) && 1 + Caps(r) <= env.capCount && 0 <= i <= |env.input|
    requires x in TopEnds(env, r, i)
    ensures GroupsOk(env, Groups(r), 1, y.cap) && |y.cap| == |x.cap| && 2 + 2 * Caps(r) <= |x.cap|
    ensures forall k :: 2 <= k < |x.cap| ==> x.cap[k] == y.cap[k]
    ensures x.cap[0] == i && Lang(env, r, i, x.cap[1])
  {
    var st := Init(env, i);
    TopStart(env, r, i);
    hide Init;
    y := CaptureIn(env, r, false, 0, st, x);
    hide Ends;
    hide Groups;
    hide Lang;
    var st1 := SetCap(st, 0);
    hide SetCap;
    EndsGroups(env, r, false, 1, st1.cap, st1, y);
    OrderIs(env, Groups(r), 1, st1.cap, y);
    hide InOrder;
    hide GroupsOk;
    OwnGroup(env, r, false, 0, st, st1, y, x);
    TopRegisters(y, x);
  }

  lemma OrderIs(env: Env, gs: seq<Re>, cc: nat, was: seq<int>, st: St)
    requires InOrder(env, gs, cc, was, st)
    ensures GroupsOk(env, gs, cc, st.cap) && OnlyGroups(was, st.cap, cc, |gs|)
  {
  }

  lemma TopRegisters(y: St, x: St)
    requires x == SetCap(y, 1)
    ensures |y.cap| == |x.cap| && forall k :: 2 <= k < |x.cap| ==> x.cap[k] == y.cap[k]
  {
  }

  lemma TopStart(env: Env, r: Re, i: int)
    requires 1 + Caps(r) <= env.capCount && 0 <= i <= |env.input|
    ensures var st, st1 := Init(env, i), SetCap(Init(env, i), 0);
      && ValidSt(env, st) && 2 + 2 * Caps(r) <= |st.cap| && st.pos == i
      && InOrder(env, Groups(r), 1, st1.cap, st1)
  {
    hide Groups;
    var st, st1 := Init(env, i), SetCap(Init(env, i), 0);
    InitValid(env, i);
    FreshOrder(env, [r] + Groups(r), 0, st);
    BodyOrder(env, r, Groups(r), 0, st.cap, st, st1, 0);
  }

  // Before the start no group has taken part.
  lemma FreshOrder(env: Env, gs: seq<Re>, cc: nat, st: St)
    requires ValidSt(env, st) && 2 * (cc + |gs|) <= |st.cap| && forall k :: 0 <= k < |st.cap| ==> st.cap[k] == -1
    ensures InOrder(env, gs, cc, st.cap, st)
  {
    hide Lang;
  }

  lemma {:induction false} SearchCaptures(env: Env, r: Re, i: int, x: St)
    requires WellFormed(r) && NoBackRef(r) && 1 + Caps(r) <= env.capCount && 0 <= i <= |env.input|
    requires x in SearchEnds(env, r, i)
    ensures CapturedRight(env, r, false, i, x.cap)
    decreases |env.input| - i
  {
    hide TopEnds;
    hide Lang;
    hide GroupOk;
    AcceptsIffLang(env, r, i);
    if TopEnds(env, r, i) != [] || i >= |env.input| {
      TopCaptures(env, r, i, x);
    } else {
      SearchCaptures(env, r, i + 1, x);
    }
  }

  lemma GroupSame(env: Env, env': Env, b: Re, lo: int, hi: int)
    requires env.(rounds := env'.rounds) == env'
    ensures GroupOk(env, b, lo, hi) <==> GroupOk(env', b, lo, hi)
  {
    LangSame(env, env', b, lo, hi);
  }

  lemma CapturedSame(env: Env, env': Env, r: Re, sticky: bool, i: int, cap: seq<int>)
    requires env.(rounds := env'.rounds) == env' && CapturedRight(env', r, sticky, i, cap)
    ensures CapturedRight(env, r, sticky, i, cap)
  {
    hide Lang;
    hide GroupOk;
    hide Matches;
    LangSame(env, env', r, cap[0], cap[1]);
    forall j ensures Matches(env, r, j) <==> Matches(env', r, j) {
      MatchesSame(env, env', r, j);
    }
    forall k: nat | k < Caps(r) ensures GroupOk(env, Groups(r)[k], cap[2 + 2 * k], cap[3 + 2 * k]) {
      GroupSame(env, env', Groups(r)[k], cap[2 + 2 * k], cap[3 + 2 * k]);
    }
  }

  // The registers of a machine that stops with a match.
  lemma AnswerCaptures(p: Prog, r: Re, sticky: bool, i: int, t: Vm)
    requires Loaded(p, r, sticky) && NoBackRef(r) && 0 <= i <= |p.env.input|
    requires Reaches(p, Run(0, Init(p.env, i), [], []), t) && t.Match?
    ensures CapturedRight(p.env, r, sticky, i, t.st.cap)
  {
    hide NoBackRef;
    hide TopEnds;
    hide SearchEnds;
    hide CapturedRight;
    hide Init;
    var s := Run(0, Init(p.env, i), [], []);
    var n: nat :| StepN(p, n, s) == t;
    hide Reaches;
    var env := Within(p, n).env;
    CutOutcome(p, r, sticky, i, n);
    var outs := if sticky then TopEnds(env, r, i) else SearchEnds(env, r, i);
    SameStop(p, s, t, Outcome(outs));
    assert outs[0] in outs;
    if sticky {
      TopCaptures(env, r, i, outs[0]);
    } else {
      SearchCaptures(env, r, i, outs[0]);
    }
    CapturedSame(p.env, env, r, sticky, i, t.st.cap);
  }
}
