// The list of successes of a pattern reaches exactly the positions its language allows.

module RegexpLanguage {
  import opened CharRanges
  import opened RegexpCode
  import opened RegexpCompile
  import opened RegexpSemantics
  import opened RegexpVM
  import opened RegexpBlocks
  import opened RegexpCorrect

  ghost predicate Hits(xs: seq<St>, j: int) {
    exists x :: x in xs && x.pos == j
  }

  // Back references have no place in a language of positions.
  ghost predicate NoBackRef(r: Re) {
    match r
    case BackRef(_) => false
    case Group(b) => NoBackRef(b)
    case Capture(b) => NoBackRef(b)
    case Look(_, _, b) => NoBackRef(b)
    case Quant(b, _, _, _) => NoBackRef(b)
    case Cat(ts) => NoBackRefs(ts)
    case Disj(ts) => NoBackRefs(ts)
    case _ => true
  }

  ghost predicate NoBackRefs(ts: seq<Re>) {
    ts == [] || (NoBackRefs(ts[..|ts| - 1]) && NoBackRef(ts[|ts| - 1]))
  }

  // ----- Steps along a relation on positions -----

  type Rel = (int, int) -> bool

  ghost predicate Steps(rel: Rel, n: nat, i: int, j: int)
    decreases n
  {
    if n == 0 then i == j else exists k :: StepsVia(rel, n, i, k, j)
  }

  ghost predicate StepsVia(rel: Rel, n: nat, i: int, k: int, j: int)
    requires n > 0
    decreases n, 0
  {
    rel(i, k) && Steps(rel, n - 1, k, j)
  }

  lemma StepsFirst(rel: Rel, n: nat, i: int, j: int) returns (k: int)
    requires n > 0 && Steps(rel, n, i, j)
    ensures rel(i, k) && Steps(rel, n - 1, k, j)
  {
    k :| StepsVia(rel, n, i, k, j);
  }

  lemma StepsCons(rel: Rel, n: nat, i: int, k: int, j: int)
    requires rel(i, k) && Steps(rel, n, k, j)
    ensures Steps(rel, n + 1, i, j)
  {
    assert StepsVia(rel, n + 1, i, k, j);
  }

  lemma {:induction false} StepsAdd(rel: Rel, m: nat, n: nat, i: int, k: int, j: int)
    requires Steps(rel, m, i, k) && Steps(rel, n, k, j)
    ensures Steps(rel, m + n, i, j)
    decreases m
  {
    if m > 0 {
      var l := StepsFirst(rel, m, i, k);
      StepsAdd(rel, m - 1, n, l, k, j);
      StepsCons(rel, m - 1 + n, i, l, j);
    }
  }

  lemma {:induction false} StepsSplit(rel: Rel, m: nat, n: nat, i: int, j: int) returns (k: int)
    requires Steps(rel, m + n, i, j)
    ensures Steps(rel, m, i, k) && Steps(rel, n, k, j)
    decreases m
  {
    if m == 0 {
      k := i;
    } else {
      var l := StepsFirst(rel, m + n, i, j);
      k := StepsSplit(rel, m - 1, n, l, j);
      StepsCons(rel, m - 1, i, l, k);
    }
  }

  lemma StepsOne(rel: Rel, i: int, j: int)
    ensures Steps(rel, 1, i, j) <==> rel(i, j)
  {
    if rel(i, j) {
      StepsCons(rel, 0, i, j, j);
    }
    if Steps(rel, 1, i, j) {
      var k := StepsFirst(rel, 1, i, j);
    }
  }

  // f reaches exactly the positions related to where it starts.
  ghost predicate Reach(env: Env, f: St -> seq<St>, rel: Rel) {
    forall st, j :: ValidSt(env, st) ==> (Hits(f(st), j) <==> rel(st.pos, j))
  }

  ghost predicate Through(xs: seq<St>, g: St -> seq<St>, j: int) {
    exists x :: x in xs && Hits(g(x), j)
  }

  lemma HitsFlatMap(xs: seq<St>, g: St -> seq<St>, j: int)
    ensures Hits(FlatMap(xs, g), j) <==> Through(xs, g, j)
  {
    if Hits(FlatMap(xs, g), j) {
      var y :| y in FlatMap(xs, g) && y.pos == j;
      FlatMapIn(xs, g, y);
      var x :| x in xs && y in g(x);
      assert Hits(g(x), j);
    }
    if Through(xs, g, j) {
      var x :| x in xs && Hits(g(x), j);
      var y :| y in g(x) && y.pos == j;
      FlatMapIn(xs, g, y);
    }
  }

  lemma HitsAppend(xs: seq<St>, ys: seq<St>, j: int)
    ensures Hits(xs + ys, j) <==> Hits(xs, j) || Hits(ys, j)
  {
  }

  // A success of f at the first of n + 1 steps.
  lemma ReachAt(env: Env, f: St -> seq<St>, rel: Rel, st: St, k: int) returns (x: St)
    requires Reach(env, f, rel) && ValidSt(env, st) && rel(st.pos, k)
    ensures x in f(st) && x.pos == k
  {
    assert Hits(f(st), k);
    x :| x in f(st) && x.pos == k;
  }

  lemma ReachFrom(env: Env, f: St -> seq<St>, rel: Rel, st: St, x: St)
    requires Reach(env, f, rel) && ValidSt(env, st) && x in f(st)
    ensures rel(st.pos, x.pos)
  {
    assert Hits(f(st), x.pos);
  }

  lemma {:induction false} ExactReach(env: Env, back: bool, f: St -> seq<St>, rel: Rel, n: nat, st: St, j: int)
    requires Reach(env, f, rel) && Moves(env, back, f) && ValidSt(env, st)
    ensures Hits(Exact(f, n, st), j) <==> Steps(rel, n, st.pos, j)
    decreases n
  {
    hide Reach;
    if n > 0 {
      var g := ExactFn(f, n - 1);
      HitsFlatMap(f(st), g, j);
      if Hits(Exact(f, n, st), j) {
        var x :| x in f(st) && Hits(g(x), j);
        ReachFrom(env, f, rel, st, x);
        ExactReach(env, back, f, rel, n - 1, x, j);
        StepsCons(rel, n - 1, st.pos, x.pos, j);
      }
      if Steps(rel, n, st.pos, j) {
        var k := StepsFirst(rel, n, st.pos, j);
        var x := ReachAt(env, f, rel, st, k);
        ExactReach(env, back, f, rel, n - 1, x, j);
        assert Hits(g(x), j);
      }
    } else {
      assert Exact(f, 0, st) == [st] && st in [st];
    }
  }

  lemma HitsOrdered(greedy: bool, more: seq<St>, st: St, j: int)
    ensures Hits(Ordered(greedy, more, [st]), j) <==> st.pos == j || Hits(more, j)
  {
    HitsAppend(more, [st], j);
    HitsAppend([st], more, j);
    assert st in [st];
  }

  ghost predicate AtMost(rel: Rel, n: nat, i: int, j: int) {
    exists m: nat :: m <= n && Steps(rel, m, i, j)
  }

  lemma {:induction false} UpToReach(env: Env, back: bool, f: St -> seq<St>, rel: Rel, n: nat, greedy: bool, st: St,
                                     j: int)
    requires Reach(env, f, rel) && Moves(env, back, f) && ValidSt(env, st)
    ensures Hits(UpTo(f, n, greedy, st), j) <==> AtMost(rel, n, st.pos, j)
    decreases n
  {
    hide FlatMap;
    hide Reach;
    assert Steps(rel, 0, st.pos, j) <==> st.pos == j;
    if n == 0 {
      assert UpTo(f, 0, greedy, st) == [st] && st in [st];
    } else {
      var g := UpToFn(f, n - 1, greedy);
      HitsOrdered(greedy, FlatMap(f(st), g), st, j);
      HitsFlatMap(f(st), g, j);
      if Through(f(st), g, j) {
        var x :| x in f(st) && Hits(g(x), j);
        ReachFrom(env, f, rel, st, x);
        UpToReach(env, back, f, rel, n - 1, greedy, x, j);
        var m: nat :| m <= n - 1 && Steps(rel, m, x.pos, j);
        StepsCons(rel, m, st.pos, x.pos, j);
      }
      if AtMost(rel, n, st.pos, j) && st.pos != j {
        var m: nat :| m <= n && Steps(rel, m, st.pos, j);
        assert m > 0;
        var k := StepsFirst(rel, m, st.pos, j);
        var x := ReachAt(env, f, rel, st, k);
        UpToReach(env, back, f, rel, n - 1, greedy, x, j);
        assert Hits(g(x), j);
      }
    }
  }

  // Leaving the loop after an empty round loses nothing: an empty round can be skipped.
  lemma {:induction false} StarReachFrom(env: Env, back: bool, f: St -> seq<St>, rel: Rel, fuel: nat, greedy: bool,
                                         n: nat, st: St, j: int)
    requires Reach(env, f, rel) && Moves(env, back, f) && ValidSt(env, st)
    requires fuel > Dist(env, back, st) && Steps(rel, n, st.pos, j)
    ensures Hits(Star(f, fuel, greedy, st), j)
    decreases n
  {
    hide Reach;
    hide Hits;
    var g := StarFn(f, fuel - 1, greedy, st.pos);
    HitsOrdered(greedy, FlatMap(f(st), g), st, j);
    if n > 0 {
      var k := StepsFirst(rel, n, st.pos, j);
      var x := ReachAt(env, f, rel, st, k);
      if k == st.pos {
        StarReachFrom(env, back, f, rel, fuel, greedy, n - 1, st, j);
      } else {
        StarReachFrom(env, back, f, rel, fuel - 1, greedy, n - 1, x, j);
        HitsFlatMap(f(st), g, j);
        assert Hits(g(x), j);
      }
    }
  }

  lemma {:induction false} StarReachTo(env: Env, back: bool, f: St -> seq<St>, rel: Rel, fuel: nat, greedy: bool,
                                       st: St, j: int)
    returns (n: nat)
    requires Reach(env, f, rel) && Moves(env, back, f) && ValidSt(env, st)
    requires Hits(Star(f, fuel, greedy, st), j)
    ensures Steps(rel, n, st.pos, j)
    decreases fuel
  {
    hide Reach;
    var y :| y in Star(f, fuel, greedy, st) && y.pos == j;
    if y == st {
      n := 0;
    } else {
      var x := StarIn(f, fuel, greedy, st, y);
      ReachFrom(env, f, rel, st, x);
      if x.pos == st.pos {
        StepsOne(rel, st.pos, j);
        n := 1;
      } else {
        assert Hits(Star(f, fuel - 1, greedy, x), j);
        n := StarReachTo(env, back, f, rel, fuel - 1, greedy, x, j);
        StepsCons(rel, n, st.pos, x.pos, j);
        n := n + 1;
      }
    }
  }

  // Empty rounds left out, there are no more rounds than characters.
  lemma {:induction false} FewSteps(env: Env, back: bool, f: St -> seq<St>, rel: Rel, n: nat, st: St, j: int)
    returns (m: nat)
    requires Reach(env, f, rel) && Moves(env, back, f) && ValidSt(env, st) && Steps(rel, n, st.pos, j)
    ensures m <= Dist(env, back, st) && Steps(rel, m, st.pos, j)
    decreases n
  {
    hide Reach;
    if n == 0 {
      m := 0;
    } else {
      var k := StepsFirst(rel, n, st.pos, j);
      var x := ReachAt(env, f, rel, st, k);
      if k == st.pos {
        m := FewSteps(env, back, f, rel, n - 1, st, j);
      } else {
        m := FewSteps(env, back, f, rel, n - 1, x, j);
        StepsCons(rel, m, st.pos, k, j);
        m := m + 1;
      }
    }
  }

  ghost predicate Allowed(min: int, max: int, n: nat) {
    min <= n && (max == INT32_MAX || n <= max)
  }

  // n steps, for some n that is allowed once `done` rounds have been made.
  ghost predicate SomeSteps(rel: Rel, min: int, max: int, done: nat, i: int, j: int) {
    exists m: nat :: Steps(rel, m, i, j) && Allowed(min, max, done + m)
  }

  lemma RestReach(env: Env, back: bool, f: St -> seq<St>, rel: Rel, min: nat, max: int, greedy: bool, st: St, j: int)
    requires Reach(env, f, rel) && Moves(env, back, f) && ValidSt(env, st) && min <= max
    ensures Hits(Rest(env, f, back, min, max, greedy, st), j) <==> SomeSteps(rel, min, max, min, st.pos, j)
  {
    hide Reach;
    hide Steps;
    hide Star;
    hide UpTo;
    if max == INT32_MAX && !greedy && env.rounds.Some? {
      var n := |env.input| + env.rounds.value;
      UpToReach(env, back, f, rel, n, false, st, j);
      if AtMost(rel, n, st.pos, j) {
        var m: nat :| m <= n && Steps(rel, m, st.pos, j);
        assert Allowed(min, max, min + m);
      }
      if SomeSteps(rel, min, max, min, st.pos, j) {
        var m: nat :| Steps(rel, m, st.pos, j) && Allowed(min, max, min + m);
        var l := FewSteps(env, back, f, rel, m, st, j);
      }
    } else if max == INT32_MAX {
      var fuel := Dist(env, back, st) + 1;
      assert Rest(env, f, back, min, max, greedy, st) == Star(f, fuel, greedy, st);
      if Hits(Star(f, fuel, greedy, st), j) {
        var n := StarReachTo(env, back, f, rel, fuel, greedy, st, j);
        assert Allowed(min, max, min + n);
      }
      if SomeSteps(rel, min, max, min, st.pos, j) {
        var m: nat :| Steps(rel, m, st.pos, j) && Allowed(min, max, min + m);
        StarReachFrom(env, back, f, rel, fuel, greedy, m, st, j);
      }
    } else {
      UpToReach(env, back, f, rel, max - min, greedy, st, j);
      if AtMost(rel, max - min, st.pos, j) {
        var m: nat :| m <= max - min && Steps(rel, m, st.pos, j);
        assert Allowed(min, max, min + m);
      }
    }
  }

  lemma QuantReach(env: Env, back: bool, f: St -> seq<St>, rel: Rel, min: nat, max: int, greedy: bool, st: St, j: int)
    requires Reach(env, f, rel) && Moves(env, back, f) && ValidSt(env, st) && min <= max
    ensures Hits(FlatMap(Exact(f, min, st), RestFn(env, f, back, min, max, greedy)), j)
       <==> SomeSteps(rel, min, max, 0, st.pos, j)
  {
    hide FlatMap;
    hide Rest;
    hide Reach;
    hide Steps;
    hide Exact;
    var g := RestFn(env, f, back, min, max, greedy);
    HitsFlatMap(Exact(f, min, st), g, j);
    if Through(Exact(f, min, st), g, j) {
      var x :| x in Exact(f, min, st) && Hits(g(x), j);
      ExactMoves(env, back, f, min, st, x);
      RestReach(env, back, f, rel, min, max, greedy, x, j);
      var m: nat :| Steps(rel, m, x.pos, j) && Allowed(min, max, min + m);
      assert Hits(Exact(f, min, st), x.pos);
      ExactReach(env, back, f, rel, min, st, x.pos);
      StepsAdd(rel, min, m, st.pos, x.pos, j);
      assert Allowed(min, max, 0 + (min + m));
    }
    if SomeSteps(rel, min, max, 0, st.pos, j) {
      var n: nat :| Steps(rel, n, st.pos, j) && Allowed(min, max, 0 + n);
      var k := StepsSplit(rel, min, n - min, st.pos, j);
      ExactReach(env, back, f, rel, min, st, k);
      var x :| x in Exact(f, min, st) && x.pos == k;
      ExactMoves(env, back, f, min, st, x);
      assert Allowed(min, max, min + (n - min));
      RestReach(env, back, f, rel, min, max, greedy, x, j);
      assert Hits(g(x), j);
    }
  }

  // ----- The language read in either direction -----

  ghost function LangRel(env: Env, r: Re, back: bool): Rel {
    (i, j) => if back then Lang(env, r, j, i) else Lang(env, r, i, j)
  }

  lemma {:induction false} LangInside(env: Env, r: Re, i: int, j: int)
    requires Lang(env, r, i, j)
    ensures 0 <= i <= j <= |env.input|
    decreases r, 1
  {
    match r
    case Group(b) => LangInside(env, b, i, j);
    case Capture(b) => LangInside(env, b, i, j);
    case Quant(b, min, max, _) =>
      var n: nat :| min <= n && (max == INT32_MAX || n <= max) && Iter(env, b, n, i, j);
      IterInside(env, b, n, i, j);
    case Cat(ts) => LangCatInside(env, ts, i, j);
    case Disj(ts) =>
      var k :| 0 <= k < |ts| && Lang(env, ts[k], i, j);
      LangInside(env, ts[k], i, j);
    case _ =>
  }

  lemma IterFirst(env: Env, b: Re, n: nat, i: int, j: int) returns (k: int)
    requires n > 0 && Iter(env, b, n, i, j)
    ensures Lang(env, b, i, k) && Iter(env, b, n - 1, k, j)
  {
    k :| Lang(env, b, i, k) && Iter(env, b, n - 1, k, j);
  }

  lemma IterCons(env: Env, b: Re, n: nat, i: int, k: int, j: int)
    requires Lang(env, b, i, k) && Iter(env, b, n, k, j)
    ensures Iter(env, b, n + 1, i, j)
  {
  }

  lemma {:induction false} IterInside(env: Env, b: Re, n: nat, i: int, j: int)
    requires Iter(env, b, n, i, j)
    ensures 0 <= i <= j <= |env.input|
    decreases b, 2, n
  {
    if n > 0 {
      var k :| Lang(env, b, i, k) && Iter(env, b, n - 1, k, j);
      LangInside(env, b, i, k);
      IterInside(env, b, n - 1, k, j);
    }
  }

  lemma {:induction false} LangCatInside(env: Env, ts: seq<Re>, i: int, j: int)
    requires LangCat(env, ts, i, j)
    ensures 0 <= i <= j <= |env.input|
    decreases ts, 0
  {
    if ts != [] {
      var k := LangCatMid(env, ts, i, j);
      LangCatInside(env, ts[..|ts| - 1], i, k);
      LangInside(env, ts[|ts| - 1], k, j);
    }
  }

  // n matches in a row, taken from the left or from the right.
  lemma {:induction false} IterIsSteps(env: Env, b: Re, back: bool, n: nat, i: int, j: int)
    requires 0 <= i <= |env.input|
    ensures Steps(LangRel(env, b, back), n, i, j) <==> if back then Iter(env, b, n, j, i) else Iter(env, b, n, i, j)
    decreases n
  {
    hide Lang;
    var rel := LangRel(env, b, back);
    if n > 0 {
      if Steps(rel, n, i, j) {
        var k := StepsFirst(rel, n, i, j);
        if back {
          LangInside(env, b, k, i);
          IterIsSteps(env, b, back, n - 1, k, j);
          IterSnoc(env, b, n, j, k, i);
        } else {
          LangInside(env, b, i, k);
          IterIsSteps(env, b, back, n - 1, k, j);
          IterCons(env, b, n - 1, i, k, j);
        }
      }
      if back && Iter(env, b, n, j, i) {
        var k := IterLast(env, b, n, j, i);
        LangInside(env, b, k, i);
        IterIsSteps(env, b, back, n - 1, k, j);
        StepsCons(rel, n - 1, i, k, j);
      }
      if !back && Iter(env, b, n, i, j) {
        var k := IterFirst(env, b, n, i, j);
        LangInside(env, b, i, k);
        IterIsSteps(env, b, back, n - 1, k, j);
        StepsCons(rel, n - 1, i, k, j);
      }
    }
  }

  lemma {:induction false} IterSnoc(env: Env, b: Re, n: nat, i: int, k: int, j: int)
    requires n > 0 && Iter(env, b, n - 1, i, k) && Lang(env, b, k, j)
    ensures Iter(env, b, n, i, j)
    decreases n
  {
    if n == 1 {
      LangInside(env, b, k, j);
      assert Iter(env, b, 0, j, j);
    } else {
      var l :| Lang(env, b, i, l) && Iter(env, b, n - 2, l, k);
      IterSnoc(env, b, n - 1, l, k, j);
    }
  }

  lemma {:induction false} IterLast(env: Env, b: Re, n: nat, i: int, j: int) returns (k: int)
    requires n > 0 && Iter(env, b, n, i, j)
    ensures Iter(env, b, n - 1, i, k) && Lang(env, b, k, j)
    decreases n
  {
    var l :| Lang(env, b, i, l) && Iter(env, b, n - 1, l, j);
    LangInside(env, b, i, l);
    if n == 1 {
      k := i;
    } else {
      k := IterLast(env, b, n - 1, l, j);
    }
  }

  // ----- The equivalence -----

  lemma {:induction false} EndsReach(env: Env, r: Re, back: bool, cc: nat)
    requires WellFormed(r) && NoBackRef(r)
    ensures Reach(env, EndsFn(env, r, back, cc), LangRel(env, r, back))
    decreases r, 2
  {
    forall st, j | ValidSt(env, st)
      ensures Hits(EndsFn(env, r, back, cc)(st), j) <==> LangRel(env, r, back)(st.pos, j)
    {
      EndsHits(env, r, back, cc, st, j);
    }
  }

  // r has a success at j from st iff the language of r connects the two positions; forward the
  // match extends to the right of st, backward to the left.
  lemma {:induction false} EndsHits(env: Env, r: Re, back: bool, cc: nat, st: St, j: int)
    requires WellFormed(r) && NoBackRef(r) && ValidSt(env, st)
    ensures Hits(Ends(env, r, back, cc, st), j) <==> if back then Lang(env, r, j, st.pos) else Lang(env, r, st.pos, j)
    decreases r, 1
  {
    match r
    case Group(b) => EndsHits(env, b, back, cc, st, j);
    case Capture(b) => CaptureHits(env, r, back, cc, st, j);
    case Look(neg, behind, b) => LookHits(env, r, back, cc, st, j);
    case Quant(b, min, max, greedy) => QuantHits(env, r, back, cc, st, j);
    case Cat(ts) => CatHits(env, ts, back, cc, st, j);
    case Disj(ts) => DisjHits(env, ts, back, cc, st, j);
    case _ => LeafHits(env, r, back, cc, st, j);
  }

  lemma LeafHits(env: Env, r: Re, back: bool, cc: nat, st: St, j: int)
    requires r.Chr? || r.Dot? || r.Class? || r.LineStart? || r.LineEnd? || r.WordBoundary?
    requires ValidSt(env, st)
    ensures Hits(Ends(env, r, back, cc, st), j) <==> if back then Lang(env, r, j, st.pos) else Lang(env, r, st.pos, j)
  {
    hide CharAccepts;
    hide AtLineStart;
    hide AtLineEnd;
    hide AtWordBoundary;
    var xs := Ends(env, r, back, cc, st);
    if xs != [] {
      assert xs[0] in xs && xs == [xs[0]];
    }
  }

  lemma {:induction false} CaptureHits(env: Env, r: Re, back: bool, cc: nat, st: St, j: int)
    requires r.Capture? && WellFormed(r) && NoBackRef(r) && ValidSt(env, st)
    ensures Hits(Ends(env, r, back, cc, st), j) <==> if back then Lang(env, r, j, st.pos) else Lang(env, r, st.pos, j)
    decreases r, 0
  {
    var st1, g := SetCap(st, 2 * cc + BoolBit(back)), SetCapFn(2 * cc + BoolBit(!back));
    var xs := Ends(env, r.body, back, cc + 1, st1);
    EndsHits(env, r.body, back, cc + 1, st1, j);
    HitsFlatMap(xs, g, j);
    if Hits(xs, j) {
      var x :| x in xs && x.pos == j;
      assert g(x)[0] in g(x);
    }
  }

  lemma {:induction false} LookHits(env: Env, r: Re, back: bool, cc: nat, st: St, j: int)
    requires r.Look? && WellFormed(r) && NoBackRef(r) && ValidSt(env, st)
    ensures Hits(Ends(env, r, back, cc, st), j) <==> if back then Lang(env, r, j, st.pos) else Lang(env, r, st.pos, j)
    decreases r, 0
  {
    var b, behind := r.body, r.behind;
    var xs, out := Ends(env, b, behind, cc, st), Ends(env, r, back, cc, st);
    if xs != [] {
      EndsHits(env, b, behind, cc, st, xs[0].pos);
      assert Hits(xs, xs[0].pos);
      EndsMove(env, b, behind, cc, st, xs[0]);
      assert if behind then Lang(env, b, xs[0].pos, st.pos) else Lang(env, b, st.pos, xs[0].pos);
    }
    forall k | 0 <= k <= |env.input| && if behind then Lang(env, b, k, st.pos) else Lang(env, b, st.pos, k)
      ensures xs != []
    {
      EndsHits(env, b, behind, cc, st, k);
    }
    if out != [] {
      assert out[0] in out && out == [out[0]];
    }
  }

  lemma {:induction false} QuantHits(env: Env, r: Re, back: bool, cc: nat, st: St, j: int)
    requires r.Quant? && WellFormed(r) && NoBackRef(r) && ValidSt(env, st)
    ensures Hits(Ends(env, r, back, cc, st), j) <==> if back then Lang(env, r, j, st.pos) else Lang(env, r, st.pos, j)
    decreases r, 0
  {
    hide Hits;
    hide Exact;
    hide FlatMap;
    hide SomeSteps;
    var b, f, rel := r.body, EndsFn(env, r.body, back, cc), LangRel(env, r.body, back);
    var start := QuantStart(b, r.min, cc, st);
    ResetValid(env, st, cc, cc + Caps(b));
    EndsReach(env, b, back, cc);
    EndsMoves(env, b, back, cc);
    QuantReach(env, back, f, rel, r.min, r.max, r.greedy, start, j);
    QuantLang(env, r, back, st.pos, j);
    assert Ends(env, r, back, cc, st) == FlatMap(Exact(f, r.min, start), RestFn(env, f, back, r.min, r.max, r.greedy));
  }

  lemma LangRounds(env: Env, r: Re, i: int, j: int) returns (n: nat)
    requires r.Quant? && Lang(env, r, i, j)
    ensures Allowed(r.min, r.max, n) && Iter(env, r.body, n, i, j)
  {
    n :| r.min <= n && (r.max == INT32_MAX || n <= r.max) && Iter(env, r.body, n, i, j);
  }

  lemma QuantLang(env: Env, r: Re, back: bool, i: int, j: int)
    requires r.Quant? && 0 <= i <= |env.input|
    ensures SomeSteps(LangRel(env, r.body, back), r.min, r.max, 0, i, j) <==>
            if back then Lang(env, r, j, i) else Lang(env, r, i, j)
  {
    hide Steps;
    hide Iter;
    var b, rel := r.body, LangRel(env, r.body, back);
    if SomeSteps(rel, r.min, r.max, 0, i, j) {
      var n: nat :| Steps(rel, n, i, j) && Allowed(r.min, r.max, 0 + n);
      IterIsSteps(env, b, back, n, i, j);
    }
    if back && Lang(env, r, j, i) {
      var n := LangRounds(env, r, j, i);
      IterIsSteps(env, b, back, n, i, j);
      assert Allowed(r.min, r.max, 0 + n);
    }
    if !back && Lang(env, r, i, j) {
      var n := LangRounds(env, r, i, j);
      IterIsSteps(env, b, back, n, i, j);
      assert Allowed(r.min, r.max, 0 + n);
    }
  }

  lemma {:induction false} CatHits(env: Env, ts: seq<Re>, back: bool, cc: nat, st: St, j: int)
    requires WellFormedAll(ts) && NoBackRefs(ts) && ValidSt(env, st)
    ensures Hits(EndsCat(env, ts, back, cc, st), j) <==>
            if back then LangCat(env, ts, j, st.pos) else LangCat(env, ts, st.pos, j)
    decreases ts, 1
  {
    if ts == [] {
      assert EndsCat(env, ts, back, cc, st) == [st] && st in [st];
    } else {
      var n := |ts| - 1;
      var c1 := cc + CapsAll(ts[..n]);
      var last, init := EndsFn(env, ts[n], back, c1), EndsCatFn(env, ts[..n], back, cc);
      if back {
        HitsFlatMap(last(st), init, j);
        CatHitsBack(env, ts, cc, st, j);
      } else {
        HitsFlatMap(init(st), last, j);
        CatHitsForward(env, ts, cc, st, j);
      }
    }
  }

  lemma LangCatMid(env: Env, ts: seq<Re>, i: int, j: int) returns (k: int)
    requires ts != [] && LangCat(env, ts, i, j)
    ensures LangCat(env, ts[..|ts| - 1], i, k) && Lang(env, ts[|ts| - 1], k, j)
  {
    k :| LangCatAt(env, ts, i, k, j);
  }

  lemma LangCatSnoc(env: Env, ts: seq<Re>, i: int, k: int, j: int)
    requires ts != [] && LangCat(env, ts[..|ts| - 1], i, k) && Lang(env, ts[|ts| - 1], k, j)
    ensures LangCat(env, ts, i, j)
  {
    assert LangCatAt(env, ts, i, k, j);
  }

  lemma {:induction false} CatHitsForward(env: Env, ts: seq<Re>, cc: nat, st: St, j: int)
    requires ts != [] && WellFormedAll(ts) && NoBackRefs(ts) && ValidSt(env, st)
    ensures Through(EndsCatFn(env, ts[..|ts| - 1], false, cc)(st),
                    EndsFn(env, ts[|ts| - 1], false, cc + CapsAll(ts[..|ts| - 1])), j)
       <==> LangCat(env, ts, st.pos, j)
    decreases ts, 0
  {
    hide Ends;
    hide Lang;
    hide LangCat;
    var n := |ts| - 1;
    var c1 := cc + CapsAll(ts[..n]);
    var last, init := EndsFn(env, ts[n], false, c1), EndsCatFn(env, ts[..n], false, cc);
    if Through(init(st), last, j) {
      var x :| x in init(st) && Hits(last(x), j);
      EndsCatMove(env, ts[..n], false, cc, st, x);
      assert Hits(EndsCat(env, ts[..n], false, cc, st), x.pos);
      CatHits(env, ts[..n], false, cc, st, x.pos);
      EndsHits(env, ts[n], false, c1, x, j);
      LangCatSnoc(env, ts, st.pos, x.pos, j);
    }
    if LangCat(env, ts, st.pos, j) {
      var k := LangCatMid(env, ts, st.pos, j);
      CatHits(env, ts[..n], false, cc, st, k);
      var x :| x in EndsCat(env, ts[..n], false, cc, st) && x.pos == k;
      EndsCatMove(env, ts[..n], false, cc, st, x);
      EndsHits(env, ts[n], false, c1, x, j);
      assert x in init(st) && Hits(last(x), j);
    }
  }

  lemma {:induction false} CatHitsBack(env: Env, ts: seq<Re>, cc: nat, st: St, j: int)
    requires ts != [] && WellFormedAll(ts) && NoBackRefs(ts) && ValidSt(env, st)
    ensures Through(EndsFn(env, ts[|ts| - 1], true, cc + CapsAll(ts[..|ts| - 1]))(st),
                    EndsCatFn(env, ts[..|ts| - 1], true, cc), j)
       <==> LangCat(env, ts, j, st.pos)
    decreases ts, 0
  {
    hide Ends;
    hide Lang;
    hide LangCat;
    var n := |ts| - 1;
    var c1 := cc + CapsAll(ts[..n]);
    var last, init := EndsFn(env, ts[n], true, c1), EndsCatFn(env, ts[..n], true, cc);
    if Through(last(st), init, j) {
      var x :| x in last(st) && Hits(init(x), j);
      EndsMove(env, ts[n], true, c1, st, x);
      assert Hits(Ends(env, ts[n], true, c1, st), x.pos);
      EndsHits(env, ts[n], true, c1, st, x.pos);
      CatHits(env, ts[..n], true, cc, x, j);
      LangCatSnoc(env, ts, j, x.pos, st.pos);
    }
    if LangCat(env, ts, j, st.pos) {
      var k := LangCatMid(env, ts, j, st.pos);
      EndsHits(env, ts[n], true, c1, st, k);
      var x :| x in Ends(env, ts[n], true, c1, st) && x.pos == k;
      EndsMove(env, ts[n], true, c1, st, x);
      CatHits(env, ts[..n], true, cc, x, j);
      assert x in last(st) && Hits(init(x), j);
    }
  }

  lemma {:induction false} DisjHits(env: Env, ts: seq<Re>, back: bool, cc: nat, st: St, j: int)
    requires WellFormedAll(ts) && NoBackRefs(ts) && ValidSt(env, st)
    ensures Hits(EndsDisj(env, ts, back, cc, st), j)
       <==> exists k :: 0 <= k < |ts| && if back then Lang(env, ts[k], j, st.pos) else Lang(env, ts[k], st.pos, j)
    decreases ts, 0
  {
    if ts != [] {
      var n := |ts| - 1;
      var c1 := cc + CapsAll(ts[..n]);
      DisjHits(env, ts[..n], back, cc, st, j);
      EndsHits(env, ts[n], back, c1, st, j);
      HitsAppend(EndsDisj(env, ts[..n], back, cc, st), Ends(env, ts[n], back, c1, st), j);
      forall k | 0 <= k < |ts| ensures k == n || ts[k] == ts[..n][k] {
      }
    }
  }
}
