// Emitted code is closed: every relative jump lands on an instruction of its own block (or on its
// end), with the operand stack at the depth the linear scan of compute_stack_size assigns there.

module RegexpClosed {
  import opened Basics
  import opened CharRanges
  import opened RegexpCode
  import opened RegexpCompile

  // Net effect of an instruction on the depth of the operand stack.
  function Effect(i: Instr): int {
    if i.IPushI32? || i.IPushCharPos? then 1 else if i.IDrop? || i.IBneCharPos? then -1 else 0
  }

  function Depth(b: seq<Instr>): int {
    if b == [] then 0 else Effect(b[0]) + Depth(b[1..])
  }

  // compute_stack_size: the deepest point of a scan that starts at depth d.
  function MaxDepth(b: seq<Instr>, d: int): (m: int)
    ensures m >= d
  {
    if b == [] then d
    else
      var rest := MaxDepth(b[1..], d + Effect(b[0]));
      if rest > d then rest else d
  }

  function Jump(i: Instr): Option<int> {
    match i
    case IGoto(off) => Some(off)
    case ISplit(_, off) => Some(off)
    case ILoop(off) => Some(off)
    case IBneCharPos(off) => Some(off)
    case ILook(_, off) => Some(off)
    case IGreedy(next, _, _, _) => Some(next)
    case _ => None
  }

  // Instructions that look at the top of the operand stack.
  function Needs(i: Instr): int {
    if i.ILoop? || i.IDrop? || i.IBneCharPos? then 1 else 0
  }

  // Byte offset off of the block is an instruction boundary of depth d.
  ghost predicate Target(b: seq<Instr>, off: int, d: int) {
    exists t :: 0 <= t <= |b| && TargetIs(b, t, off, d)
  }

  ghost predicate TargetIs(b: seq<Instr>, t: int, off: int, d: int)
    requires 0 <= t <= |b|
  {
    TotalSize(b[..t]) == off && Depth(b[..t]) == d
  }

  // Intervals of a range instruction, as its binary search needs them.
  ghost predicate Sorted(pairs: seq<Pair>) {
    && pairs != []
    && (forall k :: 0 <= k < |pairs| ==> pairs[k].lo <= pairs[k].hi)
    && (forall j, k :: 0 <= j < k < |pairs| ==> pairs[j].hi < pairs[k].lo)
  }

  ghost predicate RangesOk(i: Instr) {
    (i.IRange? ==> Sorted(i.pairs)) && (i.IRange32? ==> Sorted(i.pairs))
  }

  // Instruction i at byte pos and depth d of the block.
  ghost predicate InstrOk(b: seq<Instr>, i: Instr, pos: int, d: int) {
    && d >= Needs(i) && RangesOk(i)
    && (Jump(i).Some? ==> Target(b, pos + i.Size() + Jump(i).value, d + Effect(i)))
  }

  // All instructions of the part c, which starts at byte pos and depth d of the block b.
  ghost predicate PartOk(b: seq<Instr>, c: seq<Instr>, pos: int, d: int)
    decreases |c|
  {
    c == [] || (InstrOk(b, c[0], pos, d) && PartOk(b, c[1..], pos + c[0].Size(), d + Effect(c[0])))
  }

  ghost predicate ClosedBlock(b: seq<Instr>) {
    PartOk(b, b, 0, 0) && Depth(b) == 0
  }

  // ----- Composition -----

  lemma {:induction false} DepthConcat(a: seq<Instr>, b: seq<Instr>)
    ensures Depth(a + b) == Depth(a) + Depth(b)
  {
    if a == [] {
      assert a + b == b;
    } else {
      DepthConcat(a[1..], b);
      assert (a + b)[1..] == a[1..] + b;
    }
  }

  lemma DepthOne(i: Instr)
    ensures Depth([i]) == Effect(i)
  {
    assert Depth([i][1..]) == 0;
  }

  lemma {:induction false} PartConcat(b: seq<Instr>, x: seq<Instr>, y: seq<Instr>, pos: int, d: int)
    ensures PartOk(b, x + y, pos, d) <==> PartOk(b, x, pos, d) && PartOk(b, y, pos + TotalSize(x), d + Depth(x))
    decreases |x|
  {
    if x == [] {
      assert x + y == y;
    } else {
      PartConcat(b, x[1..], y, pos + x[0].Size(), d + Effect(x[0]));
      assert (x + y)[1..] == x[1..] + y;
    }
  }

  lemma PartOne(b: seq<Instr>, i: Instr, pos: int, d: int)
    ensures PartOk(b, [i], pos, d) <==> InstrOk(b, i, pos, d)
  {
    assert [i][1..] == [];
  }

  // A boundary of the middle block is a boundary of the whole.
  lemma TargetEmbed(pre: seq<Instr>, b: seq<Instr>, post: seq<Instr>, off: int, d: int)
    requires Target(b, off, d)
    ensures Target(pre + b + post, TotalSize(pre) + off, Depth(pre) + d)
  {
    hide TotalSize;
    hide Depth;
    var t :| 0 <= t <= |b| && TargetIs(b, t, off, d);
    assert (pre + b + post)[..|pre| + t] == pre + b[..t];
    TotalSizeConcat(pre, b[..t]);
    DepthConcat(pre, b[..t]);
    assert TargetIs(pre + b + post, |pre| + t, TotalSize(pre) + off, Depth(pre) + d);
  }

  // Every cut of a block is a boundary.
  lemma TargetCut(x: seq<Instr>, y: seq<Instr>)
    ensures Target(x + y, TotalSize(x), Depth(x))
  {
    assert (x + y)[..|x|] == x;
    assert TargetIs(x + y, |x|, TotalSize(x), Depth(x));
  }

  lemma {:induction false} PartEmbed(pre: seq<Instr>, b: seq<Instr>, post: seq<Instr>, c: seq<Instr>, pos: int, d: int)
    requires PartOk(b, c, pos, d) && Depth(pre) >= 0
    ensures PartOk(pre + b + post, c, TotalSize(pre) + pos, Depth(pre) + d)
    decreases |c|
  {
    if c != [] {
      if Jump(c[0]).Some? {
        TargetEmbed(pre, b, post, pos + c[0].Size() + Jump(c[0]).value, d + Effect(c[0]));
      }
      PartEmbed(pre, b, post, c[1..], pos + c[0].Size(), d + Effect(c[0]));
    }
  }

  // A closed block in the middle of a larger one.
  lemma MiddleOk(pre: seq<Instr>, b: seq<Instr>, post: seq<Instr>)
    requires ClosedBlock(b) && Depth(pre) >= 0
    ensures PartOk(pre + b + post, b, TotalSize(pre), Depth(pre))
  {
    PartEmbed(pre, b, post, b, 0, 0);
  }

  lemma ThreeParts(pre: seq<Instr>, b: seq<Instr>, post: seq<Instr>)
    requires PartOk(pre + b + post, pre, 0, 0)
    requires PartOk(pre + b + post, b, TotalSize(pre), Depth(pre))
    requires PartOk(pre + b + post, post, TotalSize(pre) + TotalSize(b), Depth(pre) + Depth(b))
    requires Depth(pre) + Depth(b) + Depth(post) == 0
    ensures ClosedBlock(pre + b + post)
  {
    hide PartOk;
    hide TotalSize;
    hide Depth;
    var w := pre + b + post;
    PartConcat(w, pre, b, 0, 0);
    TotalSizeConcat(pre, b);
    DepthConcat(pre, b);
    PartConcat(w, pre + b, post, 0, 0);
    DepthConcat(pre + b, post);
  }

  lemma ClosedConcat(a: seq<Instr>, b: seq<Instr>)
    requires ClosedBlock(a) && ClosedBlock(b)
    ensures ClosedBlock(a + b)
  {
    hide PartOk;
    hide TotalSize;
    hide Depth;
    assert a + b == [] + a + b && a + b == a + b + [];
    NothingDeep();
    MiddleOk([], a, b);
    MiddleOk(a, b, []);
    PartConcat(a + b, a, b, 0, 0);
    DepthConcat(a, b);
  }

  lemma NothingDeep()
    ensures TotalSize([]) == 0 && Depth([]) == 0 && ClosedBlock([])
    ensures forall b, pos, d {:trigger PartOk(b, [], pos, d)} :: PartOk(b, [], pos, d)
  {
  }

  // One instruction that does not jump and leaves the stack alone.
  lemma ClosedOne(i: Instr)
    requires Jump(i).None? && Effect(i) == 0 && Needs(i) == 0 && RangesOk(i)
    ensures ClosedBlock([i])
  {
    PartOne([i], i, 0, 0);
    DepthOne(i);
  }

  // ----- The shapes the compiler emits -----

  // split over a block
  lemma ClosedSplit(greedy: bool, b: seq<Instr>)
    requires ClosedBlock(b)
    ensures ClosedBlock([ISplit(greedy, TotalSize(b))] + b)
  {
    hide PartOk;
    hide TotalSize;
    hide Depth;
    var split := ISplit(greedy, TotalSize(b));
    var w := [split] + b + [];
    assert w == [split] + b;
    HeadOf(split);
    TargetCut([split] + b, []);
    TotalSizeConcat([split], b);
    DepthConcat([split], b);
    PartOne(w, split, 0, 0);
    MiddleOk([split], b, []);
    NothingDeep();
    ThreeParts([split], b, []);
  }

  lemma HeadOf(i: Instr)
    ensures TotalSize([i]) == i.Size() && Depth([i]) == Effect(i)
  {
    TotalSizeOne(i);
    DepthOne(i);
  }

  lemma TwoOf(i: Instr, j: Instr)
    ensures TotalSize([i, j]) == i.Size() + j.Size() && Depth([i, j]) == Effect(i) + Effect(j)
  {
    hide TotalSize;
    hide Depth;
    HeadOf(i);
    HeadOf(j);
    assert [i, j] == [i] + [j];
    TotalSizeConcat([i], [j]);
    DepthConcat([i], [j]);
  }

  lemma PartTwo(b: seq<Instr>, i: Instr, j: Instr, pos: int, d: int)
    ensures PartOk(b, [i, j], pos, d) <==> InstrOk(b, i, pos, d) && InstrOk(b, j, pos + i.Size(), d + Effect(i))
  {
    assert [i, j][1..] == [j];
    PartOne(b, j, pos + i.Size(), d + Effect(i));
  }

  lemma CutAt(x: seq<Instr>, y: seq<Instr>, w: seq<Instr>)
    requires x + y == w
    ensures Target(w, TotalSize(x), Depth(x))
  {
    hide TotalSize;
    hide Depth;
    hide Target;
    TargetCut(x, y);
  }

  // The three cuts of pre + b + post.
  lemma Cuts(pre: seq<Instr>, b: seq<Instr>, post: seq<Instr>)
    ensures var w := pre + b + post;
            && Target(w, 0, 0)
            && Target(w, TotalSize(pre), Depth(pre))
            && Target(w, TotalSize(pre) + TotalSize(b), Depth(pre) + Depth(b))
            && Target(w, TotalSize(pre) + TotalSize(b) + TotalSize(post), Depth(pre) + Depth(b) + Depth(post))
  {
    hide TotalSize;
    hide Depth;
    hide Target;
    var w := pre + b + post;
    CutAt([], w, w);
    CutAt(pre, b + post, w);
    CutAt(pre + b, post, w);
    CutAt(w, [], w);
    NothingDeep();
    TotalSizeConcat(pre, b);
    TotalSizeConcat(pre + b, post);
    DepthConcat(pre, b);
    DepthConcat(pre + b, post);
  }

  lemma ClosedStar(atom: seq<Instr>, greedy: bool, check: bool)
    requires ClosedBlock(atom)
    ensures ClosedBlock(StarCode(atom, greedy, check))
  {
    hide PartOk;
    hide TotalSize;
    hide Depth;
    hide Target;
    var len: int, z := TotalSize(atom), if check then 1 else 0;
    var split := ISplit(greedy, len + 5 + z);
    var last := if check then IBneCharPos(-(len + 10 + z)) else IGoto(-(len + 10 + z));
    var pre := if check then [split, IPushCharPos] else [split];
    var w := pre + atom + [last];
    assert w == StarCode(atom, greedy, check);
    HeadOf(split);
    HeadOf(last);
    TwoOf(split, IPushCharPos);
    Cuts(pre, atom, [last]);
    PartOne(w, split, 0, 0);
    PartTwo(w, split, IPushCharPos, 0, 0);
    PartOne(w, last, TotalSize(pre) + len, Depth(pre));
    MiddleOk(pre, atom, [last]);
    ThreeParts(pre, atom, [last]);
  }

  // The split in front of a counted loop body, seen from inside.
  lemma ClosedUpTo(atom: seq<Instr>, n: int, greedy: bool)
    requires ClosedBlock(atom)
    ensures ClosedBlock(UpToCode(atom, n, greedy))
  {
    hide PartOk;
    hide TotalSize;
    hide Depth;
    hide Target;
    var len: int := TotalSize(atom);
    var push, split, loop := IPushI32(n), ISplit(greedy, len + 5), ILoop(-(len + 10));
    var pre, post := [push, split], [loop, IDrop];
    var w := pre + atom + post;
    assert w == UpToCode(atom, n, greedy);
    TwoOf(push, split);
    TwoOf(loop, IDrop);
    HeadOf(push);
    HeadOf(loop);
    Cuts(pre, atom, post);
    assert w == [push] + ([split] + atom + post);
    TargetCut([push], [split] + atom + post);
    assert w == (pre + atom + [loop]) + [IDrop];
    TargetCut(pre + atom + [loop], [IDrop]);
    TotalSizeConcat(pre + atom, [loop]);
    TotalSizeConcat(pre, atom);
    DepthConcat(pre + atom, [loop]);
    DepthConcat(pre, atom);
    PartTwo(w, push, split, 0, 0);
    PartTwo(w, loop, IDrop, TotalSize(pre) + len, Depth(pre));
    MiddleOk(pre, atom, post);
    ThreeParts(pre, atom, post);
  }

  lemma ClosedExact(atom: seq<Instr>, n: int)
    requires ClosedBlock(atom)
    ensures ClosedBlock(ExactCode(atom, n))
  {
    hide PartOk;
    hide TotalSize;
    hide Depth;
    hide Target;
    var len: int := TotalSize(atom);
    var push, loop := IPushI32(n), ILoop(-(len + 5));
    var pre, post := [push], [loop, IDrop];
    var w := pre + atom + post;
    assert w == ExactCode(atom, n);
    HeadOf(push);
    TwoOf(loop, IDrop);
    Cuts(pre, atom, post);
    PartOne(w, push, 0, 0);
    PartTwo(w, loop, IDrop, TotalSize(pre) + len, Depth(pre));
    MiddleOk(pre, atom, post);
    ThreeParts(pre, atom, post);
  }

  lemma ClosedPlus(atom: seq<Instr>, greedy: bool)
    requires ClosedBlock(atom)
    ensures ClosedBlock(atom + [ISplit(!greedy, -(TotalSize(atom) + 5))])
  {
    hide PartOk;
    hide TotalSize;
    hide Depth;
    hide Target;
    var len: int := TotalSize(atom);
    var split := ISplit(!greedy, -(len + 5));
    var w := [] + atom + [split];
    assert w == atom + [split];
    NothingDeep();
    HeadOf(split);
    Cuts([], atom, [split]);
    PartOne(w, split, len, 0);
    MiddleOk([], atom, [split]);
    ThreeParts([], atom, [split]);
  }

  // An instruction that jumps behind the match that follows a block: look-around and the
  // straight-line quantifier.
  lemma ClosedWithMatch(i: Instr, b: seq<Instr>)
    requires ClosedBlock(b) && (i.ILook? || i.IGreedy?) && Jump(i) == Some(TotalSize(b) as int + 1)
    ensures ClosedBlock([i] + b + [IMatch])
  {
    hide PartOk;
    hide TotalSize;
    hide Depth;
    hide Target;
    var w := [i] + b + [IMatch];
    HeadOf(i);
    HeadOf(IMatch);
    Cuts([i], b, [IMatch]);
    PartOne(w, i, 0, 0);
    PartOne(w, IMatch, TotalSize([i]) + TotalSize(b), Depth([i]) + Depth(b));
    MiddleOk([i], b, [IMatch]);
    ThreeParts([i], b, [IMatch]);
  }

  lemma ClosedAlt(a: seq<Instr>, b: seq<Instr>)
    requires ClosedBlock(a) && ClosedBlock(b)
    ensures ClosedBlock([ISplit(true, TotalSize(a) + 5)] + a + [IGoto(TotalSize(b))] + b)
  {
    var split, goto := ISplit(true, TotalSize(a) + 5), IGoto(TotalSize(b));
    AltParts(split, a, goto, b);
  }

  lemma AltParts(split: Instr, a: seq<Instr>, goto: Instr, b: seq<Instr>)
    requires ClosedBlock(a) && ClosedBlock(b)
    requires split == ISplit(true, TotalSize(a) + 5) && goto == IGoto(TotalSize(b))
    ensures ClosedBlock([split] + a + [goto] + b)
  {
    hide PartOk;
    hide TotalSize;
    hide Depth;
    hide Target;
    var w := [split] + a + [goto] + b;
    var tail := [goto] + b;
    assert w == [split] + a + tail;
    HeadOf(split);
    HeadOf(goto);
    TotalSizeConcat([goto], b);
    DepthConcat([goto], b);
    Cuts([split], a, tail);
    assert w == ([split] + a + [goto]) + b;
    TargetCut([split] + a + [goto], b);
    TotalSizeConcat([split] + a, [goto]);
    TotalSizeConcat([split], a);
    DepthConcat([split] + a, [goto]);
    DepthConcat([split], a);
    PartOne(w, split, 0, 0);
    MiddleOk([split], a, tail);
    assert w == ([split] + a + [goto]) + b + [];
    MiddleOk([split] + a + [goto], b, []);
    PartOne(w, goto, 5 + TotalSize(a), 0);
    PartConcat(w, [goto], b, 5 + TotalSize(a), 0);
    ThreeParts([split], a, tail);
  }

  lemma ClosedQuant(atom: seq<Instr>, lo: int, hi: int, min: int, max: int, greedy: bool)
    requires ClosedBlock(atom)
    ensures ClosedBlock(QuantCode(atom, lo, hi, min, max, greedy))
  {
    hide ClosedBlock;
    var len: int := TotalSize(atom);
    var check := greedy && CheckAdvance(atom) == 0;
    NothingDeep();
    if greedy && max > 0 && SimpleCount(atom) > 0 {
      ClosedWithMatch(IGreedy(len + 1, min, max, SimpleCount(atom)), atom);
    } else if min == 0 {
      if lo != hi {
        ClosedOne(ISaveReset(lo, hi - 1));
      }
      ClosedSplit(greedy, atom);
      ClosedStar(atom, greedy, check);
      ClosedUpTo(atom, max, greedy);
      ClosedConcat(if lo != hi then [ISaveReset(lo, hi - 1)] else [],
                   if max == 0 then []
                   else if max == 1 then [ISplit(greedy, len)] + atom
                   else if max == INT32_MAX then StarCode(atom, greedy, check)
                   else UpToCode(atom, max, greedy));
    } else if min == 1 && max == INT32_MAX && !check {
      ClosedPlus(atom, greedy);
    } else {
      ClosedExact(atom, min);
      ClosedStar(atom, greedy, check);
      ClosedUpTo(atom, max - min, greedy);
      ClosedConcat(if min == 1 then atom else ExactCode(atom, min),
                   if max == INT32_MAX then StarCode(atom, greedy, check)
                   else if max > min then UpToCode(atom, max - min, greedy)
                   else []);
    }
  }

  lemma RangeInstrSorted(points: seq<u32>)
    requires StrictlyAscending(points) && |points| % 2 == 0
    ensures RangesOk(RangeInstr(points))
  {
    var i, n := RangeInstr(points), |points| / 2;
    if i.IRange? {
      forall k | 0 <= k < n ensures i.pairs[k].lo <= i.pairs[k].hi {
        assert points[2 * k] < points[2 * k + 1];
      }
      forall j, k | 0 <= j < k < n ensures i.pairs[j].hi < i.pairs[k].lo {
        assert points[2 * j + 1] < points[2 * k];
      }
    } else if i.IRange32? {
      forall k | 0 <= k < n ensures i.pairs[k].lo <= i.pairs[k].hi {
        assert points[2 * k] < points[2 * k + 1];
      }
      forall j, k | 0 <= j < k < n ensures i.pairs[j].hi < i.pairs[k].lo {
        assert points[2 * j + 1] < points[2 * k];
      }
    }
  }

  lemma ClosedOriented(i: Instr, back: bool)
    requires IsCharOp(i) && RangesOk(i)
    ensures ClosedBlock(Oriented(i, back))
  {
    ClosedOne(i);
    if back {
      ClosedOne(IPrev);
      ClosedConcat([IPrev], [i]);
      ClosedConcat([IPrev] + [i], [IPrev]);
      assert Oriented(i, true) == [IPrev] + [i] + [IPrev];
    }
  }

  lemma ClosedLeaf(r: Re, dotall: bool, back: bool, cc: nat)
    requires WellFormed(r)
    requires r.Chr? || r.Dot? || r.Class? || r.LineStart? || r.LineEnd? || r.WordBoundary? || r.BackRef?
    ensures ClosedBlock(Compile(r, dotall, back, cc))
  {
    hide ClosedBlock;
    match r
    case Chr(c) => ClosedOriented(if c <= 0xFFFF then IChar(c) else IChar32(c), back);
    case Dot => ClosedOriented(if dotall then IAny else IDot, back);
    case Class(points) =>
      RangeInstrSorted(points);
      ClosedOriented(RangeInstr(points), back);
    case LineStart => ClosedOne(ILineStart);
    case LineEnd => ClosedOne(ILineEnd);
    case WordBoundary(neg) => ClosedOne(IWordBoundary(neg));
    case BackRef(n) => ClosedOne(IBackRef(back, n));
  }

  // Every construct of the pattern language, in either direction, compiles to a closed block.
  lemma CaptureClosed(body: seq<Instr>, back: bool, cc: nat)
    requires ClosedBlock(body)
    ensures ClosedBlock([ISave(back, cc)] + body + [ISave(!back, cc)])
  {
    hide ClosedBlock;
    ClosedOne(ISave(back, cc));
    ClosedOne(ISave(!back, cc));
    ClosedConcat([ISave(back, cc)], body);
    ClosedConcat([ISave(back, cc)] + body, [ISave(!back, cc)]);
  }

  lemma {:induction false} CompileClosed(r: Re, dotall: bool, back: bool, cc: nat)
    requires WellFormed(r)
    ensures ClosedBlock(Compile(r, dotall, back, cc))
    decreases r, 1
  {
    hide ClosedBlock;
    match r
    case Group(b) => CompileClosed(b, dotall, back, cc);
    case Capture(b) =>
      CompileClosed(b, dotall, back, cc + 1);
      CaptureClosed(Compile(b, dotall, back, cc + 1), back, cc);
    case Look(neg, behind, b) =>
      CompileClosed(b, dotall, behind, cc);
      var body := Compile(b, dotall, behind, cc);
      ClosedWithMatch(ILook(neg, TotalSize(body) + 1), body);
    case Quant(b, min, max, greedy) =>
      CompileClosed(b, dotall, back, cc);
      ClosedQuant(Compile(b, dotall, back, cc), cc, cc + Caps(b), min, max, greedy);
    case Cat(ts) => CompileCatClosed(ts, dotall, back, cc);
    case Disj(ts) => CompileDisjClosed(ts, dotall, back, cc);
    case _ => ClosedLeaf(r, dotall, back, cc);
  }

  lemma {:induction false} CompileCatClosed(ts: seq<Re>, dotall: bool, back: bool, cc: nat)
    requires WellFormedAll(ts)
    ensures ClosedBlock(CompileCat(ts, dotall, back, cc))
    decreases ts, 0
  {
    hide ClosedBlock;
    NothingDeep();
    if ts != [] {
      var n := |ts| - 1;
      var init := CompileCat(ts[..n], dotall, back, cc);
      var last := Compile(ts[n], dotall, back, cc + CapsAll(ts[..n]));
      CompileCatClosed(ts[..n], dotall, back, cc);
      CompileClosed(ts[n], dotall, back, cc + CapsAll(ts[..n]));
      ClosedConcat(init, last);
      ClosedConcat(last, init);
    }
  }

  lemma {:induction false} CompileDisjClosed(ts: seq<Re>, dotall: bool, back: bool, cc: nat)
    requires WellFormedAll(ts)
    ensures ClosedBlock(CompileDisj(ts, dotall, back, cc))
    decreases ts, 0
  {
    hide ClosedBlock;
    NothingDeep();
    if ts != [] {
      var n := |ts| - 1;
      CompileClosed(ts[n], dotall, back, cc + CapsAll(ts[..n]));
      if n > 0 {
        CompileDisjClosed(ts[..n], dotall, back, cc);
        ClosedAlt(CompileDisj(ts[..n], dotall, back, cc), Compile(ts[n], dotall, back, cc + CapsAll(ts[..n])));
      }
    }
  }
}
