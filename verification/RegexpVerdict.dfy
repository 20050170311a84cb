// What re_check_advance and re_is_simple_quantifier say of compiled code, told from the tree. This
// fixes which loops get a check for empty rounds and which get the compact form.

module RegexpVerdict {
  import opened CharRanges
  import opened RegexpCode
  import opened RegexpCompile
  import opened RegexpCorrect
  import opened RegexpTheorem
  import opened RegexpHalts

  // ----- Told from the tree -----

  // How many characters r consumes if it is straight-line: characters read forward and assertions in
  // a row, without groups that capture and without a loop. Otherwise -1.
  function Width(r: Re, back: bool): (n: int)
    ensures n >= -1
    decreases r, 1
  {
    match r
    case Chr(_) => if back then -1 else 1
    case Dot => if back then -1 else 1
    case Class(_) => if back then -1 else 1
    case LineStart => 0
    case LineEnd => 0
    case WordBoundary(_) => 0
    case Group(b) => Width(b, back)
    case Quant(b, min, max, greedy) =>
      if max == 0 then (if Caps(b) == 0 then 0 else -1)
      else if min == 1 && max == 1 && !(greedy && Width(b, back) > 0) then Width(b, back)
      else -1
    case Cat(ts) => WidthCat(ts, back)
    case Disj(ts) => if |ts| == 1 then Width(ts[0], back) else if ts == [] then 0 else -1
    case _ => -1
  }

  function WidthCat(ts: seq<Re>, back: bool): (n: int)
    ensures n >= -1
    decreases ts, 0
  {
    if ts == [] then 0
    else
      var init, last := WidthCat(ts[..|ts| - 1], back), Width(ts[|ts| - 1], back);
      if init < 0 || last < 0 then -1 else init + last
  }

  // What r starts with, in the direction of matching: a character; nothing but assertions, groups
  // and back references; or a choice.
  function Lead(r: Re, back: bool): Kind
    decreases r, 1
  {
    match r
    case Chr(_) => Advances
    case Dot => Advances
    case Class(_) => Advances
    case Group(b) => Lead(b, back)
    case Capture(b) => Lead(b, back)
    case Look(_, _, _) => Unpredictable
    case Quant(b, min, max, greedy) =>
      if max == 0 then Undetermined
      else if min == 0 || (greedy && Width(b, back) > 0) then Unpredictable
      else if Lead(b, back).Undetermined? && max > 1 then Unpredictable
      else Lead(b, back)
    case Cat(ts) => LeadCat(ts, back)
    case Disj(ts) => if |ts| == 1 then Lead(ts[0], back) else if ts == [] then Undetermined else Unpredictable
    case _ => Undetermined
  }

  function LeadCat(ts: seq<Re>, back: bool): Kind
    decreases ts, 0
  {
    if ts == [] then Undetermined
    else
      var init, last := LeadCat(ts[..|ts| - 1], back), Lead(ts[|ts| - 1], back);
      if back then Then(last, init) else Then(init, last)
  }

  function Then(a: Kind, b: Kind): Kind {
    if a.Undetermined? then b else a
  }

  // The groups that r sets or clears. Of the groups of a quantifier that may take no round, the code
  // that clears them counts all but the last.
  function Sets(r: Re, cc: nat): set<int>
    decreases r, 1
  {
    match r
    case Group(b) => Sets(b, cc)
    case Capture(b) => {cc} + Sets(b, cc + 1)
    case Look(_, _, b) => Sets(b, cc)
    case Quant(b, min, max, _) =>
      (if max > 0 then Sets(b, cc) else {}) + (if min == 0 then AllButLast(cc, cc + Caps(b)) else {})
    case Cat(ts) => SetsAll(ts, cc)
    case Disj(ts) => SetsAll(ts, cc)
    case _ => {}
  }

  function SetsAll(ts: seq<Re>, cc: nat): set<int>
    decreases ts, 0
  {
    if ts == [] then {}
    else SetsAll(ts[..|ts| - 1], cc) + Sets(ts[|ts| - 1], cc + CapsAll(ts[..|ts| - 1]))
  }

  function AllButLast(lo: int, hi: int): set<int>
    decreases hi - lo
  {
    if lo + 1 >= hi then {} else {lo} + AllButLast(lo + 1, hi)
  }

  // The groups that back references of r read.
  function Reads(r: Re): set<int>
    decreases r, 1
  {
    match r
    case BackRef(n) => {n}
    case Group(b) => Reads(b)
    case Capture(b) => Reads(b)
    case Look(_, _, b) => Reads(b)
    case Quant(b, _, max, _) => if max > 0 then Reads(b) else {}
    case Cat(ts) => ReadsAll(ts)
    case Disj(ts) => ReadsAll(ts)
    case _ => {}
  }

  function ReadsAll(ts: seq<Re>): set<int>
    decreases ts, 0
  {
    if ts == [] then {} else ReadsAll(ts[..|ts| - 1]) + Reads(ts[|ts| - 1])
  }

  // ----- The scans, all at once -----

  datatype Scan = Scan(count: int, kind: Kind, saves: set<int>, refs: set<int>)

  function ScanOf(b: seq<Instr>): Scan {
    Scan(SimpleCount(b), FirstKind(b), Saves(b), Refs(b))
  }

  function Join(a: Scan, b: Scan): Scan {
    Scan(if a.count < 0 || b.count < 0 then -1 else a.count + b.count, Then(a.kind, b.kind), a.saves + b.saves,
         a.refs + b.refs)
  }

  lemma {:induction false} SavesConcat(a: seq<Instr>, b: seq<Instr>)
    ensures Saves(a + b) == Saves(a) + Saves(b)
    decreases |a|
  {
    if a == [] {
      assert a + b == b;
    } else {
      SavesConcat(a[1..], b);
      assert (a + b)[1..] == a[1..] + b;
    }
  }

  lemma Joined(a: seq<Instr>, b: seq<Instr>)
    ensures ScanOf(a + b) == Join(ScanOf(a), ScanOf(b))
  {
    hide SimpleCount;
    hide FirstKind;
    hide Saves;
    hide Refs;
    SimpleCountConcat(a, b);
    FirstKindConcat(a, b);
    SavesConcat(a, b);
    RefsConcat(a, b);
  }

  lemma {:induction false} SpanIs(lo: int, hi: int)
    ensures AllButLast(lo, hi) == Span(lo, hi - 1)
    decreases hi - lo
  {
    if lo + 1 < hi {
      SpanIs(lo + 1, hi);
    }
  }

  // An opcode that is not part of straight-line code, saves nothing and refers to nothing.
  function Plain(kind: Kind): Scan {
    Scan(-1, kind, {}, {})
  }

  lemma One(i: Instr)
    ensures i.IPrev? || i.IPushI32? || i.IPushCharPos? || i.IDrop? ==> ScanOf([i]) == Plain(Undetermined)
    ensures i.ISplit? || i.IGoto? || i.ILoop? || i.IBneCharPos? || i.IGreedy? || i.ILook? || i.IMatch? ==>
              ScanOf([i]) == Plain(Unpredictable)
    ensures IsCharOp(i) ==> ScanOf([i]) == Scan(1, Advances, {}, {})
    ensures IsAssertOp(i) ==> ScanOf([i]) == Scan(0, Undetermined, {}, {})
    ensures i.IBackRef? ==> ScanOf([i]) == Scan(-1, Undetermined, {}, {i.n})
    ensures i.ISave? ==> ScanOf([i]) == Scan(-1, Undetermined, {i.n}, {})
    ensures i.ISaveReset? ==> ScanOf([i]) == Scan(-1, Undetermined, Span(i.lo, i.hi), {})
  {
    var none: seq<Instr> := [];
    assert [i][1..] == none;
    assert SimpleCount(none) == 0 && FirstKind(none) == Undetermined && Saves(none) == {} && Refs(none) == {};
    assert FirstKind([i]) == if IsCharOp(i) then Advances
                             else if IsAssertOp(i) || i.IPushI32? || i.IPushCharPos? || i.IDrop? || i.IPrev?
                                     || i.ISave? || i.ISaveReset? || i.IBackRef? then Undetermined
                             else Unpredictable;
    assert SimpleCount([i]) == if IsCharOp(i) then 1 else if IsAssertOp(i) then 0 else -1;
    assert Refs([i]) == if i.IBackRef? then {i.n} else {};
    assert Saves([i]) == if i.ISave? then {i.n} else if i.ISaveReset? then Span(i.lo, i.hi) else {};
  }

  // Code around an atom that ends the straight line.
  lemma Around(a: seq<Instr>, atom: seq<Instr>, c: seq<Instr>, k: Kind, l: Kind)
    requires ScanOf(a) == Plain(k) && ScanOf(c) == Plain(l)
    ensures ScanOf(a + atom + c)
         == Scan(-1, Then(Then(k, ScanOf(atom).kind), l), ScanOf(atom).saves, ScanOf(atom).refs)
  {
    hide ScanOf;
    Joined(a, atom);
    Joined(a + atom, c);
  }

  lemma Two(i: Instr, j: Instr, k: Kind, l: Kind)
    requires ScanOf([i]) == Plain(k) && ScanOf([j]) == Plain(l)
    ensures ScanOf([i, j]) == Plain(Then(k, l))
  {
    hide ScanOf;
    Joined([i], [j]);
    assert [i] + [j] == [i, j];
  }

  // A loop around the atom: only what is saved and referred to shows, and what comes first if a
  // round is mandatory.
  lemma StarScan(atom: seq<Instr>, greedy: bool, check: bool)
    ensures ScanOf(StarCode(atom, greedy, check)) == Scan(-1, Unpredictable, ScanOf(atom).saves, ScanOf(atom).refs)
  {
    hide ScanOf;
    var len: int := TotalSize(atom);
    var z := if check then 1 else 0;
    var split := ISplit(greedy, len + 5 + z);
    var last := if check then IBneCharPos(-(len + 10 + z)) else IGoto(-(len + 10 + z));
    One(split);
    One(last);
    One(IPushCharPos);
    Two(split, IPushCharPos, Unpredictable, Undetermined);
    Around(if check then [split, IPushCharPos] else [split], atom, [last], Unpredictable, Unpredictable);
    assert [split] + [IPushCharPos] == [split, IPushCharPos] && [split] + [] == [split];
  }

  lemma UpToScan(atom: seq<Instr>, n: int, greedy: bool)
    ensures ScanOf(UpToCode(atom, n, greedy)) == Scan(-1, Unpredictable, ScanOf(atom).saves, ScanOf(atom).refs)
  {
    hide ScanOf;
    var len: int := TotalSize(atom);
    One(IPushI32(n));
    One(ISplit(greedy, len + 5));
    One(ILoop(-(len + 10)));
    One(IDrop);
    Two(IPushI32(n), ISplit(greedy, len + 5), Undetermined, Unpredictable);
    Two(ILoop(-(len + 10)), IDrop, Unpredictable, Undetermined);
    Around([IPushI32(n), ISplit(greedy, len + 5)], atom, [ILoop(-(len + 10)), IDrop], Unpredictable, Unpredictable);
  }

  lemma ExactScan(atom: seq<Instr>, n: int)
    ensures ScanOf(ExactCode(atom, n))
         == Scan(-1, Then(ScanOf(atom).kind, Unpredictable), ScanOf(atom).saves, ScanOf(atom).refs)
  {
    hide ScanOf;
    var len: int := TotalSize(atom);
    One(IPushI32(n));
    One(ILoop(-(len + 5)));
    One(IDrop);
    Two(ILoop(-(len + 5)), IDrop, Unpredictable, Undetermined);
    Around([IPushI32(n)], atom, [ILoop(-(len + 5)), IDrop], Undetermined, Unpredictable);
  }

  // What the scans say of a quantified atom, from what they say of the atom.
  function QuantScan(atom: Scan, lo: int, hi: int, min: int, max: int, greedy: bool): Scan {
    var cleared := if min == 0 then AllButLast(lo, hi) else {};
    if max == 0 then Scan(if lo == hi then 0 else -1, Undetermined, cleared, {})
    else if min == 1 && max == 1 && !(greedy && atom.count > 0) then atom
    else
      Scan(-1, if min == 0 || (greedy && atom.count > 0) then Unpredictable
               else if max > 1 then Then(atom.kind, Unpredictable)
               else atom.kind,
           atom.saves + cleared, atom.refs)
  }

  lemma QuantScanIs(atom: seq<Instr>, lo: int, hi: int, min: int, max: int, greedy: bool)
    requires 0 <= min <= max <= INT32_MAX && lo <= hi
    requires ScanOf(atom).count > 0 ==> lo == hi
    ensures ScanOf(QuantCode(atom, lo, hi, min, max, greedy))
         == QuantScan(ScanOf(atom), lo, hi, min, max, greedy)
  {
    if greedy && max > 0 && SimpleCount(atom) > 0 {
      GreedyScan(atom, min, max);
    } else if min == 0 {
      OptionalScan(atom, lo, hi, max, greedy);
    } else {
      SomeScan(atom, min, max, greedy, lo, hi);
    }
  }

  lemma GreedyScan(atom: seq<Instr>, min: int, max: int)
    ensures ScanOf([IGreedy(TotalSize(atom) + 1, min, max, SimpleCount(atom))] + atom + [IMatch])
         == Scan(-1, Unpredictable, ScanOf(atom).saves, ScanOf(atom).refs)
  {
    hide ScanOf;
    var i := IGreedy(TotalSize(atom) + 1, min, max, SimpleCount(atom));
    One(i);
    One(IMatch);
    Around([i], atom, [IMatch], Unpredictable, Unpredictable);
  }

  lemma OptionalScan(atom: seq<Instr>, lo: int, hi: int, max: int, greedy: bool)
    requires 0 <= max <= INT32_MAX && lo <= hi && !(greedy && max > 0 && SimpleCount(atom) > 0)
    ensures ScanOf(QuantCode(atom, lo, hi, 0, max, greedy)) == QuantScan(ScanOf(atom), lo, hi, 0, max, greedy)
  {
    var len: int := TotalSize(atom);
    var check := greedy && CheckAdvance(atom) == 0;
    var front := if lo != hi then [ISaveReset(lo, hi - 1)] else [];
    var body := if max == 0 then []
                else if max == 1 then [ISplit(greedy, len)] + atom
                else if max == INT32_MAX then StarCode(atom, greedy, check)
                else UpToCode(atom, max, greedy);
    assert QuantCode(atom, lo, hi, 0, max, greedy) == front + body;
    hide QuantCode;
    hide SimpleCount;
    hide StarCode;
    hide UpToCode;
    hide CheckAdvance;
    assert ScanOf([]) == Scan(0, Undetermined, {}, {});
    hide ScanOf;
    One(ISaveReset(lo, hi - 1));
    SpanIs(lo, hi);
    One(ISplit(greedy, len));
    Joined([ISplit(greedy, len)], atom);
    StarScan(atom, greedy, check);
    UpToScan(atom, max, greedy);
    Joined(front, body);
  }

  lemma SomeScan(atom: seq<Instr>, min: int, max: int, greedy: bool, lo: int, hi: int)
    requires 1 <= min <= max <= INT32_MAX && !(greedy && SimpleCount(atom) > 0)
    ensures ScanOf(QuantCode(atom, lo, hi, min, max, greedy)) == QuantScan(ScanOf(atom), lo, hi, min, max, greedy)
  {
    var len: int := TotalSize(atom);
    var check := greedy && CheckAdvance(atom) == 0;
    assert ScanOf(atom).count == SimpleCount(atom) >= -1;
    if min == 1 && max == INT32_MAX && !check {
      var split := ISplit(!greedy, -(len + 5));
      assert QuantCode(atom, lo, hi, min, max, greedy) == atom + [split];
      hide QuantCode;
      hide ScanOf;
      One(split);
      Joined(atom, [split]);
    } else {
      RoundsScan(atom, min, max, greedy, check);
    }
  }

  // The mandatory rounds, then the others.
  lemma RoundsScan(atom: seq<Instr>, min: int, max: int, greedy: bool, check: bool)
    requires 1 <= min <= max <= INT32_MAX
    ensures ScanOf((if min == 1 then atom else ExactCode(atom, min))
                   + (if max == INT32_MAX then StarCode(atom, greedy, check)
                      else if max > min then UpToCode(atom, max - min, greedy)
                      else []))
         == if min == 1 && max == 1 then ScanOf(atom)
            else Scan(-1, Then(ScanOf(atom).kind, Unpredictable), ScanOf(atom).saves, ScanOf(atom).refs)
  {
    assert ScanOf([]) == Scan(0, Undetermined, {}, {}) && ScanOf(atom).count >= -1;
    hide StarCode;
    hide UpToCode;
    hide ExactCode;
    hide ScanOf;
    var head := if min == 1 then atom else ExactCode(atom, min);
    ExactScan(atom, min);
    if max == INT32_MAX {
      StarScan(atom, greedy, check);
      Joined(head, StarCode(atom, greedy, check));
    } else if max > min {
      UpToScan(atom, max - min, greedy);
      Joined(head, UpToCode(atom, max - min, greedy));
    } else {
      Joined(head, []);
    }
  }

  // ----- The tree tells what the scans say -----

  function Told(r: Re, back: bool, cc: nat): Scan {
    Scan(Width(r, back), Lead(r, back), Sets(r, cc), Reads(r))
  }

  function ToldCat(ts: seq<Re>, back: bool, cc: nat): Scan {
    Scan(WidthCat(ts, back), LeadCat(ts, back), SetsAll(ts, cc), ReadsAll(ts))
  }

  // Straight-line code has no groups.
  lemma {:induction false} WidthCaps(r: Re, back: bool)
    requires WellFormed(r) && Width(r, back) >= 0
    ensures Caps(r) == 0
    decreases r, 1
  {
    match r
    case Group(b) => WidthCaps(b, back);
    case Quant(b, _, max, _) =>
      if max != 0 {
        WidthCaps(b, back);
      }
    case Cat(ts) => WidthCapsAll(ts, back);
    case Disj(ts) =>
      assert |ts| == 1;
      WidthCaps(ts[0], back);
      assert CapsAll(ts) == CapsAll(ts[..0]) + Caps(ts[0]) && ts[..0] == [] && CapsAll([]) == 0;
    case _ =>
  }

  lemma {:induction false} WidthCapsAll(ts: seq<Re>, back: bool)
    requires WellFormedAll(ts) && WidthCat(ts, back) >= 0
    ensures CapsAll(ts) == 0
    decreases ts, 0
  {
    if ts != [] {
      WidthCapsAll(ts[..|ts| - 1], back);
      WidthCaps(ts[|ts| - 1], back);
    }
  }

  lemma {:induction false} CompileTold(r: Re, dotall: bool, back: bool, cc: nat)
    requires WellFormed(r)
    ensures ScanOf(Compile(r, dotall, back, cc)) == Told(r, back, cc)
    decreases r, 1
  {
    hide ScanOf;
    hide QuantCode;
    match r
    case Group(b) => CompileTold(b, dotall, back, cc);
    case Capture(b) => CaptureTold(r, dotall, back, cc);
    case Look(_, _, _) => LookTold(r, dotall, back, cc);
    case Quant(_, _, _, _) => QuantTold(r, dotall, back, cc);
    case Cat(ts) => CatTold(ts, dotall, back, cc);
    case Disj(ts) => DisjTold(ts, dotall, back, cc);
    case _ => LeafTold(r, dotall, back, cc);
  }

  lemma LeafTold(r: Re, dotall: bool, back: bool, cc: nat)
    requires r.Chr? || r.Dot? || r.Class? || r.LineStart? || r.LineEnd? || r.WordBoundary? || r.BackRef?
    ensures ScanOf(Compile(r, dotall, back, cc)) == Told(r, back, cc)
  {
    hide ScanOf;
    match r
    case LineStart => One(ILineStart);
    case LineEnd => One(ILineEnd);
    case WordBoundary(neg) => One(IWordBoundary(neg));
    case BackRef(n) => One(IBackRef(back, n));
    case Chr(c) => OrientedTold(if c <= 0xFFFF then IChar(c) else IChar32(c), back);
    case Dot => OrientedTold(if dotall then IAny else IDot, back);
    case Class(points) => OrientedTold(RangeInstr(points), back);
  }

  lemma OrientedTold(i: Instr, back: bool)
    requires IsCharOp(i)
    ensures ScanOf(Oriented(i, back)) == Scan(if back then -1 else 1, Advances, {}, {})
  {
    hide ScanOf;
    One(i);
    One(IPrev);
    Around([IPrev], [i], [IPrev], Undetermined, Undetermined);
    assert [IPrev] + [i] + [IPrev] == [IPrev, i, IPrev];
  }

  lemma {:induction false} CaptureTold(r: Re, dotall: bool, back: bool, cc: nat)
    requires r.Capture? && WellFormed(r)
    ensures ScanOf(Compile(r, dotall, back, cc)) == Told(r, back, cc)
    decreases r, 0
  {
    hide ScanOf;
    var body := Compile(r.body, dotall, back, cc + 1);
    CompileTold(r.body, dotall, back, cc + 1);
    One(ISave(back, cc));
    One(ISave(!back, cc));
    Joined([ISave(back, cc)], body);
    Joined([ISave(back, cc)] + body, [ISave(!back, cc)]);
  }

  lemma {:induction false} LookTold(r: Re, dotall: bool, back: bool, cc: nat)
    requires r.Look? && WellFormed(r)
    ensures ScanOf(Compile(r, dotall, back, cc)) == Told(r, back, cc)
    decreases r, 0
  {
    hide ScanOf;
    var c := Compile(r.body, dotall, r.behind, cc);
    CompileTold(r.body, dotall, r.behind, cc);
    One(ILook(r.neg, TotalSize(c) + 1));
    One(IMatch);
    Around([ILook(r.neg, TotalSize(c) + 1)], c, [IMatch], Unpredictable, Unpredictable);
  }

  lemma {:induction false} QuantTold(r: Re, dotall: bool, back: bool, cc: nat)
    requires r.Quant? && WellFormed(r)
    ensures ScanOf(Compile(r, dotall, back, cc)) == Told(r, back, cc)
    decreases r, 0
  {
    hide ScanOf;
    hide QuantCode;
    CompileTold(r.body, dotall, back, cc);
    if Width(r.body, back) > 0 {
      WidthCaps(r.body, back);
    }
    QuantScanIs(Compile(r.body, dotall, back, cc), cc, cc + Caps(r.body), r.min, r.max, r.greedy);
  }

  lemma {:induction false} CatTold(ts: seq<Re>, dotall: bool, back: bool, cc: nat)
    requires WellFormedAll(ts)
    ensures ScanOf(CompileCat(ts, dotall, back, cc)) == ToldCat(ts, back, cc)
    decreases ts, 0
  {
    if ts == [] {
      assert ScanOf([]) == Scan(0, Undetermined, {}, {});
    } else {
      hide ScanOf;
      hide Compile;
      hide Sets;
      hide Reads;
      hide Lead;
      hide Width;
      var n := |ts| - 1;
      var init := CompileCat(ts[..n], dotall, back, cc);
      var last := Compile(ts[n], dotall, back, cc + CapsAll(ts[..n]));
      CatTold(ts[..n], dotall, back, cc);
      CompileTold(ts[n], dotall, back, cc + CapsAll(ts[..n]));
      if back {
        Joined(last, init);
      } else {
        Joined(init, last);
      }
    }
  }

  lemma AltScan(init: seq<Instr>, last: seq<Instr>)
    ensures ScanOf([ISplit(true, TotalSize(init) + 5)] + init + [IGoto(TotalSize(last))] + last)
         == Scan(-1, Unpredictable, ScanOf(init).saves + ScanOf(last).saves, ScanOf(init).refs + ScanOf(last).refs)
  {
    hide ScanOf;
    One(ISplit(true, TotalSize(init) + 5));
    One(IGoto(TotalSize(last)));
    Around([ISplit(true, TotalSize(init) + 5)], init, [IGoto(TotalSize(last))], Unpredictable, Unpredictable);
    Joined([ISplit(true, TotalSize(init) + 5)] + init + [IGoto(TotalSize(last))], last);
  }

  lemma ToldOne(ts: seq<Re>, back: bool, cc: nat)
    requires |ts| == 1
    ensures CapsAll(ts[..0]) == 0 && Told(Disj(ts), back, cc) == Told(ts[0], back, cc)
  {
    var none := ts[..0];
    assert none == [];
    assert CapsAll(none) == 0 && SetsAll(none, cc) == {} && ReadsAll(none) == {};
    assert Sets(Disj(ts), cc) == SetsAll(ts, cc) == SetsAll(none, cc) + Sets(ts[0], cc + CapsAll(none));
    assert Reads(Disj(ts)) == ReadsAll(ts) == ReadsAll(none) + Reads(ts[0]);
  }

  lemma ToldMore(ts: seq<Re>, back: bool, cc: nat)
    requires |ts| >= 2
    ensures var n := |ts| - 1;
      Told(Disj(ts), back, cc)
      == Scan(-1, Unpredictable, Sets(Disj(ts[..n]), cc) + Sets(ts[n], cc + CapsAll(ts[..n])),
              Reads(Disj(ts[..n])) + Reads(ts[n]))
  {
    assert Sets(Disj(ts), cc) == SetsAll(ts, cc) && Reads(Disj(ts)) == ReadsAll(ts);
  }

  lemma {:induction false} DisjTold(ts: seq<Re>, dotall: bool, back: bool, cc: nat)
    requires WellFormedAll(ts) && ts != []
    ensures ScanOf(CompileDisj(ts, dotall, back, cc)) == Told(Disj(ts), back, cc)
    decreases ts, 0
  {
    hide ScanOf;
    hide Compile;
    hide Sets;
    hide Reads;
    hide Lead;
    hide Width;
    hide CapsAll;
    var n := |ts| - 1;
    var last := Compile(ts[n], dotall, back, cc + CapsAll(ts[..n]));
    CompileTold(ts[n], dotall, back, cc + CapsAll(ts[..n]));
    if n == 0 {
      ToldOne(ts, back, cc);
    } else {
      var init := CompileDisj(ts[..n], dotall, back, cc);
      DisjTold(ts[..n], dotall, back, cc);
      ToldMore(ts, back, cc);
      AltScan(init, last);
    }
  }

  // The verdicts. A loop gets no check if each of its rounds starts with a character, or if it reads
  // a group it sets itself.
  lemma VerdictIs(r: Re, dotall: bool, back: bool, cc: nat)
    requires WellFormed(r)
    ensures CheckAdvance(Compile(r, dotall, back, cc))
         == if Sets(r, cc) * Reads(r) != {} then -1 else if Lead(r, back).Advances? then 1 else 0
    ensures SimpleCount(Compile(r, dotall, back, cc)) == Width(r, back)
  {
    CompileTold(r, dotall, back, cc);
  }
}
