// The regular expression compiler of quickjs/libregexp.c as a function from syntax trees to
// instruction blocks. RegexpEmit.dfy proves the buffer-patching parser code against it.

module RegexpCompile {
  import opened CharRanges
  import opened RegexpCode

  const INT32_MAX: int := 0x7FFF_FFFF

  // The pattern as the parser understands it. Quantifier bounds are what parse_digits delivers:
  // numbers up to INT32_MAX, where an upper bound of INT32_MAX means "no bound".
  datatype Re =
    | Chr(c: int)
    | Dot
    | Class(points: seq<u32>)
    | LineStart
    | LineEnd
    | WordBoundary(neg: bool)
    | BackRef(n: int)
    | Group(body: Re)
    | Capture(body: Re)
    | Look(neg: bool, behind: bool, body: Re)
    | Quant(body: Re, min: int, max: int, greedy: bool)
    | Cat(terms: seq<Re>)
    | Disj(alts: seq<Re>)

  // Number of capture groups inside.
  function Caps(r: Re): (n: nat) {
    match r
    case Group(b) => Caps(b)
    case Capture(b) => 1 + Caps(b)
    case Look(_, _, b) => Caps(b)
    case Quant(b, _, _, _) => Caps(b)
    case Cat(ts) => CapsAll(ts)
    case Disj(ts) => CapsAll(ts)
    case _ => 0
  }

  function CapsAll(ts: seq<Re>): (n: nat) {
    if ts == [] then 0 else CapsAll(ts[..|ts| - 1]) + Caps(ts[|ts| - 1])
  }

  // What the parser guarantees of a tree.
  ghost predicate WellFormed(r: Re) {
    match r
    case Chr(c) => 0 <= c < TWO32
    case Class(points) => StrictlyAscending(points) && |points| % 2 == 0 && |points| / 2 < 65535
    case BackRef(n) => 0 <= n < 256
    case Group(b) => WellFormed(b)
    case Capture(b) => WellFormed(b)
    case Look(_, _, b) => WellFormed(b)
    case Quant(b, min, max, _) => WellFormed(b) && 0 <= min <= max <= INT32_MAX
    case Cat(ts) => WellFormedAll(ts)
    case Disj(ts) => ts != [] && WellFormedAll(ts)
    case _ => true
  }

  ghost predicate WellFormedAll(ts: seq<Re>) {
    ts == [] || (WellFormedAll(ts[..|ts| - 1]) && WellFormed(ts[|ts| - 1]))
  }

  // ----- Scans over emitted code -----

  function IsCharOp(i: Instr): bool {
    i.IChar? || i.IChar32? || i.IDot? || i.IAny? || i.IRange? || i.IRange32?
  }

  function IsAssertOp(i: Instr): bool {
    i.ILineStart? || i.ILineEnd? || i.IWordBoundary?
  }

  // re_is_simple_quantifier: number of characters matched by straight-line code, or -1.
  function SimpleCount(b: seq<Instr>): (n: int)
    ensures n >= -1
  {
    if b == [] then 0
    else if IsCharOp(b[0]) then (if SimpleCount(b[1..]) < 0 then -1 else SimpleCount(b[1..]) + 1)
    else if IsAssertOp(b[0]) then SimpleCount(b[1..])
    else -1
  }

  datatype Kind = Advances | Unpredictable | Undetermined

  // What the first opcode with a say tells re_check_advance.
  function FirstKind(b: seq<Instr>): Kind {
    if b == [] then Undetermined
    else if IsCharOp(b[0]) then Advances
    else if IsAssertOp(b[0]) || b[0].IPushI32? || b[0].IPushCharPos? || b[0].IDrop? || b[0].IPrev?
            || b[0].ISave? || b[0].ISaveReset? || b[0].IBackRef? then FirstKind(b[1..])
    else Unpredictable
  }

  function Span(lo: int, hi: int): set<int>
    decreases hi - lo
  {
    if lo >= hi then {} else {lo} + Span(lo + 1, hi)
  }

  // Captures set by the code, and captures its back references read.
  function Saves(b: seq<Instr>): set<int> {
    if b == [] then {}
    else Saves(b[1..]) + (match b[0]
                          case ISave(_, n) => {n}
                          case ISaveReset(lo, hi) => Span(lo, hi)
                          case _ => {})
  }

  function Refs(b: seq<Instr>): set<int> {
    if b == [] then {} else Refs(b[1..]) + (if b[0].IBackRef? then {b[0].n} else {})
  }

  // re_check_advance
  function CheckAdvance(b: seq<Instr>): int {
    if Saves(b) * Refs(b) != {} then -1
    else if FirstKind(b).Advances? then 1
    else 0
  }

  // ----- Code for character classes (re_emit_range) -----

  function Pairs16(points: seq<u32>): (r: seq<Pair>)
    ensures |r| == |points| / 2
  {
    seq(|points| / 2, k requires 0 <= k < |points| / 2 =>
      Pair(points[2 * k], if points[2 * k + 1] == UINT32_MAX then 0xFFFF else points[2 * k + 1] as int - 1))
  }

  function Pairs32(points: seq<u32>): (r: seq<Pair>)
    ensures |r| == |points| / 2
  {
    seq(|points| / 2, k requires 0 <= k < |points| / 2 => Pair(points[2 * k], points[2 * k + 1] as int - 1))
  }

  function RangeInstr(points: seq<u32>): Instr {
    if |points| / 2 == 0 then IChar32(UINT32_MAX)
    else
      var last := points[|points| - 1];
      var high := if last == UINT32_MAX then points[|points| - 2] else last;
      if high <= 0xFFFF then IRange(Pairs16(points)) else IRange32(Pairs32(points))
  }

  // ----- Code for quantifiers (re_parse_term) -----

  // split L; [push_char_pos]; atom; bne_char_pos/goto back; L:
  function StarCode(atom: seq<Instr>, greedy: bool, check: bool): seq<Instr> {
    var len := TotalSize(atom);
    var z := if check then 1 else 0;
    [ISplit(greedy, len + 5 + z)] + (if check then [IPushCharPos] else []) + atom
      + [if check then IBneCharPos(-(len + 10 + z)) else IGoto(-(len + 10 + z))]
  }

  // push n; split L; atom; loop back to the split; L: drop
  function UpToCode(atom: seq<Instr>, n: int, greedy: bool): seq<Instr> {
    var len := TotalSize(atom);
    [IPushI32(n), ISplit(greedy, len + 5)] + atom + [ILoop(-(len + 10)), IDrop]
  }

  // push n; atom; loop back to the atom; drop
  function ExactCode(atom: seq<Instr>, n: int): seq<Instr> {
    [IPushI32(n)] + atom + [ILoop(-(TotalSize(atom) + 5)), IDrop]
  }

  function QuantCode(atom: seq<Instr>, capLo: int, capHi: int, min: int, max: int, greedy: bool): seq<Instr> {
    var len := TotalSize(atom);
    if greedy && max > 0 && SimpleCount(atom) > 0 then
      [IGreedy(len + 1, min, max, SimpleCount(atom))] + atom + [IMatch]
    else
      var check := greedy && CheckAdvance(atom) == 0;
      if min == 0 then
        (if capLo != capHi then [ISaveReset(capLo, capHi - 1)] else [])
          + (if max == 0 then []
             else if max == 1 then [ISplit(greedy, len)] + atom
             else if max == INT32_MAX then StarCode(atom, greedy, check)
             else UpToCode(atom, max, greedy))
      else if min == 1 && max == INT32_MAX && !check then
        atom + [ISplit(!greedy, -(len + 5))]
      else
        (if min == 1 then atom else ExactCode(atom, min))
          + (if max == INT32_MAX then StarCode(atom, greedy, check)
             else if max > min then UpToCode(atom, max - min, greedy)
             else [])
  }

  // ----- Code for a whole tree -----

  // Matching backward, a character is read between two steps to the left.
  function Oriented(i: Instr, back: bool): seq<Instr> {
    if back then [IPrev, i, IPrev] else [i]
  }

  // cc is the number of captures opened before this term.
  function Compile(r: Re, dotall: bool, back: bool, cc: nat): seq<Instr>
    decreases r, 1
  {
    match r
    case Chr(c) => Oriented(if c <= 0xFFFF then IChar(c) else IChar32(c), back)
    case Dot => Oriented(if dotall then IAny else IDot, back)
    case Class(points) => Oriented(RangeInstr(points), back)
    case LineStart => [ILineStart]
    case LineEnd => [ILineEnd]
    case WordBoundary(neg) => [IWordBoundary(neg)]
    case BackRef(n) => [IBackRef(back, n)]
    case Group(b) => Compile(b, dotall, back, cc)
    case Capture(b) => [ISave(back, cc)] + Compile(b, dotall, back, cc + 1) + [ISave(!back, cc)]
    case Look(neg, behind, b) =>
      var c := Compile(b, dotall, behind, cc);
      [ILook(neg, TotalSize(c) + 1)] + c + [IMatch]
    case Quant(b, min, max, greedy) =>
      QuantCode(Compile(b, dotall, back, cc), cc, cc + Caps(b), min, max, greedy)
    case Cat(ts) => CompileCat(ts, dotall, back, cc)
    case Disj(ts) => CompileDisj(ts, dotall, back, cc)
  }

  // Terms in order; in reverse order when matching backward.
  function CompileCat(ts: seq<Re>, dotall: bool, back: bool, cc: nat): seq<Instr>
    decreases ts, 0
  {
    if ts == [] then []
    else
      var n := |ts| - 1;
      var init := CompileCat(ts[..n], dotall, back, cc);
      var last := Compile(ts[n], dotall, back, cc + CapsAll(ts[..n]));
      if back then last + init else init + last
  }

  // Each further alternative puts a split in front of everything before it.
  function CompileDisj(ts: seq<Re>, dotall: bool, back: bool, cc: nat): seq<Instr>
    decreases ts, 0
  {
    if ts == [] then []
    else
      var n := |ts| - 1;
      var last := Compile(ts[n], dotall, back, cc + CapsAll(ts[..n]));
      if n == 0 then last
      else
        var init := CompileDisj(ts[..n], dotall, back, cc);
        [ISplit(true, TotalSize(init) + 5)] + init + [IGoto(TotalSize(last))] + last
  }

  // The code of a sticky pattern after the header (lre_compile).
  function Program(r: Re, dotall: bool): seq<Instr> {
    [ISave(false, 0)] + Compile(r, dotall, false, 1) + [ISave(true, 0), IMatch]
  }

  // A pattern that is not sticky first tries every starting position, lazily.
  const SEARCH_PREFIX: seq<Instr> := [ISplit(false, 6), IAny, IGoto(-11)]
}
