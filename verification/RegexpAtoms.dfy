// What single characters, classes and assertions match under each flag, from the input alone.

module RegexpAtoms {
  import opened Basics
  import opened CharRanges
  import opened RegexpCode
  import opened RegexpCompile
  import opened RegexpSemantics
  import opened RegexpLanguage
  import opened RegexpRun

  ghost predicate Atom(r: Re) {
    r.Chr? || r.Dot? || r.Class? || r.LineStart? || r.LineEnd? || r.WordBoundary?
  }

  predicate WordHere(input: seq<int>, k: int) {
    0 <= k < |input|
    && (0x30 <= input[k] <= 0x39 || 0x41 <= input[k] <= 0x5A || 0x61 <= input[k] <= 0x7A || input[k] == 0x5F)
  }

  // The flags are a byte: 4 stands for multiline, 8 for dotall.
  ghost predicate AtomAt(r: Re, flags: byte, input: seq<int>, i: int)
    requires 0 <= i <= |input|
  {
    match r
    case Chr(c) => i < |input| && input[i] == c
    case Dot => i < |input| && (flags as int / 8 % 2 == 1 || input[i] !in {0x0A, 0x0D, 0x2028, 0x2029})
    case Class(points) =>
      i < |input| && exists k :: 0 <= k < |points| / 2 && InClass(points, k, input[i])
    case LineStart => i == 0 || (flags as int / 4 % 2 == 1 && input[i - 1] in {0x0A, 0x0D, 0x2028, 0x2029})
    case LineEnd => i == |input| || (flags as int / 4 % 2 == 1 && input[i] in {0x0A, 0x0D, 0x2028, 0x2029})
    case WordBoundary(neg) => (WordHere(input, i - 1) != WordHere(input, i)) != neg
    case _ => false
  }

  ghost predicate InClass(points: seq<u32>, k: int, c: int)
    requires 0 <= k < |points| / 2
  {
    points[2 * k] <= c < points[2 * k + 1]
  }

  // A sticky match at i, or one anywhere from i on.
  ghost predicate AtomFound(r: Re, flags: byte, input: seq<int>, i: int)
    requires 0 <= i <= |input|
  {
    if flags as int / 32 % 2 == 1 then AtomAt(r, flags, input, i)
    else exists j :: i <= j <= |input| && AtomAt(r, flags, input, j)
  }

  lemma ClassIs(points: seq<u32>, c: int)
    requires |points| % 2 == 0
    ensures In(points, c) <==> exists k :: 0 <= k < |points| / 2 && InClass(points, k, c)
  {
    if In(points, c) {
      var k :| 0 <= k && 2 * k + 1 < |points| && Between(points, k, c);
      assert InClass(points, k, c);
    }
    if k :| 0 <= k < |points| / 2 && InClass(points, k, c) {
      assert Between(points, k, c);
    }
  }

  lemma AtomMatches(env: Env, r: Re, flags: byte, i: int)
    requires Atom(r) && WellFormed(r) && 0 <= i <= |env.input|
    requires env.dotall == (flags as int / 8 % 2 == 1) && env.multiline == (flags as int / 4 % 2 == 1)
    ensures Matches(env, r, i) <==> AtomAt(r, flags, env.input, i)
  {
    if r.Class? && i < |env.input| {
      ClassIs(r.points, env.input[i]);
    }
    hide In;
    if AtomAt(r, flags, env.input, i) {
      assert Lang(env, r, i, if r.Chr? || r.Dot? || r.Class? then i + 1 else i);
    }
  }

  // The language of an atom is the law above.
  lemma AtomAccepts(env: Env, r: Re, flags: byte, i: int)
    requires Atom(r) && WellFormed(r) && 0 <= i <= |env.input|
    requires env.dotall == (flags as int / 8 % 2 == 1) && env.multiline == (flags as int / 4 % 2 == 1)
    ensures Accepts(env, r, flags as int / 32 % 2 == 1, i) <==> AtomFound(r, flags, env.input, i)
  {
    hide Matches;
    hide AtomAt;
    forall j | 0 <= j <= |env.input| ensures Matches(env, r, j) <==> AtomAt(r, flags, env.input, j) {
      AtomMatches(env, r, flags, j);
    }
    forall j | Matches(env, r, j) ensures j <= |env.input| {
      AtomInside(env, r, j);
    }
  }

  lemma AtomInside(env: Env, r: Re, i: int)
    requires Atom(r) && Matches(env, r, i)
    ensures i <= |env.input|
  {
  }
}
