// Run-length coded sets of code points of quickjs/libunicode.c: the indexed query agrees with the
// intervals obtained by decoding the whole table.

module UnicodeTable {
  import opened Basics
  import opened CharRanges
  import opened UnicodeRuns

  const UNICODE_INDEX_BLOCK_LEN: int := 32
  const CODE_LIMIT: int := 0x20_0000

  // ----- The code -----

  // A byte below 64 holds two short runs, the others one run in one, two or three bytes.
  function TokenSize(b: byte): nat {
    if b < 64 || b >= 0x80 then 1 else if b < 0x60 then 2 else 3
  }

  predicate Complete(table: seq<byte>, p: nat) {
    p < |table| && p + TokenSize(table[p]) <= |table|
  }

  // The length of the first run at p, and of the second one or zero.
  function FirstRun(table: seq<byte>, p: nat): nat
    requires Complete(table, p)
  {
    var b := table[p] as int;
    if b < 64 then b / 8 + 1
    else if b >= 0x80 then b - 0x80 + 1
    else if b < 0x60 then (b - 0x40) * 0x100 + table[p + 1] + 1
    else (b - 0x60) * 0x1_0000 + table[p + 1] as int * 0x100 + table[p + 2] + 1
  }

  function SecondRun(table: seq<byte>, p: nat): nat
    requires Complete(table, p)
  {
    if table[p] < 64 then table[p] % 8 + 1 else 0
  }

  // A place in the decoding: offset, code point reached, and whether the next run is in the set.
  datatype State = State(p: nat, code: nat, bit: bool)

  function Next(table: seq<byte>, s: State): State
    requires Complete(table, s.p)
  {
    State(s.p + TokenSize(table[s.p]), s.code + FirstRun(table, s.p) + SecondRun(table, s.p),
          if table[s.p] < 64 then s.bit else !s.bit)
  }

  // Membership of c >= s.code in what the table lists from s on.
  predicate InTable(table: seq<byte>, s: State, c: int)
    decreases |table| - s.p
  {
    Complete(table, s.p) &&
    if c < s.code + FirstRun(table, s.p) then s.bit
    else if c < s.code + FirstRun(table, s.p) + SecondRun(table, s.p) then !s.bit
    else InTable(table, Next(table, s), c)
  }

  // Decoding from s passes through t.
  ghost predicate Reaches(table: seq<byte>, s: State, t: State)
    decreases |table| - s.p
  {
    s == t || (Complete(table, s.p) && Reaches(table, Next(table, s), t))
  }

  const Start: State := State(0, 0, false)

  // The table ends after a complete token, at a code point below 2^21.
  ghost predicate WellCoded(table: seq<byte>, s: State)
    decreases |table| - s.p
  {
    s.code < CODE_LIMIT && (s.p == |table| || (Complete(table, s.p) && WellCoded(table, Next(table, s))))
  }

  ghost function End(table: seq<byte>, s: State): State
    requires WellCoded(table, s)
    decreases |table| - s.p
  {
    if s.p == |table| then s else End(table, Next(table, s))
  }

  // Starting in the middle gives the same answer from there on.
  lemma {:induction false} Skip(table: seq<byte>, s: State, t: State, c: int)
    requires Reaches(table, s, t) && c >= t.code
    ensures s.code <= t.code && (InTable(table, s, c) <==> InTable(table, t, c))
    decreases |table| - s.p
  {
    if s != t {
      Skip(table, Next(table, s), t, c);
    }
  }

  lemma {:induction false} ReachesNext(table: seq<byte>, s: State, t: State)
    requires Reaches(table, s, t) && Complete(table, t.p)
    ensures Reaches(table, s, Next(table, t))
    decreases |table| - s.p
  {
    if s != t {
      ReachesNext(table, Next(table, s), t);
    }
  }

  lemma {:induction false} ReachesCoded(table: seq<byte>, s: State, t: State)
    requires Reaches(table, s, t) && WellCoded(table, s)
    ensures WellCoded(table, t) && End(table, t) == End(table, s) && s.code <= t.code <= End(table, s).code
    decreases |table| - s.p
  {
    if s != t {
      ReachesCoded(table, Next(table, s), t);
    } else {
      EndAfter(table, s);
    }
  }

  lemma {:induction false} EndAfter(table: seq<byte>, s: State)
    requires WellCoded(table, s)
    ensures s.code <= End(table, s).code && End(table, s).p == |table|
    decreases |table| - s.p
  {
    if s.p != |table| {
      EndAfter(table, Next(table, s));
    }
  }

  // ----- Coded runs -----

  // At p the table goes on with the code of the runs from run i on.
  ghost predicate CodedAt(table: seq<byte>, p: nat, runs: seq<nat>, i: nat) {
    Lengths(runs) && i <= |runs| && p <= |table| && table[p..] == EncodeFrom(runs, i)
  }

  // Where decoding is in front of run i.
  function Before(runs: seq<nat>, i: nat, p: nat): State
    requires i <= |runs|
  {
    State(p, Total(runs, i), i % 2 == 1)
  }

  // A token gives back the runs it was made of.
  lemma TokenIs(table: seq<byte>, p: nat, runs: seq<nat>, i: nat)
    requires CodedAt(table, p, runs, i) && i < |runs|
    ensures Complete(table, p) && FirstRun(table, p) == runs[i] && TokenSize(table[p]) == |Token(runs, i)|
    ensures SecondRun(table, p) == if Taken(runs, i) == 2 then runs[i + 1] else 0
    ensures table[p] < 64 <==> Taken(runs, i) == 2
    ensures CodedAt(table, p + TokenSize(table[p]), runs, i + Taken(runs, i))
  {
    var t, rest := Token(runs, i), EncodeFrom(runs, i + Taken(runs, i));
    assert table[p..] == t + rest;
    hide EncodeFrom;
    assert forall k :: 0 <= k < |t| ==> table[p + k] == table[p..][k] == t[k];
    TokenBytes(table, p, runs, i);
    assert table[p + |t|..] == table[p..][|t|..];
  }

  lemma TokenBytes(table: seq<byte>, p: nat, runs: seq<nat>, i: nat)
    requires Lengths(runs) && i < |runs| && p + |Token(runs, i)| <= |table|
    requires forall k :: 0 <= k < |Token(runs, i)| ==> table[p + k] == Token(runs, i)[k]
    ensures Complete(table, p) && FirstRun(table, p) == runs[i] && TokenSize(table[p]) == |Token(runs, i)|
    ensures SecondRun(table, p) == if Taken(runs, i) == 2 then runs[i + 1] else 0
    ensures table[p] < 64 <==> Taken(runs, i) == 2
  {
    var t := Token(runs, i);
    assert table[p + 0] == t[0];
    assert |t| > 1 ==> table[p + 1] == t[1];
    assert |t| > 2 ==> table[p + 2] == t[2];
  }

  lemma NextRun(table: seq<byte>, p: nat, runs: seq<nat>, i: nat)
    requires CodedAt(table, p, runs, i) && i < |runs|
    ensures Complete(table, p) && CodedAt(table, p + TokenSize(table[p]), runs, i + Taken(runs, i))
    ensures Next(table, Before(runs, i, p)) == Before(runs, i + Taken(runs, i), p + TokenSize(table[p]))
    ensures Total(runs, i) + FirstRun(table, p) == Total(runs, i + 1)
    ensures Total(runs, i + 1) + SecondRun(table, p) == Total(runs, i + Taken(runs, i))
  {
    TokenIs(table, p, runs, i);
    hide FirstRun;
    hide SecondRun;
    hide Token;
    hide EncodeFrom;
  }

  // The table of the runs lists exactly the code points of those inside the set.
  lemma {:induction false} Decodes(table: seq<byte>, p: nat, runs: seq<nat>, i: nat, c: int)
    requires CodedAt(table, p, runs, i) && c >= Total(runs, i)
    ensures InTable(table, Before(runs, i, p), c) <==> InRunsFrom(runs, i, c)
    decreases |runs| - i
  {
    if i < |runs| {
      var j := i + Taken(runs, i);
      NextRun(table, p, runs, i);
      hide CodedAt;
      hide FirstRun;
      hide SecondRun;
      hide Complete;
      hide Total;
      RunsSplit(runs, i, j, c);
      if c >= Total(runs, j) {
        Decodes(table, p + TokenSize(table[p]), runs, j, c);
      }
    }
  }

  // Which of the runs from i on c is in.
  lemma RunsSplit(runs: seq<nat>, i: nat, j: nat, c: int)
    requires i < j <= |runs| && j <= i + 2 && c >= Total(runs, i)
    ensures c < Total(runs, i + 1) ==> (InRunsFrom(runs, i, c) <==> i % 2 == 1)
    ensures Total(runs, i + 1) <= c < Total(runs, j) ==> (InRunsFrom(runs, i, c) <==> i % 2 == 0)
    ensures c >= Total(runs, j) ==> (InRunsFrom(runs, i, c) <==> InRunsFrom(runs, j, c))
    ensures c >= Total(runs, j) ==> c >= Total(runs, i + 1)
  {
    forall k: nat | i <= k < |runs| && RunAt(runs, k, c)
      ensures c < Total(runs, i + 1) ==> k == i
      ensures c >= Total(runs, i + 1) ==> k > i
      ensures c < Total(runs, j) ==> k < j
      ensures c >= Total(runs, j) ==> k >= j
    {
      if k > i {
        TotalMonotone(runs, i + 1, k);
      }
      if k >= j {
        TotalMonotone(runs, j, k);
      } else {
        TotalMonotone(runs, k + 1, j);
      }
    }
    TotalMonotone(runs, i + 1, j);
    if c < Total(runs, i + 1) {
      assert RunAt(runs, i, c);
    } else if c < Total(runs, j) {
      assert RunAt(runs, i + 1, c);
    }
  }

  // Such a table is complete, and ends where the runs end.
  lemma {:induction false} CodedWell(table: seq<byte>, p: nat, runs: seq<nat>, i: nat)
    requires CodedAt(table, p, runs, i) && Total(runs, |runs|) < CODE_LIMIT
    ensures WellCoded(table, Before(runs, i, p))
    ensures End(table, Before(runs, i, p)) == Before(runs, |runs|, |table|)
    decreases |runs| - i
  {
    TotalMonotone(runs, i, |runs|);
    if i < |runs| {
      NextRun(table, p, runs, i);
      CodedWell(table, p + TokenSize(table[p]), runs, i + Taken(runs, i));
    } else {
      assert |table[p..]| == 0;
    }
  }

  lemma EncodeDecodes(runs: seq<nat>, c: int)
    requires Lengths(runs) && c >= 0
    ensures InTable(Encode(runs), Start, c) <==> InRuns(runs, c)
  {
    assert Encode(runs)[0..] == Encode(runs);
    Decodes(Encode(runs), 0, runs, 0, c);
  }

  // ----- The index -----

  // get_le24
  function GetLe24(index: seq<byte>, k: nat): nat
    requires k + 3 <= |index|
  {
    index[k] as int + index[k + 1] as int * 0x100 + index[k + 2] as int * 0x1_0000
  }

  // Entry k: a code point and where its run starts, as block number k + 1 and an offset.
  function EntryCode(index: seq<byte>, k: nat): nat
    requires 3 * k + 3 <= |index|
  {
    GetLe24(index, 3 * k) % CODE_LIMIT
  }

  function EntryPos(index: seq<byte>, k: nat): nat
    requires 3 * k + 3 <= |index|
  {
    (k + 1) * UNICODE_INDEX_BLOCK_LEN + GetLe24(index, 3 * k) / CODE_LIMIT
  }

  // The index fits the table: its entries ascend, all but the last point at a run outside the set that
  // decoding passes, and the last one is the end of the table.
  ghost predicate Indexed(table: seq<byte>, index: seq<byte>, n: nat) {
    && n >= 1 && |index| == 3 * n && WellCoded(table, Start)
    && (forall j: nat, k: nat :: j < k < n ==> EntryCode(index, j) <= EntryCode(index, k))
    && (forall k: nat :: k + 1 < n ==> EntryOk(table, index, k))
    && GetLe24(index, 3 * (n - 1)) == End(table, Start).code
  }

  ghost predicate EntryOk(table: seq<byte>, index: seq<byte>, k: nat)
    requires 3 * k + 3 <= |index|
  {
    Reaches(table, Start, State(EntryPos(index, k), EntryCode(index, k), false))
  }

  // Entry k is the last one at or before c.
  ghost predicate LastBefore(index: seq<byte>, n: nat, k: nat, c: int)
    requires |index| == 3 * n
  {
    k + 1 < n && EntryCode(index, k) <= c < EntryCode(index, k + 1)
  }

  // get_index_pos: where the last indexed run at or before c starts, and at which code point, or -1
  method GetIndexPos(c: nat, index: seq<byte>, n: nat, ghost table: seq<byte>) returns (pos: int, code: nat)
    requires Indexed(table, index, n)
    ensures pos < 0 <==> c >= End(table, Start).code
    ensures pos >= 0 ==> code <= c && Reaches(table, Start, State(pos, code, false))
    ensures pos >= 0 && c < EntryCode(index, 0) ==> pos == 0 && code == 0
    ensures pos >= 0 && c >= EntryCode(index, 0) ==>
              exists k: nat :: LastBefore(index, n, k, c) && pos == EntryPos(index, k) && code == EntryCode(index, k)
  {
    hide Reaches;
    hide WellCoded;
    hide End;
    FirstBelowEnd(table, index, n);
    var idxMin := 0;
    code := EntryCode(index, 0);
    if c < code {
      StartReaches(table);
      return 0, 0;
    }
    var idxMax := n - 1;
    code := GetLe24(index, 3 * idxMax);
    if c >= code {
      return -1, code;
    }
    LastCode(table, index, n);
    while idxMax - idxMin > 1
      invariant 0 <= idxMin < idxMax < n && EntryCode(index, idxMin) <= c < EntryCode(index, idxMax)
    {
      var idx := (idxMax + idxMin) / 2;
      code := EntryCode(index, idx);
      if c < code {
        idxMax := idx;
      } else {
        idxMin := idx;
      }
    }
    code := EntryCode(index, idxMin);
    pos := EntryPos(index, idxMin);
    assert idxMax == idxMin + 1 && LastBefore(index, n, idxMin, c);
    assert EntryOk(table, index, idxMin);
  }

  lemma StartReaches(table: seq<byte>)
    ensures Reaches(table, Start, State(0, 0, false))
  {
  }

  lemma FirstBelowEnd(table: seq<byte>, index: seq<byte>, n: nat)
    requires Indexed(table, index, n)
    ensures EntryCode(index, 0) <= End(table, Start).code
  {
    LastCode(table, index, n);
    assert n == 1 || EntryCode(index, 0) <= EntryCode(index, n - 1);
  }

  lemma LastCode(table: seq<byte>, index: seq<byte>, n: nat)
    requires Indexed(table, index, n)
    ensures EntryCode(index, n - 1) == End(table, Start).code
  {
    EndCoded(table, Start);
  }

  lemma {:induction false} EndCoded(table: seq<byte>, s: State)
    requires WellCoded(table, s)
    ensures End(table, s).code < CODE_LIMIT
    decreases |table| - s.p
  {
    if s.p != |table| {
      EndCoded(table, Next(table, s));
    }
  }

  // lre_is_in_table: membership in the set the table lists
  method IsInTable(c: nat, table: seq<byte>, index: seq<byte>, n: nat) returns (r: bool)
    requires Indexed(table, index, n)
    ensures r <==> InTable(table, Start, c)
  {
    var pos: int, code: nat := GetIndexPos(c, index, n, table);
    if pos < 0 {
      PastEnd(table, Start, c);
      return false;
    }
    var bit := false;
    var p: nat := pos;
    while true
      invariant code <= c < End(table, Start).code && Reaches(table, Start, State(p, code, bit))
      decreases |table| - p
    {
      ghost var s := State(p, code, bit);
      NotAtEnd(table, s, c);
      Skip(table, Start, s, c);
      ReachesNext(table, Start, s);
      var b := table[p];
      if b < 64 {
        code := code + FirstRun(table, p);
        if c < code {
          return bit;
        }
        bit := !bit;
        code := code + SecondRun(table, p);
      } else {
        code := code + FirstRun(table, p);
      }
      p := p + TokenSize(b);
      if c < code {
        return bit;
      }
      bit := !bit;
    }
  }

  lemma NotAtEnd(table: seq<byte>, s: State, c: int)
    requires WellCoded(table, Start) && Reaches(table, Start, s) && s.code <= c < End(table, Start).code
    ensures Complete(table, s.p)
  {
    ReachesCoded(table, Start, s);
  }

  lemma {:induction false} PastEnd(table: seq<byte>, s: State, c: int)
    requires WellCoded(table, s) && c >= End(table, s).code
    ensures !InTable(table, s, c)
    decreases |table| - s.p
  {
    if s.p != |table| {
      EndAfter(table, Next(table, s));
      PastEnd(table, Next(table, s), c);
    }
  }

  // ----- Listing the intervals -----

  lemma InAppend(pts: seq<u32>, lo: u32, hi: u32, c: int)
    requires |pts| % 2 == 0
    ensures In(pts + [lo, hi], c) <==> In(pts, c) || lo <= c < hi
  {
    var q := pts + [lo, hi];
    if In(pts, c) {
      var k :| 0 <= k && 2 * k + 1 < |pts| && Between(pts, k, c);
      assert Between(q, k, c);
    }
    if lo <= c < hi {
      assert Between(q, |pts| / 2, c);
    }
    if In(q, c) {
      var k :| 0 <= k && 2 * k + 1 < |q| && Between(q, k, c);
      if 2 * k + 1 < |pts| {
        assert Between(pts, k, c);
      }
    }
  }

  // The points list the members below s.code.
  ghost predicate Listed(table: seq<byte>, pts: seq<u32>, s: State) {
    && |pts| % 2 == 0 && (forall c: int :: In(pts, c) <==> 0 <= c < s.code && InTable(table, Start, c))
    && StrictlyAscending(pts) && (pts != [] ==> pts[|pts| - 1] < s.code + if s.bit then 0 else 1)
  }

  // One run of len code points from s.code on, added when it is in the set.
  lemma RunListed(table: seq<byte>, pts: seq<u32>, s: State, len: nat, t: State)
    requires Listed(table, pts, s) && len >= 1 && t.code == s.code + len <= UINT32_MAX && t.bit == !s.bit
    requires forall c: int :: s.code <= c < t.code ==> (InTable(table, Start, c) <==> s.bit)
    ensures Listed(table, if s.bit then pts + [s.code, t.code] else pts, t)
  {
    var q: seq<u32> := if s.bit then pts + [s.code, t.code] else pts;
    forall c: int ensures In(q, c) <==> 0 <= c < t.code && InTable(table, Start, c) {
      if s.bit {
        InAppend(pts, s.code, t.code, c);
      }
      assert In(pts, c) <==> 0 <= c < s.code && InTable(table, Start, c);
    }
    if s.bit {
      StrictlyAscendingPair(pts, s.code, t.code);
    }
  }

  // cr_add_interval
  method AddInterval(cr: CharRange, lo: u32, hi: u32)
    requires cr.Valid()
    modifies cr, cr.points
    ensures cr.Valid() && cr.Pts() == old(cr.Pts()) + [lo, hi]
    ensures cr.points == old(cr.points) || fresh(cr.points)
  {
    cr.AddPoint(lo);
    cr.AddPoint(hi);
  }

  lemma NextFits(table: seq<byte>, s: State)
    requires Complete(table, s.p)
    ensures Next(table, s).p <= |table|
  {
  }

  // One token of unicode_prop1: its runs that are in the set are added.
  method AddRuns(cr: CharRange, table: seq<byte>, p: nat, code: nat, bit0: bool) returns (c: nat, bit: bool)
    requires cr.Valid() && Complete(table, p) && code + FirstRun(table, p) + SecondRun(table, p) < CODE_LIMIT
    requires Listed(table, cr.Pts(), State(p, code, bit0))
    requires forall c: int :: code <= c < code + FirstRun(table, p) ==> (InTable(table, Start, c) <==> bit0)
    requires forall c: int :: code + FirstRun(table, p) <= c < code + FirstRun(table, p) + SecondRun(table, p) ==>
             (InTable(table, Start, c) <==> !bit0)
    modifies cr, cr.points
    ensures cr.Valid() && (cr.points == old(cr.points) || fresh(cr.points))
    ensures State(p + TokenSize(table[p]), c, bit) == Next(table, State(p, code, bit0))
    ensures Listed(table, cr.Pts(), Next(table, State(p, code, bit0)))
  {
    hide Listed;
    hide InTable;
    var c0 := code;
    bit := bit0;
    c := c0 + FirstRun(table, p);
    ghost var mid := State(p, c, !bit);
    RunListed(table, cr.Pts(), State(p, code, bit), FirstRun(table, p), mid);
    if bit {
      AddInterval(cr, c0, c);
    }
    if table[p] < 64 {
      bit := !bit;
      c0 := c;
      c := c + SecondRun(table, p);
      RunListed(table, cr.Pts(), mid, SecondRun(table, p), State(p, c, !bit));
      if bit {
        AddInterval(cr, c0, c);
      }
    }
    bit := !bit;
    SamePoints(table, cr.Pts(), State(p, c, bit), Next(table, State(p, code, bit0)));
  }

  // What is listed depends on the code point and the bit only.
  lemma SamePoints(table: seq<byte>, pts: seq<u32>, s: State, t: State)
    requires Listed(table, pts, s) && s.code == t.code && s.bit == t.bit
    ensures Listed(table, pts, t)
  {
  }

  // The points are the two ends of each run inside the set, in order.
  ghost predicate ListsRuns(pts: seq<u32>, runs: seq<nat>) {
    |pts| == |runs| / 2 * 2 && forall k: nat :: k < |pts| ==> PointIs(pts, runs, k)
  }

  ghost predicate PointIs(pts: seq<u32>, runs: seq<nat>, k: nat)
    requires k < |pts| && k < |runs|
  {
    pts[k] as int == Total(runs, k + 1)
  }

  lemma {:induction false} WellTotal(table: seq<byte>, p: nat, runs: seq<nat>, i: nat)
    requires CodedAt(table, p, runs, i) && WellCoded(table, Before(runs, i, p))
    ensures Total(runs, |runs|) < CODE_LIMIT
    decreases |runs| - i
  {
    if i < |runs| {
      NextRun(table, p, runs, i);
      WellTotal(table, p + TokenSize(table[p]), runs, i + Taken(runs, i));
    }
  }

  // The ends of the runs list the code points of the runs, and no other points do.
  lemma RunEnds(runs: seq<nat>, q: seq<u32>)
    requires Lengths(runs) && |q| == |runs| / 2 * 2 && forall k: nat :: k < |q| ==> PointIs(q, runs, k)
    ensures StrictlyAscending(q) && forall c: int :: In(q, c) <==> InRuns(runs, c)
  {
    forall i, j | 0 <= i < j < |q| ensures q[i] < q[j] {
      assert PointIs(q, runs, i) && PointIs(q, runs, j);
      TotalMonotone(runs, i + 1, j + 1);
    }
    forall c: int ensures In(q, c) <==> InRuns(runs, c) {
      hide Total;
      if In(q, c) {
        var k :| 0 <= k && 2 * k + 1 < |q| && Between(q, k, c);
        assert PointIs(q, runs, 2 * k) && PointIs(q, runs, 2 * k + 1);
        assert RunAt(runs, 2 * k + 1, c);
      }
      if InRuns(runs, c) {
        var k: nat :| k < |runs| && k % 2 == 1 && RunAt(runs, k, c);
        assert PointIs(q, runs, k - 1) && PointIs(q, runs, k);
        assert Between(q, k / 2, c);
      }
    }
  }

  ghost function EndPoints(runs: seq<nat>): (q: seq<u32>)
    requires Total(runs, |runs|) < CODE_LIMIT
    ensures |q| == |runs| / 2 * 2 && forall k: nat :: k < |q| ==> PointIs(q, runs, k)
  {
    seq(|runs| / 2 * 2, k requires 0 <= k < |runs| / 2 * 2 => EndPoint(runs, k))
  }

  ghost function EndPoint(runs: seq<nat>, k: nat): u32
    requires k < |runs| && Total(runs, |runs|) < CODE_LIMIT
  {
    TotalMonotone(runs, k + 1, |runs|);
    Total(runs, k + 1) as u32
  }

  lemma PointsAreRuns(pts: seq<u32>, runs: seq<nat>)
    requires Lengths(runs) && WellCoded(Encode(runs), Start) && StrictlyAscending(pts) && |pts| % 2 == 0
    requires forall c: int :: In(pts, c) <==> 0 <= c && InTable(Encode(runs), Start, c)
    ensures ListsRuns(pts, runs)
  {
    assert Encode(runs)[0..] == Encode(runs);
    WellTotal(Encode(runs), 0, runs, 0);
    hide WellCoded;
    hide InTable;
    hide Encode;
    hide Total;
    hide In;
    var q := EndPoints(runs);
    RunEnds(runs, q);
    hide StrictlyAscending;
    forall c: int ensures In(pts, c) <==> In(q, c) {
      if c >= 0 {
        EncodeDecodes(runs, c);
      } else {
        NoneBelow(runs, c);
      }
    }
    Canonical(pts, q);
  }

  lemma NoneBelow(runs: seq<nat>, c: int)
    requires c < 0
    ensures !InRuns(runs, c)
  {
  }

  // unicode_prop1: the intervals of the set, in ascending order, none empty or touching
  method UnicodeProp1(cr: CharRange, table: seq<byte>)
    requires cr.Valid() && cr.Pts() == [] && WellCoded(table, Start)
    modifies cr, cr.points
    ensures cr.Valid() && StrictlyAscending(cr.Pts()) && |cr.Pts()| % 2 == 0
    ensures forall c: int :: In(cr.Pts(), c) <==> 0 <= c && InTable(table, Start, c)
    ensures forall runs :: Lengths(runs) && table == Encode(runs) ==> ListsRuns(cr.Pts(), runs)
  {
    hide WellCoded;
    hide Reaches;
    hide Listed;
    hide In;
    hide StrictlyAscending;
    hide InTable;
    var p: nat, c: nat, bit := 0, 0, false;
    StartListed(table);
    while p < |table|
      invariant cr.Valid() && (cr.points == old(cr.points) || fresh(cr.points))
      invariant p <= |table| && Reaches(table, Start, State(p, c, bit)) && Listed(table, cr.Pts(), State(p, c, bit))
      decreases |table| - p
    {
      ghost var s := State(p, c, bit);
      RunMembers(table, s);
      ReachesNext(table, Start, s);
      NextFits(table, s);
      c, bit := AddRuns(cr, table, p, c, bit);
      p := p + TokenSize(table[p]);
    }
    AllListed(table, cr.Pts(), State(p, c, bit));
    forall runs | Lengths(runs) && table == Encode(runs) ensures ListsRuns(cr.Pts(), runs) {
      PointsAreRuns(cr.Pts(), runs);
    }
  }

  lemma StartListed(table: seq<byte>)
    ensures Listed(table, [], Start) && Reaches(table, Start, Start)
  {
  }

  // The runs at s, as members of the set.
  lemma RunMembers(table: seq<byte>, s: State)
    requires WellCoded(table, Start) && Reaches(table, Start, s) && s.p < |table|
    ensures Complete(table, s.p) && s.code + FirstRun(table, s.p) + SecondRun(table, s.p) < CODE_LIMIT
    ensures forall c: int :: s.code <= c < s.code + FirstRun(table, s.p) ==> (InTable(table, Start, c) <==> s.bit)
    ensures forall c: int ::
              s.code + FirstRun(table, s.p) <= c < s.code + FirstRun(table, s.p) + SecondRun(table, s.p) ==>
                (InTable(table, Start, c) <==> !s.bit)
  {
    ReachesCoded(table, Start, s);
    forall c: int | s.code <= c ensures InTable(table, Start, c) <==> InTable(table, s, c) {
      Skip(table, Start, s, c);
    }
  }

  lemma AllListed(table: seq<byte>, pts: seq<u32>, s: State)
    requires WellCoded(table, Start) && Reaches(table, Start, s) && s.p == |table| && Listed(table, pts, s)
    ensures StrictlyAscending(pts) && |pts| % 2 == 0
    ensures forall c: int :: In(pts, c) <==> 0 <= c && InTable(table, Start, c)
  {
    forall c: int ensures In(pts, c) <==> 0 <= c && InTable(table, Start, c) {
      if c >= s.code {
        Skip(table, Start, s, c);
      }
    }
  }
}
