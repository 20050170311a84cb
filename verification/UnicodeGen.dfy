// build_prop_table of quickjs/unicode_gen.c: the table and the index it writes for a property are the
// ones that the queries of quickjs/libunicode.c read back.

module UnicodeGen {
  import opened Basics
  import opened UnicodeRuns
  import opened UnicodeTable

  const PROP_BLOCK_LEN: int := 32

  // ----- The runs of a property -----

  // The runs are those of the property: it is their union inside the set.
  ghost predicate RunsOf(runs: seq<nat>, props: seq<bool>) {
    && Lengths(runs) && Total(runs, |runs|) <= |props|
    && forall c: int :: InRuns(runs, c) <==> 0 <= c < |props| && props[c]
  }

  // The lengths of the runs. A last run outside the set is left out. Only a property that does not
  // hold of 0 is described by them.
  method CountRuns(props: seq<bool>) returns (runs: seq<nat>)
    requires 0 < |props| < 0x20_0000
    ensures Lengths(runs) && Total(runs, |runs|) <= |props|
    ensures !props[0] ==> RunsOf(runs, props)
  {
    hide InRunsFrom;
    runs := [];
    var i := 0;
    NoRuns();
    while i < |props|
      invariant 0 <= i <= |props| && Lengths(runs) && Total(runs, |runs|) == i
      invariant !props[0] ==> forall c: int :: InRuns(runs, c) <==> 0 <= c < i && props[c]
      invariant !props[0] && i < |props| ==> (props[i] <==> |runs| % 2 == 1)
    {
      var v := props[i];
      var j := i + 1;
      while j < |props| && props[j] == v
        invariant i < j <= |props| && forall k :: i <= k < j ==> props[k] == v
      {
        j := j + 1;
      }
      var n := j - i;
      if j == |props| && !v {
        break;
      }
      forall c: int
        ensures InRuns(runs + [n], c) <==> InRuns(runs, c) || (|runs| % 2 == 1 && i <= c < j)
      {
        RunAppended(runs, n, c);
      }
      TotalPrefix(runs, [n], |runs|);
      runs := runs + [n];
      i := j;
    }
  }

  lemma NoRuns()
    ensures forall c: int :: !InRuns([], c)
  {
  }

  // ----- Where an index entry can go -----

  // A token starts at q, in front of a run outside the set.
  ghost predicate Place(table: seq<byte>, q: nat) {
    q < |table| && exists c: nat :: Reaches(table, Start, State(q, c, false))
  }

  ghost predicate PlaceNear(table: seq<byte>, k: nat) {
    exists q: nat :: 32 * k <= q <= 32 * k + 7 && Place(table, q)
  }

  // After every 32 bytes there is a place at most 7 bytes on, unless there is none at all.
  ghost predicate Indexable(table: seq<byte>) {
    forall k: nat, q: nat :: k >= 1 && 32 * k + 7 < q && Place(table, q) ==> PlaceNear(table, k)
  }

  lemma {:induction false} ReachesUp(table: seq<byte>, s: State, t: State)
    requires Reaches(table, s, t)
    ensures s.p <= t.p && (s == t || (Complete(table, s.p) && Next(table, s).p <= t.p))
    decreases |table| - s.p
  {
    if s != t {
      ReachesUp(table, Next(table, s), t);
    }
  }

  lemma {:induction false} ReachesOrdered(table: seq<byte>, a: State, s: State, t: State)
    requires Reaches(table, a, s) && Reaches(table, a, t)
    ensures Reaches(table, s, t) || Reaches(table, t, s)
    decreases |table| - a.p
  {
    if a != s && a != t {
      ReachesOrdered(table, Next(table, a), s, t);
    }
  }

  // No token starts inside another.
  lemma NoneInside(table: seq<byte>, s: State, q: nat)
    requires Reaches(table, Start, s) && Complete(table, s.p) && s.p <= q < Next(table, s).p
    ensures Place(table, q) <==> q == s.p && !s.bit
  {
    if Place(table, q) {
      var c: nat :| Reaches(table, Start, State(q, c, false));
      var t := State(q, c, false);
      ReachesOrdered(table, Start, s, t);
      if Reaches(table, s, t) {
        ReachesUp(table, s, t);
      } else {
        ReachesUp(table, t, s);
      }
    }
    if q == s.p && !s.bit {
      assert Reaches(table, Start, State(q, s.code, false));
    }
  }

  // ----- Writing the table and the index -----

  function Le24(v: nat): seq<byte>
    requires v < 0x100_0000
  {
    [v % 0x100, v / 0x100 % 0x100, v / 0x1_0000]
  }

  lemma Le24Read(index: seq<byte>, v: nat)
    requires v < 0x100_0000
    ensures GetLe24(index + Le24(v), |index|) == v
    ensures forall k: nat :: 3 * k + 3 <= |index| ==>
              GetLe24(index + Le24(v), 3 * k) == GetLe24(index, 3 * k)
  {
    var more := index + Le24(v);
    assert more[|index|] == v % 0x100 && more[|index| + 1] == v / 0x100 % 0x100 && more[|index| + 2] == v / 0x1_0000;
    assert v / 0x100 == v / 0x1_0000 * 0x100 + v / 0x100 % 0x100;
  }

  // Entry k is one for a place near its block, not past code.
  ghost predicate EntryGood(table: seq<byte>, index: seq<byte>, k: nat, code: nat)
    requires 3 * k + 3 <= |index|
  {
    EntryOk(table, index, k) && EntryCode(index, k) <= code && PlaceNear(table, k + 1)
  }

  // n entries of the index, none of them past code.
  ghost predicate Entries(table: seq<byte>, index: seq<byte>, n: nat, code: nat) {
    && |index| == 3 * n
    && (forall k: nat :: k < n ==> EntryGood(table, index, k, code))
    && (forall j: nat, k: nat :: j < k < n ==> EntryCode(index, j) <= EntryCode(index, k))
  }

  // Appending to the index keeps what it holds.
  lemma EntryKept(table: seq<byte>, index: seq<byte>, v: nat, k: nat)
    requires v < 0x100_0000 && 3 * k + 3 <= |index|
    ensures var more := index + Le24(v);
      EntryCode(more, k) == EntryCode(index, k) && (EntryOk(table, more, k) <==> EntryOk(table, index, k))
  {
    Le24Read(index, v);
    hide Reaches;
    hide GetLe24;
    hide Le24;
  }

  lemma EntryNew(index: seq<byte>, n: nat, code: nat, offset: nat)
    requires |index| == 3 * n && code < 0x20_0000 && offset <= 7
    ensures code + offset * 0x20_0000 < 0x100_0000
    ensures var more := index + Le24(code + offset * 0x20_0000);
      EntryCode(more, n) == code && EntryPos(more, n) == 32 * (n + 1) + offset
  {
    Le24Read(index, code + offset * 0x20_0000);
    assert (code + offset * 0x20_0000) % CODE_LIMIT == code && (code + offset * 0x20_0000) / CODE_LIMIT == offset;
    hide GetLe24;
    hide Le24;
  }

  lemma EntriesKept(table: seq<byte>, index: seq<byte>, n: nat, code: nat, v: nat)
    requires Entries(table, index, n, code) && v < 0x100_0000
    ensures var more := index + Le24(v);
      && |more| == 3 * (n + 1)
      && (forall k: nat :: k < n ==> EntryGood(table, more, k, code))
      && (forall j: nat, k: nat :: j < k < n ==> EntryCode(more, j) <= EntryCode(more, k))
  {
    var more := index + Le24(v);
    hide EntryOk;
    hide PlaceNear;
    forall k: nat | k < n ensures EntryGood(table, more, k, code) && EntryCode(more, k) == EntryCode(index, k) {
      assert EntryGood(table, index, k, code);
      EntryKept(table, index, v, k);
    }
  }

  // What has been written for the first i runs.
  ghost predicate Written(table: seq<byte>, runs: seq<nat>, i: nat, size: nat) {
    i <= |runs| && CodedAt(table, size, runs, i) && Reaches(table, Start, Before(runs, i, size))
  }

  // The next entry goes to the first place from end on, and that is not behind size.
  ghost predicate NextPlace(table: seq<byte>, end: int, size: nat) {
    forall q: nat :: Place(table, q) && end <= q ==> size <= q
  }

  lemma PlaceHere(table: seq<byte>, k: nat, s: State)
    requires Reaches(table, Start, s) && !s.bit && s.p < |table| && 32 * k <= s.p <= 32 * k + 7
    ensures PlaceNear(table, k)
  {
    hide Reaches;
    assert s == State(s.p, s.code, false);
    assert Place(table, s.p);
  }

  lemma EntryAdded(table: seq<byte>, index: seq<byte>, n: nat, s: State, offset: nat, v: nat)
    requires Entries(table, index, n, s.code) && Reaches(table, Start, s) && !s.bit && s.p < |table|
    requires s.p == 32 * (n + 1) + offset && offset <= 7 && s.code < CODE_LIMIT && v == s.code + offset * 0x20_0000
    ensures v < 0x100_0000 && Entries(table, index + Le24(v), n + 1, s.code)
  {
    hide Reaches;
    hide EntryGood;
    hide EntryPos;
    hide EntryCode;
    EntryNew(index, n, s.code, offset);
    hide Le24;
    EntriesKept(table, index, n, s.code, v);
    hide Entries;
    OneMore(table, index + Le24(v), n, s);
  }

  lemma OneMore(table: seq<byte>, index: seq<byte>, n: nat, s: State)
    requires |index| == 3 * (n + 1) && EntryCode(index, n) == s.code && EntryPos(index, n) == s.p
    requires Reaches(table, Start, s) && !s.bit && s.p < |table| && 32 * (n + 1) <= s.p <= 32 * (n + 1) + 7
    requires forall k: nat :: k < n ==> EntryGood(table, index, k, s.code)
    requires forall j: nat, k: nat :: j < k < n ==> EntryCode(index, j) <= EntryCode(index, k)
    ensures Entries(table, index, n + 1, s.code)
  {
    hide EntryCode;
    hide EntryPos;
    hide Reaches;
    PlaceHere(table, n + 1, s);
    assert s == State(EntryPos(index, n), EntryCode(index, n), false);
    assert EntryOk(table, index, n);
    hide EntryOk;
    hide PlaceNear;
    forall j: nat, k: nat | j < k <= n ensures EntryCode(index, j) <= EntryCode(index, k) {
      assert EntryGood(table, index, j, s.code);
    }
  }

  lemma LastEntry(table: seq<byte>, index: seq<byte>, n: nat, code: nat)
    requires Entries(table, index, n, code) && WellCoded(table, Start) && End(table, Start).code == code < CODE_LIMIT
    ensures |index + Le24(code)| == 3 * (n + 1) && Indexed(table, index + Le24(code), n + 1)
  {
    var more := index + Le24(code);
    EntryNew(index, n, code, 0);
    Le24Read(index, code);
    EntriesKept(table, index, n, code, code);
    hide WellCoded;
    hide End;
    hide GetLe24;
    hide Le24;
    hide EntryPos;
    hide EntryCode;
    hide PlaceNear;
    hide EntryOk;
    forall k: nat | k < n ensures EntryOk(table, more, k) && EntryCode(more, k) <= code {
      assert EntryGood(table, more, k, code);
    }
  }

  // The token of the runs from run i on, as the source computes it.
  method PutToken(runs: seq<nat>, i: nat) returns (t: seq<byte>, taken: nat)
    requires Lengths(runs) && i < |runs|
    ensures t == Token(runs, i) && taken == Taken(runs, i)
  {
    var v := runs[i] - 1;
    taken := 1;
    if v < 8 && i + 1 < |runs| && runs[i + 1] - 1 < 8 {
      t := [v * 8 + (runs[i + 1] - 1)];
      taken := 2;
    } else if v < 128 {
      t := [0x80 + v];
    } else if v < 0x2000 {
      t := [0x40 + v / 0x100, v % 0x100];
    } else {
      t := [0x60 + v / 0x1_0000, v / 0x100 % 0x100, v % 0x100];
    }
  }

  lemma StartWritten(table: seq<byte>, runs: seq<nat>)
    requires Lengths(runs) && table == Encode(runs)
    ensures Written(table, runs, 0, 0) && Entries(table, [], 0, 0) && NextPlace(table, 32, 0)
  {
    assert table[0..] == table;
  }

  // Another token: the table goes on with it.
  lemma WrittenStep(table: seq<byte>, runs: seq<nat>, i: nat, size: nat)
    requires Written(table, runs, i, size) && i < |runs|
    ensures size + |Token(runs, i)| <= |table| && table[..size] + Token(runs, i) == table[..size + |Token(runs, i)|]
    ensures Written(table, runs, i + Taken(runs, i), size + |Token(runs, i)|)
  {
    var t := Token(runs, i);
    assert table[size..] == t + EncodeFrom(runs, i + Taken(runs, i));
    TokenIs(table, size, runs, i);
    NextRun(table, size, runs, i);
    ReachesNext(table, Start, Before(runs, i, size));
    assert table[size..][..|t|] == t;
  }

  // Inside the token there is no place, and at its start there is none for another entry.
  lemma PlaceStep(table: seq<byte>, runs: seq<nat>, i: nat, size: nat, end: int)
    requires Written(table, runs, i, size) && i < |runs|
    requires NextPlace(table, end, size) && (end <= size ==> i % 2 == 1)
    ensures NextPlace(table, end, size + |Token(runs, i)|)
  {
    var s := Before(runs, i, size);
    TokenIs(table, size, runs, i);
    hide CodedAt;
    hide FirstRun;
    hide SecondRun;
    hide Place;
    hide Reaches;
    hide Token;
    hide Total;
    forall q: nat | Place(table, q) && end <= q ensures size + TokenSize(table[size]) <= q {
      if q < size + TokenSize(table[size]) {
        NoneInside(table, s, q);
      }
    }
  }

  lemma InsideTable(table: seq<byte>, runs: seq<nat>, i: nat, size: nat)
    requires Written(table, runs, i, size)
    ensures Reaches(table, Start, Before(runs, i, size)) && (i < |runs| ==> size < |table|)
    ensures i == |runs| ==> size == |table|
  {
    hide Token;
    assert |table[size..]| == |table| - size;
  }

  lemma LaterPlace(table: seq<byte>, end: int, later: int, size: nat)
    requires NextPlace(table, end, size) && end <= later
    ensures NextPlace(table, later, size)
  {
  }

  lemma EntriesLater(table: seq<byte>, index: seq<byte>, n: nat, code: nat, later: nat)
    requires Entries(table, index, n, code) && code <= later
    ensures Entries(table, index, n, later)
  {
    hide EntryOk;
    hide EntryCode;
    hide PlaceNear;
    forall k: nat | k < n ensures EntryGood(table, index, k, later) {
      assert EntryGood(table, index, k, code);
    }
  }

  lemma NotIndexable(table: seq<byte>, n: nat, s: State)
    requires NextPlace(table, 32 * (n + 1), s.p) && Reaches(table, Start, s) && !s.bit && s.p < |table|
    requires s.p > 32 * (n + 1) + 7
    ensures !Indexable(table)
  {
    assert Place(table, s.p);
    assert !PlaceNear(table, n + 1);
  }

  lemma AllIndexable(table: seq<byte>, index: seq<byte>, n: nat, code: nat)
    requires Entries(table, index, n, code) && NextPlace(table, 32 * (n + 1), |table|)
    ensures Indexable(table)
  {
    hide PlaceNear;
    forall k: nat, q: nat | k >= 1 && 32 * k + 7 < q && Place(table, q) ensures PlaceNear(table, k) {
      if k - 1 < n {
        assert EntryGood(table, index, k - 1, code);
      }
    }
  }

  // The table so far, in front of run i.
  ghost predicate Progress(whole: seq<byte>, runs: seq<nat>, i: nat, table: seq<byte>, code: nat, bit: bool) {
    && Written(whole, runs, i, |table|) && |table| <= |whole| && table == whole[..|table|]
    && code == Total(runs, i) && bit == (i % 2 == 1)
  }

  // The index so far, for the first size bytes of the table.
  ghost predicate Indexing(table: seq<byte>, index: seq<byte>, blockEndPos: int, n: nat, code: nat, size: nat) {
    Entries(table, index, n, code) && blockEndPos == 32 * (n + 1) && NextPlace(table, blockEndPos, size)
  }

  // An index entry in front of the next token, if one is due. It fails if the place is too far on.
  method PutEntry(table: seq<byte>, index: seq<byte>, blockEndPos: int, code: nat, bit: bool, ghost whole: seq<byte>,
                  ghost runs: seq<nat>, ghost i: nat, ghost n: nat)
    returns (ok: bool, index': seq<byte>, blockEndPos': int, ghost n': nat)
    requires Progress(whole, runs, i, table, code, bit) && i < |runs| && Total(runs, |runs|) < CODE_LIMIT
    requires Indexing(whole, index, blockEndPos, n, code, |table|)
    ensures !ok ==> !Indexable(whole)
    ensures ok ==> Lengths(runs) && Indexing(whole, index', blockEndPos', n', Total(runs, i + Taken(runs, i)),
                                             |table| + |Token(runs, i)|)
  {
    ok, index', blockEndPos', n' := true, index, blockEndPos, n;
    InsideTable(whole, runs, i, |table|);
    TotalMonotone(runs, i, |runs|);
    TotalMonotone(runs, i, i + Taken(runs, i));
    hide Entries;
    hide NextPlace;
    hide Reaches;
    hide Total;
    hide Indexable;
    hide CodedAt;
    if |table| >= blockEndPos && !bit {
      var offset := |table| - blockEndPos;
      if offset > 7 {
        NotIndexable(whole, n, Before(runs, i, |table|));
        return false, [], 0, 0;
      }
      EntryAdded(whole, index, n, Before(runs, i, |table|), offset, code + offset * 0x20_0000);
      index' := index + Le24(code + offset * 0x20_0000);
      blockEndPos' := blockEndPos + PROP_BLOCK_LEN;
      n' := n + 1;
      LaterPlace(whole, blockEndPos, blockEndPos', |table|);
    }
    PlaceStep(whole, runs, i, |table|, blockEndPos');
    EntriesLater(whole, index', n', code, Total(runs, i + Taken(runs, i)));
  }

  // The next token, the code point behind it, and whether the run there is inside the set.
  method PutRuns(runs: seq<nat>, i: nat, table: seq<byte>, code: nat, bit: bool, ghost whole: seq<byte>)
    returns (taken: nat, table': seq<byte>, code': nat, bit': bool)
    requires Lengths(runs) && Progress(whole, runs, i, table, code, bit) && i < |runs|
    ensures taken == Taken(runs, i) && |table'| == |table| + |Token(runs, i)|
    ensures i + taken <= |runs| && Progress(whole, runs, i + taken, table', code', bit')
  {
    WrittenStep(whole, runs, i, |table|);
    hide Written;
    hide Token;
    var t;
    t, taken := PutToken(runs, i);
    table' := table + t;
    code', bit' := code + runs[i], !bit;
    assert code' == Total(runs, i + 1);
    if taken == 2 {
      assert Total(runs, i + 2) == Total(runs, i + 1) + runs[i + 1];
      code', bit' := code' + runs[i + 1], !bit';
    }
  }

  // The second half of build_prop_table: the table of the runs, and the index.
  method EncodeRuns(runs: seq<nat>, addIndex: bool)
    returns (ok: bool, table: seq<byte>, index: seq<byte>, ghost n: nat)
    requires Lengths(runs) && Total(runs, |runs|) < CODE_LIMIT
    ensures ok <==> (addIndex ==> Indexable(Encode(runs)))
    ensures ok ==> table == Encode(runs)
    ensures ok && addIndex ==> Indexed(table, index, n)
  {
    ghost var whole := Encode(runs);
    StartWritten(whole, runs);
    hide Encode;
    hide Indexable;
    hide Lengths;
    table, index, n := [], [], 0;
    var blockEndPos := PROP_BLOCK_LEN;
    var i, code, bit := 0, 0, false;
    assert Progress(whole, runs, i, table, code, bit) && Indexing(whole, index, blockEndPos, n, code, |table|);
    hide Progress;
    hide Indexing;
    while i < |runs|
      invariant 0 <= i <= |runs| && Progress(whole, runs, i, table, code, bit)
      invariant addIndex ==> Indexing(whole, index, blockEndPos, n, code, |table|)
    {
      if addIndex {
        ok, index, blockEndPos, n := PutEntry(table, index, blockEndPos, code, bit, whole, runs, i, n);
        if !ok {
          return false, [], [], 0;
        }
      }
      var taken;
      taken, table, code, bit := PutRuns(runs, i, table, code, bit, whole);
      i := i + taken;
      ProgressCode(whole, runs, i, table, code, bit);
    }
    ProgressEnds(whole, runs, table, code, bit);
    if addIndex {
      IndexEnds(whole, runs, index, blockEndPos, n, code);
      index, n := index + Le24(code), n + 1;
    }
    ok := true;
  }

  lemma ProgressCode(whole: seq<byte>, runs: seq<nat>, i: nat, table: seq<byte>, code: nat, bit: bool)
    requires Progress(whole, runs, i, table, code, bit)
    ensures i <= |runs| && code == Total(runs, i)
  {
  }

  lemma ProgressEnds(whole: seq<byte>, runs: seq<nat>, table: seq<byte>, code: nat, bit: bool)
    requires Progress(whole, runs, |runs|, table, code, bit)
    ensures table == whole && code == Total(runs, |runs|)
  {
    InsideTable(whole, runs, |runs|, |table|);
  }

  lemma IndexEnds(whole: seq<byte>, runs: seq<nat>, index: seq<byte>, blockEndPos: int, n: nat, code: nat)
    requires Lengths(runs) && whole == Encode(runs) && code == Total(runs, |runs|) < CODE_LIMIT
    requires Indexing(whole, index, blockEndPos, n, code, |whole|)
    ensures Indexable(whole) && Indexed(whole, index + Le24(code), n + 1)
  {
    hide Entries;
    hide NextPlace;
    hide Indexable;
    hide Indexed;
    EndCode(whole, runs);
    AllIndexable(whole, index, n, code);
    LastEntry(whole, index, n, code);
  }

  lemma EndCode(table: seq<byte>, runs: seq<nat>)
    requires Lengths(runs) && table == Encode(runs) && Total(runs, |runs|) < CODE_LIMIT
    ensures WellCoded(table, Start) && End(table, Start).code == Total(runs, |runs|)
  {
    assert table[0..] == table;
    CodedWell(table, 0, runs, 0);
  }

  // build_prop_table: what the queries read back is the property.
  method BuildPropTable(props: seq<bool>, addIndex: bool)
    returns (ok: bool, table: seq<byte>, index: seq<byte>, ghost n: nat)
    requires 0 < |props| < 0x20_0000
    ensures props[0] ==> !ok
    ensures !props[0] ==> exists runs :: RunsOf(runs, props) && (ok <==> (addIndex ==> Indexable(Encode(runs)))) &&
                                         (ok ==> table == Encode(runs))
    ensures ok ==> WellCoded(table, Start) && forall c: nat :: InTable(table, Start, c) <==> c < |props| && props[c]
    ensures ok && addIndex ==> Indexed(table, index, n)
  {
    var runs := CountRuns(props);
    if props[0] {
      return false, [], [], 0;
    }
    assert RunsOf(runs, props);
    ok, table, index, n := EncodeRuns(runs, addIndex);
    if ok {
      TableOfRuns(runs, props);
    }
  }

  lemma TableOfRuns(runs: seq<nat>, props: seq<bool>)
    requires RunsOf(runs, props) && |props| < 0x20_0000
    ensures WellCoded(Encode(runs), Start)
    ensures forall c: nat :: InTable(Encode(runs), Start, c) <==> c < |props| && props[c]
  {
    assert Encode(runs)[0..] == Encode(runs);
    CodedWell(Encode(runs), 0, runs, 0);
    hide WellCoded;
    hide InTable;
    hide InRunsFrom;
    hide Encode;
    hide Total;
    forall c: nat ensures InTable(Encode(runs), Start, c) <==> c < |props| && props[c] {
      EncodeDecodes(runs, c);
      assert InRuns(runs, c) <==> 0 <= c < |props| && props[c];
    }
  }
}
