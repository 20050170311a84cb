// lz_compress of quickjs/jscompress.c: an LZ encoder with hash chains, against the decoder of its
// token stream and against a brute-force search for the longest match.

module LzCompress {
  import opened Basics

  const HASH_SIZE: int := 30011
  const MATCH_LEN_MIN: int := 3
  const MATCH_LEN_MAX: int := 67
  const DIST_MAX: int := 65535

  // ----- The decoder -----

  // len bytes starting dist + 1 bytes back; the source may overlap what is being copied.
  function CopyMatch(out: seq<byte>, dist: nat, len: nat): Option<seq<byte>>
    decreases len
  {
    if len == 0 then Some(out)
    else if dist >= |out| then None
    else CopyMatch(out + [out[|out| - 1 - dist]], dist, len - 1)
  }

  function PairValue(high: byte, low: byte): nat {
    high as int * 0x100 + low
  }

  // A byte below 128 is a literal, 0x80 to 0xbf starts a match in two bytes and 0xc0 to 0xff one in three.
  function Decode(out: seq<byte>, q: seq<byte>): Option<seq<byte>>
    decreases |q|
  {
    if q == [] then Some(out)
    else if q[0] < 0x80 then Decode(out + [q[0]], q[1..])
    else if q[0] < 0xc0 then
      if |q| < 2 then None
      else
        var v := PairValue(q[0], q[1]) - 0x8000;
        var next := CopyMatch(out, v % 0x400, v / 0x400 + 3);
        if next.None? then None else Decode(next.value, q[2..])
    else
      if |q| < 3 then None
      else
        var next := CopyMatch(out, PairValue(q[1], q[2]), q[0] - 0xc0 + 4);
        if next.None? then None else Decode(next.value, q[3..])
  }

  // Decoding can stop and go on between tokens.
  lemma {:induction false} DecodeMore(out: seq<byte>, q: seq<byte>, t: seq<byte>)
    requires Decode(out, q).Some?
    ensures Decode(out, q + t) == Decode(Decode(out, q).value, t)
    decreases |q|
  {
    hide CopyMatch;
    if q == [] {
      assert q + t == t;
    } else if q[0] < 0x80 {
      assert (q + t)[1..] == q[1..] + t;
      DecodeMore(out + [q[0]], q[1..], t);
    } else if q[0] < 0xc0 {
      assert (q + t)[2..] == q[2..] + t;
      var v := PairValue(q[0], q[1]) - 0x8000;
      DecodeMore(CopyMatch(out, v % 0x400, v / 0x400 + 3).value, q[2..], t);
    } else {
      assert (q + t)[3..] == q[3..] + t;
      DecodeMore(CopyMatch(out, PairValue(q[1], q[2]), q[0] - 0xc0 + 4).value, q[3..], t);
    }
  }

  // ----- Matches -----

  // The bytes at cur and at pos agree for len bytes.
  predicate Agree(src: seq<byte>, pos: nat, cur: nat, len: nat) {
    pos <= cur && cur + len <= |src| && src[cur..cur + len] == src[pos..pos + len]
  }

  // How far they agree, up to len.
  function MatchLen(src: seq<byte>, pos: nat, cur: nat, len: nat): (n: nat)
    requires pos <= cur && cur + len <= |src|
    ensures n <= len
    decreases len
  {
    if len == 0 || src[cur] != src[pos] then 0 else 1 + MatchLen(src, pos + 1, cur + 1, len - 1)
  }

  lemma {:induction false} MatchAgrees(src: seq<byte>, pos: nat, cur: nat, len: nat)
    requires pos <= cur && cur + len <= |src|
    ensures var n := MatchLen(src, pos, cur, len); Agree(src, pos, cur, n) && (n < len ==> src[cur + n] != src[pos + n])
    decreases len
  {
    if len == 0 || src[cur] != src[pos] {
    } else {
      var n := MatchLen(src, pos + 1, cur + 1, len - 1);
      MatchAgrees(src, pos + 1, cur + 1, len - 1);
      AgreeStep(src, pos, cur, n);
      hide Agree;
    }
  }

  lemma AgreeStep(src: seq<byte>, pos: nat, cur: nat, n: nat)
    requires Agree(src, pos + 1, cur + 1, n) && cur < |src| && pos <= cur && src[cur] == src[pos]
    ensures Agree(src, pos, cur, 1 + n)
  {
    assert src[cur..cur + 1 + n] == [src[cur]] + src[cur + 1..cur + 1 + n];
    assert src[pos..pos + 1 + n] == [src[pos]] + src[pos + 1..pos + 1 + n];
  }

  lemma {:induction false} CopyIs(src: seq<byte>, cur: nat, pos: nat, len: nat)
    requires pos < cur && Agree(src, pos, cur, len)
    ensures CopyMatch(src[..cur], cur - pos - 1, len) == Some(src[..cur + len])
    decreases len
  {
    if len > 0 {
      assert src[cur..cur + len][0] == src[pos..pos + len][0];
      assert src[..cur] + [src[cur]] == src[..cur + 1];
      assert src[cur + 1..cur + len] == src[cur..cur + len][1..];
      assert src[pos + 1..pos + len] == src[pos..pos + len][1..];
      CopyIs(src, cur + 1, pos + 1, len - 1);
    }
  }

  function Hash(src: seq<byte>, i: nat): (h: nat)
    requires i + 3 <= |src|
    ensures h < HASH_SIZE
  {
    (src[i] as int * 0x1_0000 + src[i + 1] as int * 0x100 + src[i + 2]) % HASH_SIZE
  }

  // prev is the last position before n with the hash h, or -1.
  ghost predicate LastWith(src: seq<byte>, h: nat, n: int, prev: int) {
    && -1 <= prev < n && n + 2 <= |src| && (prev >= 0 ==> Hash(src, prev) == h)
    && forall p: nat :: prev < p < n ==> Hash(src, p) != h
  }

  // Every entry leads to the last position before it with the same hash.
  ghost predicate Chains(src: seq<byte>, hashNext: seq<int>) {
    && |hashNext| == |src|
    && (forall i: nat :: i + 3 <= |src| ==> LastWith(src, Hash(src, i), i, hashNext[i]))
    && (forall i: nat :: i < |src| < i + 3 ==> hashNext[i] == -1)
  }

  method BuildChains(src: seq<byte>) returns (hashNext: array<int>)
    ensures fresh(hashNext) && Chains(src, hashNext[..])
  {
    var hashTable := new int[HASH_SIZE](_ => -1);
    hashNext := new int[|src|](_ => -1);
    var i := 0;
    while i < |src| - MATCH_LEN_MIN + 1
      invariant 0 <= i && (i + 2 <= |src| || i == 0)
      invariant i + 2 <= |src| ==> forall h: nat :: h < HASH_SIZE ==> LastWith(src, h, i, hashTable[h])
      invariant forall k: nat :: k < i && k + 3 <= |src| ==> LastWith(src, Hash(src, k), k, hashNext[k])
      invariant forall k: nat :: i <= k < |src| ==> hashNext[k] == -1
    {
      var h := Hash(src, i);
      hashNext[i] := hashTable[h];
      hashTable[h] := i;
      i := i + 1;
    }
    while i < |src|
      invariant 0 <= i && |src| - MATCH_LEN_MIN + 1 <= i
      invariant forall k: nat :: k + 3 <= |src| ==> LastWith(src, Hash(src, k), k, hashNext[k])
      invariant forall k: nat :: k < |src| < k + 3 ==> hashNext[k] == -1
    {
      hashNext[i] := -1;
      i := i + 1;
    }
  }

  function Min(a: int, b: int): int {
    if a <= b then a else b
  }

  function Max(a: int, b: int): int {
    if a >= b then a else b
  }

  // The start of the window of a position.
  function PosMin(cur: nat): nat {
    Max(cur - DIST_MAX - 1, 0)
  }

  function LenMax(src: seq<byte>, cur: nat): nat
    requires cur <= |src|
  {
    Min(|src| - cur, MATCH_LEN_MAX)
  }

  // No position of the window from lo on that starts with the same three bytes matches longer than len.
  ghost predicate NoLonger(src: seq<byte>, cur: nat, lo: int, len: nat)
    requires cur <= |src|
  {
    forall p: nat :: PosMin(cur) <= p < cur && lo <= p ==>
        MatchLen(src, p, cur, LenMax(src, cur)) <= Max(len, MATCH_LEN_MIN - 1)
  }

  // Every position of the window from lo on matches less than len.
  ghost predicate AllShorter(src: seq<byte>, cur: nat, lo: int, len: nat)
    requires cur <= |src|
  {
    forall p: nat :: PosMin(cur) <= p < cur && lo <= p ==> MatchLen(src, p, cur, LenMax(src, cur)) < len
  }

  // A match of three bytes or more has the same hash.
  lemma LongSameHash(src: seq<byte>, p: nat, cur: nat)
    requires p < cur <= |src| && MatchLen(src, p, cur, LenMax(src, cur)) >= MATCH_LEN_MIN
    ensures cur + 3 <= |src| && Hash(src, p) == Hash(src, cur)
  {
    var n := MatchLen(src, p, cur, LenMax(src, cur));
    MatchAgrees(src, p, cur, LenMax(src, cur));
    var x, y := src[cur..cur + n], src[p..p + n];
    assert x[0] == y[0] && x[1] == y[1] && x[2] == y[2];
  }

  lemma NoLongerStep(src: seq<byte>, cur: nat, pos: nat, prev: int, len: nat, h: nat)
    requires pos < cur <= |src| && (cur + 3 <= |src| ==> h == Hash(src, cur)) && NoLonger(src, cur, pos, len) &&
             prev < pos
    requires pos + 3 <= |src| && LastWith(src, h, pos, prev)
    ensures NoLonger(src, cur, prev + 1, len)
  {
    forall p: nat | PosMin(cur) <= p < cur &&
        prev + 1 <= p ensures MatchLen(src, p, cur, LenMax(src, cur)) <= Max(len, MATCH_LEN_MIN - 1) {
      if p < pos && MatchLen(src, p, cur, LenMax(src, cur)) >= MATCH_LEN_MIN {
        LongSameHash(src, p, cur);
        assert false;
      }
    }
  }

  lemma NoLongerHere(src: seq<byte>, cur: nat, pos: nat, len: nat)
    requires pos < cur <= |src| && NoLonger(src, cur, pos + 1, len)
    ensures NoLonger(src, cur, pos, Max(MatchLen(src, pos, cur, LenMax(src, cur)), len))
  {
  }

  // The inner loop of find_longest_match.
  method CommonLength(src: seq<byte>, pos: nat, cur: nat, lenMax: nat) returns (i: nat)
    requires pos <= cur && cur + lenMax <= |src|
    ensures i == MatchLen(src, pos, cur, lenMax)
  {
    i := 0;
    while i < lenMax && src[cur + i] == src[pos + i]
      invariant 0 <= i <= lenMax && MatchLen(src, pos, cur, lenMax) == i + MatchLen(src, pos + i, cur + i, lenMax - i)
    {
      i := i + 1;
    }
  }

  // find_longest_match: the longest match of three bytes or more in the window, if there is one
  method FindLongestMatch(src: seq<byte>, hashNext: seq<int>, curPos: nat) returns (matchLen: nat, dist: int)
    requires curPos < |src| && Chains(src, hashNext)
    ensures NoLonger(src, curPos, 0, matchLen)
    ensures matchLen > 0 ==> var pos := curPos - dist - 1;
      PosMin(curPos) <= pos < curPos && matchLen == MatchLen(src, pos, curPos, LenMax(src, curPos))
    ensures matchLen >= MATCH_LEN_MIN ==> AllShorter(src, curPos, curPos - dist, matchLen)
  {
    var lenMax := Min(|src| - curPos, MATCH_LEN_MAX);
    matchLen := 0;
    var matchPos := 0;
    var posMin := Max(curPos - DIST_MAX - 1, 0);
    var pos := hashNext[curPos];
    StartSearch(src, hashNext, curPos);
    while pos >= posMin
      invariant -1 <= pos < curPos && NoLonger(src, curPos, pos + 1, matchLen)
      invariant pos >= 0 ==> curPos + 3 <= |src| && pos + 3 <= |src| && Hash(src, pos) == Hash(src, curPos)
      invariant matchLen > 0 ==> posMin <= matchPos < curPos && matchLen == MatchLen(src, matchPos, curPos, lenMax)
      invariant matchLen >= MATCH_LEN_MIN ==> AllShorter(src, curPos, matchPos + 1, matchLen)
      decreases pos
    {
      var i := CommonLength(src, pos, curPos, lenMax);
      NoLongerHere(src, curPos, pos, matchLen);
      if i > matchLen {
        matchLen := i;
        matchPos := pos;
      }
      NoLongerStep(src, curPos, pos, hashNext[pos], matchLen, Hash(src, pos));
      pos := hashNext[pos];
    }
    assert NoLonger(src, curPos, 0, matchLen);
    dist := curPos - matchPos - 1;
  }

  lemma StartSearch(src: seq<byte>, hashNext: seq<int>, cur: nat)
    requires cur < |src| && Chains(src, hashNext)
    ensures -1 <= hashNext[cur] < cur && NoLonger(src, cur, hashNext[cur] + 1, 0)
    ensures hashNext[cur] >= 0 ==> cur + 3 <= |src| && Hash(src, hashNext[cur]) == Hash(src, cur)
  {
    if cur + 3 <= |src| {
      assert LastWith(src, Hash(src, cur), cur, hashNext[cur]);
      forall p: nat | PosMin(cur) <= p < cur &&
          hashNext[cur] + 1 <= p ensures MatchLen(src, p, cur, LenMax(src, cur)) <= MATCH_LEN_MIN - 1 {
        if MatchLen(src, p, cur, LenMax(src, cur)) >= MATCH_LEN_MIN {
          LongSameHash(src, p, cur);
        }
      }
    } else {
      assert hashNext[cur] == -1;
    }
  }

  // ----- The encoder -----

  // The body of the output so far decodes to the first i bytes.
  ghost predicate Encodes(src: seq<byte>, body: seq<byte>, i: nat) {
    && i <= |src| && |body| <= i && Decode([], body) == Some(src[..i])
    && forall k :: 0 <= k < i ==> src[k] < 0x80
  }

  lemma LiteralStep(src: seq<byte>, body: seq<byte>, i: nat)
    requires i < |src| && Encodes(src, body, i) && src[i] < 0x80
    ensures Encodes(src, body + [src[i]], i + 1)
  {
    DecodeMore([], body, [src[i]]);
    assert Decode(src[..i], [src[i]]) == Decode(src[..i] + [src[i]], []);
    assert src[..i] + [src[i]] == src[..i + 1];
  }

  // Bytes that agree with earlier bytes below 128 are below 128.
  lemma {:induction false} CopiedBelow(src: seq<byte>, pos: nat, cur: nat, len: nat)
    requires pos < cur && Agree(src, pos, cur, len) && forall k :: 0 <= k < cur ==> src[k] < 0x80
    ensures forall k :: 0 <= k < cur + len ==> src[k] < 0x80
    decreases len
  {
    if len > 0 {
      assert src[cur..cur + len][0] == src[pos..pos + len][0];
      assert src[cur + 1..cur + len] == src[cur..cur + len][1..];
      assert src[pos + 1..pos + len] == src[pos..pos + len][1..];
      CopiedBelow(src, pos + 1, cur + 1, len - 1);
    }
  }

  // A token that decodes to a copy of len bytes.
  lemma MatchStep(src: seq<byte>, body: seq<byte>, i: nat, pos: nat, len: nat, token: seq<byte>)
    requires Encodes(src, body, i) && pos < i && Agree(src, pos, i, len) && |token| <= len
    requires forall out: seq<byte> :: CopyMatch(out, i - pos - 1, len).Some? ==>
             Decode(out, token) == CopyMatch(out, i - pos - 1, len)
    ensures Encodes(src, body + token, i + len)
  {
    DecodeMore([], body, token);
    CopyIs(src, i, pos, len);
    CopiedBelow(src, pos, i, len);
  }

  function ShortToken(len: nat, dist: nat): (t: seq<byte>)
    requires 3 <= len <= 18 && dist < 0x400
    ensures |t| == 2
  {
    var v := 0x8000 + (len - 3) * 0x400 + dist;
    [v / 0x100, v % 0x100]
  }

  lemma OneShort(out: seq<byte>, a: byte, b: byte, dist: nat, len: nat)
    requires 0x80 <= a < 0xc0 && PairValue(a, b) - 0x8000 == (len - 3) * 0x400 + dist && dist < 0x400 && len >= 3
    requires CopyMatch(out, dist, len).Some?
    ensures Decode(out, [a, b]) == CopyMatch(out, dist, len)
  {
    var v := PairValue(a, b) - 0x8000;
    assert v % 0x400 == dist && v / 0x400 == len - 3;
    hide CopyMatch;
    var q := [a, b];
    assert q[2..] == [];
    assert Decode(out, q) == Decode(CopyMatch(out, v % 0x400, v / 0x400 + 3).value, q[2..]);
  }

  lemma ShortBytes(len: nat, dist: nat)
    requires 3 <= len <= 18 && dist < 0x400
    ensures var t := ShortToken(len, dist); 0x80 <= t[0] < 0xc0 &&
                                            PairValue(t[0], t[1]) - 0x8000 == (len - 3) * 0x400 + dist
  {
  }

  lemma ShortDecodes(len: nat, dist: nat, out: seq<byte>)
    requires 3 <= len <= 18 && dist < 0x400 && CopyMatch(out, dist, len).Some?
    ensures Decode(out, ShortToken(len, dist)) == CopyMatch(out, dist, len)
  {
    ShortBytes(len, dist);
    hide ShortToken;
    hide CopyMatch;
    hide Decode;
    var t := ShortToken(len, dist);
    assert t == [t[0], t[1]];
    OneShort(out, t[0], t[1], dist, len);
  }

  function LongToken(len: nat, dist: nat): (t: seq<byte>)
    requires 4 <= len <= 67 && dist < 0x1_0000
    ensures |t| == 3
  {
    var v := 0xc0_0000 + (len - 4) * 0x1_0000 + dist;
    [v / 0x1_0000, (v / 0x100) % 0x100, v % 0x100]
  }

  lemma LongArith(a: int, b: int, c: int)
    requires 0 <= b < 0x100 && 0 <= c < 0x100
    ensures var v := a * 0x1_0000 + b * 0x100 + c; v / 0x1_0000 == a && (v / 0x100) % 0x100 == b && v % 0x100 == c
  {
    var v := a * 0x1_0000 + b * 0x100 + c;
    assert v / 0x100 == a * 0x100 + b;
  }

  lemma LongBytes(len: nat, dist: nat)
    requires 4 <= len <= 67 && dist < 0x1_0000
    ensures var t := LongToken(len, dist); t[0] == 0xc0 + (len - 4) && PairValue(t[1], t[2]) == dist
  {
    LongArith(0xc0 + (len - 4), dist / 0x100, dist % 0x100);
  }

  lemma OneLong(out: seq<byte>, a: byte, b: byte, c: byte)
    requires 0xc0 <= a && CopyMatch(out, PairValue(b, c), a - 0xc0 + 4).Some?
    ensures Decode(out, [a, b, c]) == CopyMatch(out, PairValue(b, c), a - 0xc0 + 4)
  {
    hide CopyMatch;
    var q := [a, b, c];
    assert q[3..] == [];
    assert Decode(out, q) == Decode(CopyMatch(out, PairValue(b, c), a - 0xc0 + 4).value, q[3..]);
  }

  lemma LongDecodes(len: nat, dist: nat, out: seq<byte>)
    requires 4 <= len <= 67 && dist < 0x1_0000 && CopyMatch(out, dist, len).Some?
    ensures Decode(out, LongToken(len, dist)) == CopyMatch(out, dist, len)
  {
    LongBytes(len, dist);
    hide LongToken;
    hide CopyMatch;
    hide Decode;
    var t := LongToken(len, dist);
    assert t == [t[0], t[1], t[2]];
    OneLong(out, t[0], t[1], t[2]);
  }

  // ----- Which tokens are written -----

  // The n bytes at i repeat those at p: at most 67 of them, at most 65536 further back.
  ghost predicate Copies(src: seq<byte>, p: int, i: nat, n: nat) {
    && 0 <= p < i <= p + 65536 && n <= 67 && i + n <= |src|
    && src[i..i + n] == src[p..p + n]
  }

  // Nothing longer than n can be copied to i.
  ghost predicate AtMost(src: seq<byte>, i: nat, n: nat) {
    forall p, m: nat :: Copies(src, p, i, m) ==> m <= n
  }

  // At i a copy of n bytes is written, from d + 1 bytes back: the longest there is, from as near as
  // there is one, if it has three bytes, if there is no longer one at i + 1 and if a token can say so.
  ghost predicate Emits(src: seq<byte>, i: nat, n: nat, d: int) {
    && n >= 3 && AtMost(src, i, n) && AtMost(src, i + 1, n)
    && Copies(src, i - d - 1, i, n) && (forall p :: i - d - 1 < p < i ==> !Copies(src, p, i, n))
    && (n >= 4 || d < 1024)
  }

  // The two forms of such a token.
  ghost predicate Coded(t: seq<byte>, n: nat, d: int) {
    if n <= 18 && d < 1024 then |t| == 2 && t[0] as int * 256 + t[1] as int == 0x8000 + (n - 3) * 1024 + d
    else |t| == 3 && t[0] as int == 0xC0 + n - 4 && t[1] as int * 256 + t[2] as int == d
  }

  // The token t stands at i for the next n bytes. Where no copy is written it is the byte itself.
  ghost predicate TokenAt(src: seq<byte>, i: nat, t: seq<byte>, n: nat)
    requires i < |src|
  {
    || (n == 1 && t == [src[i]] && forall m, d :: !Emits(src, i, m, d))
    || exists d :: Emits(src, i, n, d) && Coded(t, n, d)
  }

  // q is the tokens for the bytes from i to j.
  ghost predicate Tokens(src: seq<byte>, i: nat, j: nat, q: seq<byte>)
    decreases j - i
  {
    if i >= j then i == j && q == []
    else i < |src| && exists n: nat, k: nat :: FirstToken(src, i, j, q, n, k)
  }

  // The first of them is k bytes long and stands for n bytes.
  ghost predicate FirstToken(src: seq<byte>, i: nat, j: nat, q: seq<byte>, n: nat, k: nat)
    requires i < |src| && i < j
    decreases j - i, 0
  {
    n > 0 && k <= |q| && TokenAt(src, i, q[..k], n) && i + n <= j && Tokens(src, i + n, j, q[k..])
  }

  lemma {:induction false} TokensMore(src: seq<byte>, i: nat, j: nat, q: seq<byte>, t: seq<byte>, n: nat)
    requires Tokens(src, i, j, q) && j < |src| && TokenAt(src, j, t, n) && n > 0
    ensures Tokens(src, i, j + n, q + t)
    decreases j - i
  {
    hide TokenAt;
    if i == j {
      assert q + t == t && t[..|t|] == t && t[|t|..] == [];
      assert FirstToken(src, i, j + n, q + t, n, |t|);
    } else {
      var m: nat, k: nat :| FirstToken(src, i, j, q, m, k);
      TokensMore(src, i + m, j, q[k..], t, n);
      assert (q + t)[..k] == q[..k] && (q + t)[k..] == q[k..] + t;
      assert FirstToken(src, i, j + n, q + t, m, k);
    }
  }

  // There is only one way to write them.
  lemma {:induction false} TokensUnique(src: seq<byte>, i: nat, j: nat, q: seq<byte>, q': seq<byte>)
    requires Tokens(src, i, j, q) && Tokens(src, i, j, q')
    ensures q == q'
    decreases j - i
  {
    hide TokenAt;
    if i < j {
      var n: nat, k: nat :| FirstToken(src, i, j, q, n, k);
      var n': nat, k': nat :| FirstToken(src, i, j, q', n', k');
      TokenUnique(src, i, q[..k], q'[..k'], n, n');
      TokensUnique(src, i + n, j, q[k..], q'[k'..]);
      assert q == q[..k] + q[k..] && q' == q'[..k'] + q'[k'..];
    }
  }

  lemma TokenUnique(src: seq<byte>, i: nat, t: seq<byte>, t': seq<byte>, n: nat, n': nat)
    requires i < |src| && TokenAt(src, i, t, n) && TokenAt(src, i, t', n')
    ensures n == n' && t == t'
  {
    if d :| Emits(src, i, n, d) && Coded(t, n, d) {
      var d' :| Emits(src, i, n', d') && Coded(t', n', d');
      EmitsUnique(src, i, n, n', d, d');
      hide Emits;
      CodedUnique(t, t', n, d);
    }
  }

  lemma EmitsUnique(src: seq<byte>, i: nat, n: nat, n': nat, d: int, d': int)
    requires Emits(src, i, n, d) && Emits(src, i, n', d')
    ensures n == n' && d == d'
  {
    Inside(src, i - d - 1, i, n);
    Inside(src, i - d' - 1, i, n');
    hide Copies;
  }

  lemma CodedUnique(t: seq<byte>, t': seq<byte>, n: nat, d: int)
    requires Coded(t, n, d) && Coded(t', n, d)
    ensures t == t'
  {
  }

  // How far a copy can go, by comparing bytes.
  lemma CopyLength(src: seq<byte>, p: nat, i: nat, len: nat, m: nat)
    requires p < i && i + len <= |src| && m <= len
    ensures src[i..i + m] == src[p..p + m] <==> m <= MatchLen(src, p, i, len)
  {
    var n := MatchLen(src, p, i, len);
    MatchAgrees(src, p, i, len);
    hide MatchLen;
    if m <= n {
      assert src[i..i + m] == src[i..i + n][..m] && src[p..p + m] == src[p..p + n][..m];
    } else {
      assert src[i..i + m][n] == src[i + n] && src[p..p + m][n] == src[p + n];
    }
  }

  lemma CopiesIff(src: seq<byte>, p: nat, i: nat, m: nat)
    requires p < i <= |src|
    ensures Copies(src, p, i, m) <==> PosMin(i) <= p && m <= MatchLen(src, p, i, LenMax(src, i))
  {
    if m <= LenMax(src, i) {
      CopyLength(src, p, i, LenMax(src, i), m);
    }
  }

  // What find_longest_match returns, in these terms.
  lemma IsBest(src: seq<byte>, i: nat, len: nat, dist: int)
    requires i < |src| && NoLonger(src, i, 0, len)
    requires len > 0 ==> PosMin(i) <= i - dist - 1 < i &&
                         len == MatchLen(src, i - dist - 1, i, LenMax(src, i))
    requires len >= 3 ==> AllShorter(src, i, i - dist, len)
    ensures AtMost(src, i, if len >= 3 then len else 2)
    ensures len >= 3 ==> Copies(src, i - dist - 1, i, len) && dist >= 0
    ensures len >= 3 ==> forall p :: i - dist - 1 < p < i ==> !Copies(src, p, i, len)
  {
    hide Copies;
    hide MatchLen;
    forall p, m: nat | Copies(src, p, i, m) ensures m <= if len >= 3 then len else 2 {
      Inside(src, p, i, m);
      CopiesIff(src, p, i, m);
    }
    if len >= 3 {
      CopiesIff(src, i - dist - 1, i, len);
      forall p | i - dist - 1 < p < i ensures !Copies(src, p, i, len) {
        CopiesIff(src, p, i, len);
      }
    }
  }

  lemma Inside(src: seq<byte>, p: int, i: nat, m: nat)
    requires Copies(src, p, i, m)
    ensures 0 <= p < i <= |src|
  {
  }

  // The look at the next position.
  lemma NextBest(src: seq<byte>, i: nat, len: nat, len1: nat, dist1: int)
    requires i + 1 < |src| && len >= 3 && NoLonger(src, i + 1, 0, len1)
    requires len1 > 0 ==> PosMin(i + 1) <= i - dist1 < i + 1 &&
                          len1 == MatchLen(src, i - dist1, i + 1, LenMax(src, i + 1))
    requires len1 >= 3 ==> AllShorter(src, i + 1, i + 1 - dist1, len1)
    ensures AtMost(src, i + 1, len) <==> len1 <= len
  {
    hide Copies;
    hide MatchLen;
    IsBest(src, i + 1, len1, dist1);
  }

  // The length in four bytes, most significant first.
  function Header(n: nat): seq<byte>
    requires n < 0x8000_0000
  {
    [n / 0x100_0000, (n / 0x1_0000) % 0x100, (n / 0x100) % 0x100, n % 0x100]
  }

  // The number in the first four bytes.
  function FourBytes(h: seq<byte>): int
    requires |h| >= 4
  {
    h[0] as int * 0x100_0000 + h[1] as int * 0x1_0000 + h[2] as int * 0x100 + h[3] as int
  }

  // The choice made at position i: a match to emit, or none.
  method Choose(src: seq<byte>, hashNext: seq<int>, i: nat) returns (len: nat, dist: int)
    requires i < |src| && Chains(src, hashNext)
    ensures len == 0 ==> forall n, d :: !Emits(src, i, n, d)
    ensures len > 0 ==> Emits(src, i, len, dist)
  {
    len, dist := FindLongestMatch(src, hashNext, i);
    IsBest(src, i, len, dist);
    if len >= MATCH_LEN_MIN {
      // give up this match for a longer one at the next position
      var len1, dist1 := FindLongestMatch(src, hashNext, i + 1);
      NextBest(src, i, len, len1, dist1);
      if len1 > len {
        return 0, 0;
      }
    }
    if len < MATCH_LEN_MIN || !((len <= 3 + 15 && dist < 0x400) || (len >= 4 && len <= 4 + 63 && dist < 0x1_0000)) {
      return 0, 0;
    }
  }

  // The token for a match.
  method MatchToken(len: nat, dist: nat) returns (token: seq<byte>)
    requires 3 <= len <= 67 && dist < 0x1_0000 && (len >= 4 || dist < 0x400)
    ensures Coded(token, len, dist) && 2 <= |token| <= len
    ensures forall out :: CopyMatch(out, dist, len).Some? ==> Decode(out, token) == CopyMatch(out, dist, len)
  {
    hide CopyMatch;
    hide Decode;
    if len <= 3 + 15 && dist < 0x400 {
      token := ShortToken(len, dist);
      ShortIs(len, dist);
      forall out: seq<byte> | CopyMatch(out, dist, len).Some? ensures Decode(out, token) == CopyMatch(out, dist, len) {
        ShortDecodes(len, dist, out);
      }
    } else {
      token := LongToken(len, dist);
      LongIs(len, dist);
      forall out: seq<byte> | CopyMatch(out, dist, len).Some? ensures Decode(out, token) == CopyMatch(out, dist, len) {
        LongDecodes(len, dist, out);
      }
    }
  }

  // lz_compress. It fails exactly when a byte is 128 or more.
  method Compress(src: seq<byte>) returns (ok: bool, dst: seq<byte>)
    requires |src| < 0x8000_0000
    ensures ok <==> forall k :: 0 <= k < |src| ==> src[k] < 0x80
    ensures ok ==> 4 <= |dst| <= |src| + 4 && Decode([], dst[4..]) == Some(src)
    ensures ok ==> FourBytes(dst) == |src|
    ensures ok ==> Tokens(src, 0, |src|, dst[4..])
  {
    hide Chains;
    hide TokenAt;
    hide Header;
    hide FourBytes;
    hide Emits;
    hide Coded;
    hide CopyMatch;
    var hashNext := BuildChains(src);
    var next := hashNext[..];
    dst := Header(|src|);
    ghost var body: seq<byte> := [];
    assert Encodes(src, body, 0);
    hide Decode;
    var i := 0;
    while i < |src|
      invariant 0 <= i <= |src| && dst == Header(|src|) + body && Encodes(src, body, i) && Tokens(src, 0, i, body)
    {
      if src[i] >= 0x80 {
        return false, [];
      }
      var len, dist := Choose(src, next, i);
      if len == 0 {
        LiteralStep(src, body, i);
        LiteralToken(src, i);
        TokensMore(src, 0, i, body, [src[i]], 1);
        dst, body := dst + [src[i]], body + [src[i]];
        i := i + 1;
      } else {
        CopyFacts(src, i, len, dist);
        var token := MatchToken(len, dist);
        CopyToken(src, i, len, dist, token);
        TokensMore(src, 0, i, body, token, len);
        MatchStep(src, body, i, i - dist - 1, len, token);
        dst, body := dst + token, body + token;
        i := i + len;
      }
    }
    HeaderIs(|src|, body);
    assert src[..|src|] == src;
    ok := true;
  }

  lemma HeaderIs(n: nat, body: seq<byte>)
    requires n < 0x8000_0000
    ensures |Header(n)| == 4 && FourBytes(Header(n) + body) == n && (Header(n) + body)[4..] == body
  {
    var h, b := Header(n), Header(n) + body;
    assert b[0] == h[0] && b[1] == h[1] && b[2] == h[2] && b[3] == h[3];
  }

  lemma LiteralToken(src: seq<byte>, i: nat)
    requires i < |src| && forall n, d :: !Emits(src, i, n, d)
    ensures TokenAt(src, i, [src[i]], 1)
  {
  }

  lemma CopyToken(src: seq<byte>, i: nat, n: nat, d: int, t: seq<byte>)
    requires i < |src| && Emits(src, i, n, d) && Coded(t, n, d)
    ensures TokenAt(src, i, t, n)
  {
  }

  lemma CopyFacts(src: seq<byte>, i: nat, n: nat, d: int)
    requires Emits(src, i, n, d)
    ensures 3 <= n <= 67 && 0 <= d < i && d < 0x1_0000 && Agree(src, i - d - 1, i, n) && (n >= 4 || d < 0x400)
  {
  }

  lemma ShortIs(n: nat, d: nat)
    requires 3 <= n <= 18 && d < 0x400
    ensures Coded(ShortToken(n, d), n, d)
  {
  }

  lemma LongIs(n: nat, d: nat)
    requires 4 <= n <= 67 && d < 0x1_0000 && !(n <= 18 && d < 1024)
    ensures Coded(LongToken(n, d), n, d)
  {
    LongBytes(n, d);
    hide LongToken;
  }
}
