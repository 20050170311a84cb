// How build_prop_table of quickjs/unicode_gen.c codes a set of code points: the lengths of the runs
// outside and inside the set in turn, the first one outside, each in as few bytes as possible.

module UnicodeRuns {
  import opened Basics

  // The end of the first k runs.
  function Total(runs: seq<nat>, k: nat): nat
    requires k <= |runs|
  {
    if k == 0 then 0 else Total(runs, k - 1) + runs[k - 1]
  }

  ghost predicate RunAt(runs: seq<nat>, k: nat, c: int)
    requires k < |runs|
  {
    Total(runs, k) <= c < Total(runs, k + 1)
  }

  // c is in one of the runs inside the set, from run i on.
  ghost predicate InRunsFrom(runs: seq<nat>, i: nat, c: int) {
    exists k: nat :: i <= k < |runs| && k % 2 == 1 && RunAt(runs, k, c)
  }

  ghost predicate InRuns(runs: seq<nat>, c: int) {
    InRunsFrom(runs, 0, c)
  }

  predicate Lengths(runs: seq<nat>) {
    forall k :: 0 <= k < |runs| ==> 1 <= runs[k] <= 0x20_0000
  }

  // Two runs of up to 8 code points share a byte.
  function Taken(runs: seq<nat>, i: nat): nat
    requires i < |runs|
  {
    if runs[i] <= 8 && i + 1 < |runs| && runs[i + 1] <= 8 then 2 else 1
  }

  function Token(runs: seq<nat>, i: nat): (t: seq<byte>)
    requires i < |runs| && Lengths(runs)
    ensures 1 <= |t| <= 3
  {
    var v := runs[i] - 1;
    if Taken(runs, i) == 2 then [8 * v + (runs[i + 1] - 1)]
    else if runs[i] <= 128 then [128 + v]
    else if runs[i] <= 8192 then [64 + v / 256, v % 256]
    else [96 + v / 65536, v / 256 % 256, v % 256]
  }

  function EncodeFrom(runs: seq<nat>, i: nat): seq<byte>
    requires i <= |runs| && Lengths(runs)
    decreases |runs| - i
  {
    if i == |runs| then [] else Token(runs, i) + EncodeFrom(runs, i + Taken(runs, i))
  }

  function Encode(runs: seq<nat>): seq<byte>
    requires Lengths(runs)
  {
    EncodeFrom(runs, 0)
  }

  lemma {:induction false} TotalMonotone(runs: seq<nat>, i: nat, j: nat)
    requires i <= j <= |runs|
    ensures Total(runs, i) <= Total(runs, j)
    ensures Lengths(runs) ==> Total(runs, i) + (j - i) <= Total(runs, j)
    decreases j
  {
    if i < j {
      TotalMonotone(runs, i, j - 1);
    }
  }

  // Appending runs leaves the ends of the first ones.
  lemma {:induction false} TotalPrefix(runs: seq<nat>, more: seq<nat>, k: nat)
    requires k <= |runs|
    ensures Total(runs + more, k) == Total(runs, k)
    decreases k
  {
    if k > 0 {
      TotalPrefix(runs, more, k - 1);
    }
  }

  // One run more adds its code points if it is inside the set.
  lemma RunAppended(runs: seq<nat>, len: nat, c: int)
    ensures InRuns(runs + [len], c) <==>
            InRuns(runs, c) || (|runs| % 2 == 1 && Total(runs, |runs|) <= c < Total(runs, |runs|) + len)
  {
    var more := runs + [len];
    TotalPrefix(runs, [len], |runs|);
    assert Total(more, |more|) == Total(runs, |runs|) + len;
    forall k: nat | k < |runs| ensures RunAt(more, k, c) <==> RunAt(runs, k, c) {
      TotalPrefix(runs, [len], k);
      TotalPrefix(runs, [len], k + 1);
    }
    hide Total;
    if InRuns(runs, c) {
      var k: nat :| k < |runs| && k % 2 == 1 && RunAt(runs, k, c);
      assert RunAt(more, k, c);
    }
    if |runs| % 2 == 1 && Total(runs, |runs|) <= c < Total(runs, |runs|) + len {
      assert RunAt(more, |runs|, c);
    }
  }
}
