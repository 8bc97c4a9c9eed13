/** Generic sequence helpers: a total prefix operation and concatenation of
    a sequence of sequences. */
module Seqs {

  /** The first `n` elements of `s`, or all of `s` when it is shorter
      (Python's `s[:n]`). */
  function Take<T>(s: seq<T>, n: nat): (r: seq<T>)
    ensures |r| == if n < |s| then n else |s|
    ensures r <= s
  {
    if n < |s| then s[..n] else s
  }

  /** All rows laid end to end, in order. */
  function Flatten<T>(rows: seq<seq<T>>): seq<T>
  {
    if |rows| == 0 then [] else rows[0] + Flatten(rows[1..])
  }

  lemma {:induction false} FlattenAppend<T>(a: seq<seq<T>>, b: seq<seq<T>>)
    ensures Flatten(a + b) == Flatten(a) + Flatten(b)
    decreases |a|
  {
    if |a| == 0 {
      assert a + b == b;
    } else {
      assert (a + b)[1..] == a[1..] + b;
      FlattenAppend(a[1..], b);
    }
  }

  /** Taking from a concatenation takes from the first part, then spends
      whatever budget is left on the second. */
  lemma TakeAppend<T>(a: seq<T>, b: seq<T>, n: nat)
    ensures Take(a + b, n) == Take(a, n) + Take(b, n - |Take(a, n)|)
  {
    if n < |a| {
      assert (a + b)[..n] == a[..n];
    } else if n < |a| + |b| {
      assert (a + b)[..n] == a + b[..n - |a|];
    }
  }
}
