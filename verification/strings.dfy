/** The handful of Python string operations the channel-post parser relies
    on, written out as sequence functions over `string` (= `seq<char>`):
    `str.strip()`, the `in` test for a substring, `str.split(sep, 1)`,
    and splitting at any character of a separator class (`re.split` with a
    one-character class, or `str.split` with a one-character separator). */
module Strings {
  import opened Wrappers

  /** Python's `str.isspace()` for a single character: the code points
      that `str.strip()` with no argument removes. */
  predicate IsSpace(c: char)
  {
    var n := c as int;
    || (0x09 <= n <= 0x0D)
    || (0x1C <= n <= 0x20)
    || n == 0x85 || n == 0xA0 || n == 0x1680
    || (0x2000 <= n <= 0x200A)
    || n == 0x2028 || n == 0x2029 || n == 0x202F || n == 0x205F || n == 0x3000
  }

  /** Every character of `s` is white space (vacuously true of ""). */
  predicate AllSpace(s: string)
  {
    forall i :: 0 <= i < |s| ==> IsSpace(s[i])
  }

  /** Neither the first nor the last character is white space: the shape of
      every result of `Strip`. */
  predicate IsStripped(s: string)
  {
    |s| > 0 ==> !IsSpace(s[0]) && !IsSpace(s[|s| - 1])
  }

  /** The first index at or after `i` that does not hold white space
      (`|s|` if there is none): how `strip()` finds where to start. */
  function SkipSpace(s: string, i: nat): (j: nat)
    requires i <= |s|
    ensures i <= j <= |s|
    decreases |s| - i
  {
    if i < |s| && IsSpace(s[i]) then SkipSpace(s, i + 1) else i
  }

  /** The end of `s[lo..j]` once its trailing white space is dropped: how
      `strip()` finds where to stop. */
  function BackSpace(s: string, lo: nat, j: nat): (k: nat)
    requires lo <= j <= |s|
    ensures lo <= k <= j
    decreases j
  {
    if j > lo && IsSpace(s[j - 1]) then BackSpace(s, lo, j - 1) else j
  }

  /** How many characters `strip()` removes from the front of `s`. */
  function Lead(s: string): nat
  {
    SkipSpace(s, 0)
  }

  /** `str.strip()`: drop white space at both ends. */
  function Strip(s: string): string
  {
    s[Lead(s)..BackSpace(s, Lead(s), |s|)]
  }

  /** `SkipSpace` passes over white space only and stops at a character
      that is not white space, or at the end. */
  lemma {:induction false} SkipSpaceSpec(s: string, i: nat)
    requires i <= |s|
    ensures forall k :: i <= k < SkipSpace(s, i) ==> IsSpace(s[k])
    ensures SkipSpace(s, i) < |s| ==> !IsSpace(s[SkipSpace(s, i)])
    decreases |s| - i
  {
    if i < |s| && IsSpace(s[i]) {
      SkipSpaceSpec(s, i + 1);
    }
  }

  /** `BackSpace` passes backwards over white space only and stops after a
      character that is not white space, or at `lo`. */
  lemma {:induction false} BackSpaceSpec(s: string, lo: nat, j: nat)
    requires lo <= j <= |s|
    ensures forall k :: BackSpace(s, lo, j) <= k < j ==> IsSpace(s[k])
    ensures BackSpace(s, lo, j) > lo ==> !IsSpace(s[BackSpace(s, lo, j) - 1])
    decreases j
  {
    if j > lo && IsSpace(s[j - 1]) {
      BackSpaceSpec(s, lo, j - 1);
    }
  }

  /** `strip()` keeps the slice of `s` that starts at `Lead(s)`, everything
      cut off on either side is white space, and the result neither starts
      nor ends with white space. */
  lemma StripSpec(s: string)
    ensures Lead(s) + |Strip(s)| <= |s|
    ensures Strip(s) == s[Lead(s)..Lead(s) + |Strip(s)|]
    ensures AllSpace(s[..Lead(s)]) && AllSpace(s[Lead(s) + |Strip(s)|..])
    ensures IsStripped(Strip(s))
  {
    var i := Lead(s);
    var j := BackSpace(s, i, |s|);
    SkipSpaceSpec(s, 0);
    BackSpaceSpec(s, i, |s|);
    SpaceSpan(s, 0, i);
    SpaceSpan(s, j, |s|);
    var r := Strip(s);
    assert |r| > 0 ==> r[0] == s[i] && r[|r| - 1] == s[j - 1];
  }

  /** Stripping is determined by its characterisation: if `s` is white space,
      then `s[i..j]`, then white space, and `s[i..j]` neither starts nor ends
      with white space, then `Strip(s)` is exactly `s[i..j]`. */
  lemma StripUnique(s: string, i: nat, j: nat)
    requires i <= j <= |s|
    requires AllSpace(s[..i]) && AllSpace(s[j..])
    requires IsStripped(s[i..j])
    ensures Strip(s) == s[i..j]
  {
    StripSpec(s);
    var r := Strip(s);
    var k := Lead(s);
    var e := k + |r|;
    SpaceSpan(s, 0, k);
    SpaceSpan(s, e, |s|);
    SpaceSpan(s, 0, i);
    SpaceSpan(s, j, |s|);
    assert |r| > 0 ==> r[0] == s[k] && r[|r| - 1] == s[e - 1];
    assert i < j ==> s[i..j][0] == s[i] && s[i..j][j - 1 - i] == s[j - 1];
    if i < j {
      assert k == i && e == j;
    } else {
      assert |r| == 0;
    }
  }

  /** `AllSpace` of a slice, stated about the indices of the whole string. */
  lemma SpaceSpan(s: string, a: nat, b: nat)
    requires a <= b <= |s|
    ensures AllSpace(s[a..b]) <==> forall x :: a <= x < b ==> IsSpace(s[x])
  {
    if AllSpace(s[a..b]) {
      forall x | a <= x < b ensures IsSpace(s[x]) {
        assert s[a..b][x - a] == s[x];
      }
    }
  }

  /** `strip()` is idempotent. */
  lemma StripIdempotent(s: string)
    ensures Strip(Strip(s)) == Strip(s)
  {
    StripSpec(s);
    var r := Strip(s);
    assert r[..0] == [] && r[|r|..] == [];
    StripUnique(r, 0, |r|);
  }

  /** A string with no white space at either end is its own strip. */
  lemma StripAlreadyStripped(r: string)
    requires IsStripped(r)
    ensures Strip(r) == r
  {
    assert r[..0] == [] && r[|r|..] == [];
    StripUnique(r, 0, |r|);
  }

  /** White space wrapped around a stripped string is all that `Strip`
      removes. */
  lemma StripPadded(a: string, r: string, b: string)
    requires AllSpace(a) && AllSpace(b) && IsStripped(r)
    ensures Strip(a + r + b) == r
  {
    var s := a + r + b;
    assert s[..|a|] == a;
    assert s[|a| + |r|..] == b;
    assert s[|a|..|a| + |r|] == r;
    StripUnique(s, |a|, |a| + |r|);
  }

  /** `pat` occurs in `s` starting at index `i`. */
  predicate OccursAt(s: string, pat: string, i: nat)
  {
    i + |pat| <= |s| && s[i..i + |pat|] == pat
  }

  /** The first occurrence of `pat` in `s` at or after index `from`. */
  function FindFrom(s: string, pat: string, from: nat): (r: Option<nat>)
    ensures r.Some? ==> from <= r.value && OccursAt(s, pat, r.value)
    ensures r.Some? ==> forall j :: from <= j < r.value ==> !OccursAt(s, pat, j)
    ensures r.None? ==> forall j :: from <= j ==> !OccursAt(s, pat, j)
    decreases |s| - from
  {
    if from + |pat| > |s| then None
    else if s[from..from + |pat|] == pat then Some(from)
    else FindFrom(s, pat, from + 1)
  }

  /** The first occurrence of `pat` in `s` (`str.find`, with None for -1). */
  function Find(s: string, pat: string): Option<nat>
  {
    FindFrom(s, pat, 0)
  }

  /** Python's `pat in s`. */
  predicate Contains(s: string, pat: string)
  {
    Find(s, pat).Some?
  }

  /** `s.split(sep, 1)`: one part (the whole of `s`) when `sep` does not
      occur, otherwise two parts around the FIRST occurrence of `sep`; the
      second part may itself contain `sep`.  Python rejects an empty `sep`. */
  function SplitOnce(s: string, sep: string): (parts: seq<string>)
    requires |sep| > 0
    ensures |parts| == 1 || |parts| == 2
    ensures |parts| == 2 <==> Contains(s, sep)
    ensures |parts| == 1 ==> parts[0] == s
    ensures |parts| == 2 ==> s == parts[0] + sep + parts[1]
    ensures |parts| == 2 ==> forall j :: 0 <= j < |parts[0]| ==> !OccursAt(s, sep, j)
  {
    match Find(s, sep)
    case None => [s]
    case Some(i) =>
      assert s == s[..i] + s[i..i + |sep|] + s[i + |sep|..];
      [s[..i], s[i + |sep|..]]
  }

  /** `SplitOnce` cuts at the index the caller shows to be the first
      occurrence of `sep`. */
  lemma SplitOnceAt(s: string, sep: string, i: nat)
    requires |sep| > 0
    requires OccursAt(s, sep, i)
    requires forall j :: 0 <= j < i ==> !OccursAt(s, sep, j)
    ensures SplitOnce(s, sep) == [s[..i], s[i + |sep|..]]
  {
    assert Find(s, sep) == Some(i);
  }

  /** No character of `s` belongs to `seps`. */
  predicate NoneOf(s: string, seps: set<char>)
  {
    forall i :: 0 <= i < |s| ==> s[i] !in seps
  }

  /** Split `s` at every character that belongs to `seps`, keeping empty
      pieces: `re.split("[...]", s)` for a character class, and
      `s.split(c)` when `seps == {c}`.  There is always at least one piece
      (`JoinSplit` and `SplitJoin` below relate the pieces to `s`). */
  function Split(s: string, seps: set<char>): (pieces: seq<string>)
    ensures |pieces| >= 1
    ensures forall k :: 0 <= k < |pieces| ==> NoneOf(pieces[k], seps)
    decreases |s|
  {
    if |s| == 0 then [""]
    else
      var rest := Split(s[1..], seps);
      if s[0] in seps then [""] + rest
      else [[s[0]] + rest[0]] + rest[1..]
  }

  /** `sep.join(pieces)` for a one-character separator. */
  function Join(pieces: seq<string>, sep: char): string
  {
    if |pieces| == 0 then ""
    else if |pieces| == 1 then pieces[0]
    else pieces[0] + [sep] + Join(pieces[1..], sep)
  }

  /** Every character of `s` that belongs to `seps` replaced by `c`. */
  function Replace(s: string, seps: set<char>, c: char): (r: string)
    ensures |r| == |s|
    ensures forall i :: 0 <= i < |s| ==> r[i] == if s[i] in seps then c else s[i]
  {
    if |s| == 0 then ""
    else [if s[0] in seps then c else s[0]] + Replace(s[1..], seps, c)
  }

  lemma {:induction false} JoinCons(x: char, pieces: seq<string>, sep: char)
    requires |pieces| >= 1
    ensures Join([[x] + pieces[0]] + pieces[1..], sep) == [x] + Join(pieces, sep)
  {
    var ps := [[x] + pieces[0]] + pieces[1..];
    assert ps[1..] == pieces[1..];
  }

  /** Joining the pieces back with a separator from the class gives `s`
      with every separator normalised to that one character. */
  lemma {:induction false} JoinSplit(s: string, seps: set<char>, c: char)
    requires c in seps
    ensures Join(Split(s, seps), c) == Replace(s, seps, c)
    decreases |s|
  {
    if |s| > 0 {
      var rest := Split(s[1..], seps);
      JoinSplit(s[1..], seps, c);
      if s[0] in seps {
        var ps := [""] + rest;
        assert ps[1..] == rest;
        assert Join(ps, c) == "" + [c] + Join(rest, c);
      } else {
        JoinCons(s[0], rest, c);
      }
    }
  }

  /** With a single separator the split is undone by the join. */
  lemma JoinSplitSingle(s: string, c: char)
    ensures Join(Split(s, {c}), c) == s
  {
    JoinSplit(s, {c}, c);
    assert Replace(s, {c}, c) == s;
  }

  /** A string without separators is a single piece. */
  lemma {:induction false} SplitNoSep(p: string, seps: set<char>)
    requires NoneOf(p, seps)
    ensures Split(p, seps) == [p]
    decreases |p|
  {
    if |p| > 0 {
      assert NoneOf(p[1..], seps) by {
        forall i | 0 <= i < |p| - 1 ensures p[1..][i] !in seps {
          assert p[1..][i] == p[i + 1];
        }
      }
      SplitNoSep(p[1..], seps);
      assert [p[0]] + p[1..] == p;
    }
  }

  /** A separator right after a separator-free prefix ends the first piece
      there. */
  lemma {:induction false} SplitAfterPiece(p: string, c: char, t: string, seps: set<char>)
    requires NoneOf(p, seps) && c in seps
    ensures Split(p + [c] + t, seps) == [p] + Split(t, seps)
    decreases |p|
  {
    var s := p + [c] + t;
    if |p| == 0 {
      assert s[1..] == t;
    } else {
      assert s[1..] == p[1..] + [c] + t;
      assert NoneOf(p[1..], seps) by {
        forall i | 0 <= i < |p| - 1 ensures p[1..][i] !in seps {
          assert p[1..][i] == p[i + 1];
        }
      }
      SplitAfterPiece(p[1..], c, t, seps);
      assert [s[0]] + p[1..] == p;
    }
  }

  /** Splitting a join recovers the pieces, provided no piece contains a
      separator. */
  lemma {:induction false} SplitJoin(pieces: seq<string>, c: char, seps: set<char>)
    requires |pieces| >= 1 && c in seps
    requires forall k :: 0 <= k < |pieces| ==> NoneOf(pieces[k], seps)
    ensures Split(Join(pieces, c), seps) == pieces
    decreases |pieces|
  {
    if |pieces| == 1 {
      SplitNoSep(pieces[0], seps);
    } else {
      SplitJoin(pieces[1..], c, seps);
      SplitAfterPiece(pieces[0], c, Join(pieces[1..], c), seps);
      assert [pieces[0]] + pieces[1..] == pieces;
    }
  }
}
