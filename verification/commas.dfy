/** The two item separators, `,` and the full-width `，` (U+FF0C), are
    interchangeable (yunduan.py line 86): writing either one at any place
    in a post changes neither whether it is reposted nor its keyboard; only
    the reposted text keeps the commas as written.

    The proof compares every text with its normal form, in which each
    full-width comma is replaced by an ASCII one. */
module CommaEquivalence {
  import opened Wrappers
  import opened Strings
  import opened ChannelPost

  /** Every comma of either kind written as an ASCII comma. */
  function Normalize(s: string): string
  {
    Replace(s, Commas, ',')
  }

  /** `Normalize` applied to every string of a list. */
  function NormalizeAll(ss: seq<string>): (r: seq<string>)
    ensures |r| == |ss|
  {
    if |ss| == 0 then [] else [Normalize(ss[0])] + NormalizeAll(ss[1..])
  }

  /** Two texts that differ at most in which kind of comma stands where. */
  predicate CommaVariants(a: string, b: string)
  {
    Normalize(a) == Normalize(b)
  }

  lemma NormalizeSlice(s: string, i: nat, j: nat)
    requires i <= j <= |s|
    ensures Normalize(s)[i..j] == Normalize(s[i..j])
  {
  }

  /** A pattern without commas occurs at the same places before and after
      normalising. */
  lemma NormalizeOccurs(s: string, pat: string, j: nat)
    requires NoneOf(pat, Commas)
    ensures OccursAt(Normalize(s), pat, j) <==> OccursAt(s, pat, j)
  {
    if j + |pat| <= |s| {
      NormalizeSlice(s, j, j + |pat|);
      var t := s[j..j + |pat|];
      if Normalize(t) == pat {
        forall m | 0 <= m < |pat| ensures t[m] == pat[m] {
          assert Normalize(t)[m] == pat[m];
        }
      }
    }
  }

  /** Normalising does not move the first occurrence of a comma-free
      pattern. */
  lemma {:induction false} NormalizeFindFrom(s: string, pat: string, from: nat)
    requires NoneOf(pat, Commas)
    ensures FindFrom(Normalize(s), pat, from) == FindFrom(s, pat, from)
    decreases |s| - from
  {
    if from + |pat| <= |s| {
      NormalizeOccurs(s, pat, from);
      if !OccursAt(s, pat, from) {
        NormalizeFindFrom(s, pat, from + 1);
      }
    }
  }

  /** Cutting at the first `===` commutes with normalising. */
  lemma NormalizeSplitOnce(s: string)
    ensures SplitOnce(Normalize(s), Sentinel) == NormalizeAll(SplitOnce(s, Sentinel))
  {
    NormalizeFindFrom(s, Sentinel, 0);
    match Find(s, Sentinel)
    case None =>
      assert NormalizeAll([s]) == [Normalize(s)] + NormalizeAll([]);
    case Some(i) =>
      NormalizeCutAt(s, i);
  }

  /** The two parts around an occurrence of `===` at `i`, normalised. */
  lemma NormalizeCutAt(s: string, i: nat)
    requires Find(s, Sentinel) == Some(i)
    requires Find(Normalize(s), Sentinel) == Some(i)
    ensures SplitOnce(Normalize(s), Sentinel) == NormalizeAll(SplitOnce(s, Sentinel))
  {
    var n := Normalize(s);
    SplitOnceAt(s, Sentinel, i);
    SplitOnceAt(n, Sentinel, i);
    NormalizeSlice(s, 0, i);
    NormalizeSlice(s, i + |Sentinel|, |s|);
    assert s[0..i] == s[..i] && s[i + |Sentinel|..|s|] == s[i + |Sentinel|..];
    assert n[0..i] == n[..i] && n[i + |Sentinel|..|s|] == n[i + |Sentinel|..];
    var parts := [s[..i], s[i + |Sentinel|..]];
    assert NormalizeAll(parts) == [Normalize(parts[0])] + NormalizeAll(parts[1..]);
    assert NormalizeAll(parts[1..]) == [Normalize(parts[1])] + NormalizeAll(parts[2..]);
  }

  /** Commas are not white space, so white space sits at the same places. */
  lemma NormalizeSpace(s: string)
    ensures AllSpace(Normalize(s)) <==> AllSpace(s)
    ensures IsStripped(Normalize(s)) <==> IsStripped(s)
  {
    assert !IsSpace(',') && !IsSpace('\U{FF0C}');
    if AllSpace(s) {
      forall k | 0 <= k < |s| ensures IsSpace(Normalize(s)[k]) {
        assert IsSpace(s[k]);
      }
    }
    if AllSpace(Normalize(s)) {
      forall k | 0 <= k < |s| ensures IsSpace(s[k]) {
        assert IsSpace(Normalize(s)[k]);
      }
    }
  }

  /** Stripping commutes with normalising. */
  lemma NormalizeStrip(s: string)
    ensures Strip(Normalize(s)) == Normalize(Strip(s))
  {
    StripSpec(s);
    var i := Lead(s);
    var j := Lead(s) + |Strip(s)|;
    NormalizeCut(s, i, j);
    StripUnique(Normalize(s), i, j);
  }

  /** Normalising keeps a cut of `s` into white space, a stripped middle
      and white space. */
  lemma NormalizeCut(s: string, i: nat, j: nat)
    requires i <= j <= |s|
    requires AllSpace(s[..i]) && AllSpace(s[j..]) && IsStripped(s[i..j])
    ensures var n := Normalize(s);
            AllSpace(n[..i]) && AllSpace(n[j..]) && IsStripped(n[i..j])
            && n[i..j] == Normalize(s[i..j])
  {
    var n := Normalize(s);
    NormalizeSlice(s, 0, i);
    NormalizeSlice(s, j, |s|);
    NormalizeSlice(s, i, j);
    assert n[..i] == n[0..i] && s[..i] == s[0..i];
    assert n[j..] == n[j..|s|] && s[j..] == s[j..|s|];
    NormalizeSpace(s[..i]);
    NormalizeSpace(s[j..]);
    NormalizeSpace(s[i..j]);
  }

  /** Newlines are not commas: normalising a block normalises each line. */
  lemma {:induction false} NormalizeLines(s: string)
    ensures Lines(Normalize(s)) == NormalizeAll(Lines(s))
    decreases |s|
  {
    if |s| > 0 {
      var n := Normalize(s);
      assert n[1..] == Normalize(s[1..]);
      NormalizeLines(s[1..]);
      var rest := Lines(s[1..]);
      if s[0] == Newline {
        assert NormalizeAll([""] + rest) == [""] + NormalizeAll(rest);
      } else {
        assert n[0] == (if s[0] in Commas then ',' else s[0]);
        var first := [s[0]] + rest[0];
        assert Normalize(first) == [n[0]] + Normalize(rest[0]);
        assert NormalizeAll([first] + rest[1..]) == [Normalize(first)] + NormalizeAll(rest[1..]);
        assert NormalizeAll(rest) == [Normalize(rest[0])] + NormalizeAll(rest[1..]);
      }
    }
  }

  /** Splitting into items does not see which kind of comma was used. */
  lemma {:induction false} NormalizeItems(s: string)
    ensures Items(Normalize(s)) == Items(s)
    decreases |s|
  {
    if |s| > 0 {
      var n := Normalize(s);
      assert n[1..] == Normalize(s[1..]);
      NormalizeItems(s[1..]);
    }
  }

  /** The outer loop gives the same layout for normalised lines. */
  lemma {:induction false} NormalizeScanLines(lines: seq<string>, acc: Layout)
    ensures ScanLines(NormalizeAll(lines), acc) == ScanLines(lines, acc)
    decreases |lines|
  {
    if |lines| > 0 {
      var nl := NormalizeAll(lines);
      assert nl[0] == Normalize(lines[0]) && nl[1..] == NormalizeAll(lines[1..]);
      NormalizeItems(lines[0]);
      assert AcceptLine(nl[0], |acc.buttons|) == AcceptLine(lines[0], |acc.buttons|);
      var row := AcceptLine(lines[0], |acc.buttons|);
      var next := Layout(if |row| > 0 then acc.keyboard + [row] else acc.keyboard, acc.buttons + row);
      NormalizeScanLines(lines[1..], next);
    }
  }

  /** A button block and its normal form give the same layout. */
  lemma NormalizeLayout(block: string)
    ensures ParseLayout(Normalize(block)) == ParseLayout(block)
  {
    NormalizeLines(block);
    NormalizeScanLines(Lines(block), Layout([], []));
  }

  /** A post and its normal form get the same treatment and the same
      keyboard; only the reposted text has its commas normalised. */
  lemma NormalizePost(text: string)
    ensures ParsePost(Normalize(text)).NotApplicable? == ParsePost(text).NotApplicable?
    ensures ParsePost(Normalize(text)).NoButtons? == ParsePost(text).NoButtons?
    ensures ParsePost(text).Repost? ==>
              ParsePost(Normalize(text))
              == Repost(Normalize(ParsePost(text).content), ParsePost(text).keyboard)
  {
    NormalizeSplitOnce(text);
    var parts := SplitOnce(text, Sentinel);
    if |parts| == 2 {
      var nparts := SplitOnce(Normalize(text), Sentinel);
      assert nparts == [Normalize(parts[0])] + NormalizeAll(parts[1..]);
      assert nparts[1] == Normalize(parts[1]);
      NormalizeStrip(parts[0]);
      NormalizeStrip(parts[1]);
      NormalizeLayout(Strip(parts[1]));
    }
  }

  /** Comma equivalence: two posts that differ only in which kind of comma
      stands where are both reposted or both left alone, with the same
      keyboard, and the reposted texts differ at most in their commas. */
  lemma CommaVariantsAgree(a: string, b: string)
    requires CommaVariants(a, b)
    ensures ParsePost(a).NotApplicable? == ParsePost(b).NotApplicable?
    ensures ParsePost(a).NoButtons? == ParsePost(b).NoButtons?
    ensures ParsePost(a).Repost? && ParsePost(b).Repost? ==>
              ParsePost(a).keyboard == ParsePost(b).keyboard
              && CommaVariants(ParsePost(a).content, ParsePost(b).content)
  {
    NormalizePost(a);
    NormalizePost(b);
  }
}
