/** The inverse direction of the channel-post parser: writing a text and a
    keyboard out as a post in the mini-language (`text`, a line `===`, then
    one line per row of comma-separated `[label+url]` items), and the round
    trip back through `ParsePost`. */
module PostRender {
  import opened Wrappers
  import opened Seqs
  import opened Strings
  import opened Buttons
  import opened ChannelPost

  /** The canonical text of each button of a row. */
  function RenderAll(row: Row): seq<string>
  {
    seq(|row|, k requires 0 <= k < |row| => RenderItem(row[k]))
  }

  /** One row as one line: its items joined by ASCII commas. */
  function RenderRow(row: Row): string
  {
    Join(RenderAll(row), ',')
  }

  /** The line of each row of a keyboard. */
  function RenderRows(keyboard: seq<Row>): seq<string>
  {
    seq(|keyboard|, k requires 0 <= k < |keyboard| => RenderRow(keyboard[k]))
  }

  /** A keyboard as a button block: one line per row. */
  function RenderKeyboard(keyboard: seq<Row>): string
  {
    Join(RenderRows(keyboard), Newline)
  }

  /** A whole post: the text, the `===` marker on a line of its own, then
      the button block. */
  function RenderPost(content: string, keyboard: seq<Row>): string
  {
    content + [Newline] + Sentinel + [Newline] + RenderKeyboard(keyboard)
  }

  /** The characters that separate lines and items. */
  const Separators: set<char> := Commas + {Newline}

  /** A label or link that survives the trip: no surrounding white space and
      no separator inside. */
  predicate Plain(s: string)
  {
    IsStripped(s) && NoneOf(s, Separators)
  }

  /** A button the mini-language can express: a plain label without `+`
      and a plain link. */
  predicate Expressible(b: Button)
  {
    '+' !in b.text && Plain(b.text) && Plain(b.url)
  }

  /** A keyboard the handler can produce: at least one row, no empty row,
      every button expressible, at most `MaxButtons` buttons in all. */
  predicate ExpressibleKeyboard(keyboard: seq<Row>)
  {
    && |keyboard| > 0
    && (forall k :: 0 <= k < |keyboard| ==> |keyboard[k]| > 0)
    && (forall k, j :: 0 <= k < |keyboard| && 0 <= j < |keyboard[k]| ==> Expressible(keyboard[k][j]))
    && |Flatten(keyboard)| <= MaxButtons
  }

  /** A reposted text the mini-language can express: no surrounding white
      space and no `===`. */
  predicate ExpressibleContent(content: string)
  {
    IsStripped(content) && !Contains(content, Sentinel)
  }

  lemma NoneOfAppend(a: string, b: string, seps: set<char>)
    ensures NoneOf(a + b, seps) <==> NoneOf(a, seps) && NoneOf(b, seps)
  {
    if NoneOf(a, seps) && NoneOf(b, seps) {
      forall i | 0 <= i < |a + b| ensures (a + b)[i] !in seps {
        if i >= |a| {
          assert (a + b)[i] == b[i - |a|];
        }
      }
    }
    if NoneOf(a + b, seps) {
      forall i | 0 <= i < |a| ensures a[i] !in seps {
        assert (a + b)[i] == a[i];
      }
      forall i | 0 <= i < |b| ensures b[i] !in seps {
        assert (a + b)[|a| + i] == b[i];
      }
    }
  }

  /** Joining separator-free pieces with a character outside `seps` gives a
      text without any character of `seps`. */
  lemma {:induction false} JoinNoneOf(pieces: seq<string>, c: char, seps: set<char>)
    requires c !in seps
    requires forall k :: 0 <= k < |pieces| ==> NoneOf(pieces[k], seps)
    ensures NoneOf(Join(pieces, c), seps)
    decreases |pieces|
  {
    if |pieces| > 1 {
      JoinNoneOf(pieces[1..], c, seps);
      NoneOfAppend(pieces[0], [c], seps);
      NoneOfAppend(pieces[0] + [c], Join(pieces[1..], c), seps);
    }
  }

  /** Joining non-empty stripped pieces gives a non-empty stripped text,
      whatever the separator: it only ever stands between two pieces. */
  lemma {:induction false} JoinStripped(pieces: seq<string>, c: char)
    requires |pieces| > 0
    requires forall k :: 0 <= k < |pieces| ==> |pieces[k]| > 0 && IsStripped(pieces[k])
    ensures |Join(pieces, c)| > 0 && IsStripped(Join(pieces, c))
    decreases |pieces|
  {
    if |pieces| > 1 {
      JoinStripped(pieces[1..], c);
      var j := Join(pieces, c);
      var rest := Join(pieces[1..], c);
      assert j == pieces[0] + [c] + rest;
      assert j[0] == pieces[0][0];
      assert j[|j| - 1] == rest[|rest| - 1];
    }
  }

  /** The canonical text of an expressible button holds no separator. */
  lemma RenderItemPlain(b: Button)
    requires Expressible(b)
    ensures NoneOf(RenderItem(b), Separators)
  {
    NoneOfAppend("[", b.text, Separators);
    NoneOfAppend("[" + b.text, "+", Separators);
    NoneOfAppend("[" + b.text + "+", b.url, Separators);
    NoneOfAppend("[" + b.text + "+" + b.url, "]", Separators);
  }

  /** A list of parse results that are all successes yields exactly the
      buttons they carry. */
  lemma {:induction false} SomesAllSome(parsed: seq<Option<Button>>, row: Row)
    requires |parsed| == |row|
    requires forall k :: 0 <= k < |row| ==> parsed[k] == Some(row[k])
    ensures Somes(parsed) == row
    decreases |row|
  {
    if |row| > 0 {
      SomesAllSome(parsed[1..], row[1..]);
    }
  }

  /** A rendered non-empty row of expressible buttons reads back as the same
      row. */
  lemma RowRoundTrip(row: Row)
    requires |row| > 0
    requires forall j :: 0 <= j < |row| ==> Expressible(row[j])
    ensures LineCandidates(RenderRow(row)) == row
    ensures NoneOf(RenderRow(row), {Newline})
    ensures |RenderRow(row)| > 0 && IsStripped(RenderRow(row))
  {
    var texts := RenderAll(row);
    forall k | 0 <= k < |texts|
      ensures NoneOf(texts[k], Commas) && NoneOf(texts[k], {Newline})
      ensures |texts[k]| > 0 && IsStripped(texts[k])
      ensures ParseItem(texts[k]) == Some(row[k])
    {
      RenderItemPlain(row[k]);
      RenderIsItem(row[k]);
      ParseRenderItem(row[k], "", "");
      assert "" + RenderItem(row[k]) + "" == texts[k];
    }
    SplitJoin(texts, ',', Commas);
    SomesAllSome(ParseItems(texts), row);
    JoinNoneOf(texts, ',', {Newline});
    JoinStripped(texts, ',');
  }

  /** Reading the rendered rows line by line gives the rows back. */
  lemma {:induction false} RowsRoundTrip(keyboard: seq<Row>)
    requires forall k :: 0 <= k < |keyboard| ==> |keyboard[k]| > 0
    requires forall k, j :: 0 <= k < |keyboard| && 0 <= j < |keyboard[k]| ==> Expressible(keyboard[k][j])
    ensures CandidateRows(RenderRows(keyboard)) == keyboard
    decreases |keyboard|
  {
    if |keyboard| > 0 {
      RowRoundTrip(keyboard[0]);
      assert RenderRows(keyboard)[1..] == RenderRows(keyboard[1..]);
      RowsRoundTrip(keyboard[1..]);
    }
  }

  /** Dropping empty rows keeps a keyboard that has none. */
  lemma {:induction false} NonEmptyRowsKeep(rows: seq<Row>)
    requires forall k :: 0 <= k < |rows| ==> |rows[k]| > 0
    ensures NonEmptyRows(rows) == rows
    decreases |rows|
  {
    if |rows| > 0 {
      NonEmptyRowsKeep(rows[1..]);
    }
  }

  /** The button block of an expressible keyboard parses back to that
      keyboard, and its text is non-empty and stripped. */
  lemma KeyboardRoundTrip(keyboard: seq<Row>)
    requires ExpressibleKeyboard(keyboard)
    ensures ParseLayout(RenderKeyboard(keyboard)) == Layout(keyboard, Flatten(keyboard))
    ensures |RenderKeyboard(keyboard)| > 0 && IsStripped(RenderKeyboard(keyboard))
  {
    var lines := RenderRows(keyboard);
    forall k | 0 <= k < |lines|
      ensures NoneOf(lines[k], {Newline})
      ensures |lines[k]| > 0 && IsStripped(lines[k])
    {
      RowRoundTrip(keyboard[k]);
    }
    SplitJoin(lines, Newline, {Newline});
    JoinStripped(lines, Newline);
    RowsRoundTrip(keyboard);
    NonEmptyRowsKeep(keyboard);
    UncappedLayout(RenderKeyboard(keyboard));
  }

  /** In a rendered post the first `===` is the one after the text. */
  lemma FirstSentinel(content: string, block: string)
    requires !Contains(content, Sentinel)
    ensures var text := content + [Newline] + Sentinel + [Newline] + block;
            && OccursAt(text, Sentinel, |content| + 1)
            && forall j :: 0 <= j < |content| + 1 ==> !OccursAt(text, Sentinel, j)
  {
    var text := content + [Newline] + Sentinel + [Newline] + block;
    var n := |content|;
    assert text[n + 1..n + 4] == Sentinel;
    forall j | 0 <= j < n + 1 ensures !OccursAt(text, Sentinel, j) {
      if j + 3 <= n {
        assert text[j..j + 3] == content[j..j + 3];
        assert !OccursAt(content, Sentinel, j);
      } else {
        assert text[n] == Newline;
        assert text[j..j + 3][n - j] == Newline;
      }
    }
  }

  /** The stripped text before and after the marker of a rendered post. */
  lemma RenderedHalves(content: string, block: string)
    requires IsStripped(content) && IsStripped(block)
    ensures var text := content + [Newline] + Sentinel + [Newline] + block;
            && Strip(text[..|content| + 1]) == content
            && Strip(text[|content| + 1 + |Sentinel|..]) == block
  {
    var text := content + [Newline] + Sentinel + [Newline] + block;
    var i := |content| + 1;
    assert text[..i] == "" + content + [Newline];
    assert text[i + |Sentinel|..] == [Newline] + block + "";
    StripPadded("", content, [Newline]);
    StripPadded([Newline], block, "");
  }

  /** A post written as a stripped text without `===`, the marker line and
      a stripped block is handled as that text with that block. */
  lemma RenderedPostParts(content: string, block: string)
    requires ExpressibleContent(content) && IsStripped(block)
    ensures ParsePost(content + [Newline] + Sentinel + [Newline] + block) == Compose(content, ParseLayout(block))
  {
    var text := content + [Newline] + Sentinel + [Newline] + block;
    FirstSentinel(content, block);
    ParsePostAtFirstSentinel(text, |content| + 1);
    RenderedHalves(content, block);
  }

  /** Round trip: a rendered post of an expressible text and keyboard is
      reposted with exactly that text and that keyboard. */
  lemma PostRoundTrip(content: string, keyboard: seq<Row>)
    requires ExpressibleContent(content) && ExpressibleKeyboard(keyboard)
    ensures ParsePost(RenderPost(content, keyboard)) == Repost(content, keyboard)
  {
    KeyboardRoundTrip(keyboard);
    RenderedPostParts(content, RenderKeyboard(keyboard));
    assert Flatten(keyboard) == keyboard[0] + Flatten(keyboard[1..]);
  }

  // ---------------------------------------------------------------------
  // Every reposted text and keyboard is expressible, so rendering a
  // repost and handling it again changes nothing.
  // ---------------------------------------------------------------------

  /** Every button of every row is expressible. */
  predicate AllExpressible(rows: seq<Row>)
  {
    forall k, j :: 0 <= k < |rows| && 0 <= j < |rows[k]| ==> Expressible(rows[k][j])
  }

  lemma NoneOfSlice(s: string, i: nat, j: nat, seps: set<char>)
    requires i <= j <= |s| && NoneOf(s, seps)
    ensures NoneOf(s[i..j], seps)
  {
    forall k | 0 <= k < j - i ensures s[i..j][k] !in seps {
      assert s[i..j][k] == s[i + k];
    }
  }

  /** Stripping never brings in a character. */
  lemma StripNoneOf(s: string, seps: set<char>)
    requires NoneOf(s, seps)
    ensures NoneOf(Strip(s), seps)
  {
    StripSpec(s);
    NoneOfSlice(s, Lead(s), Lead(s) + |Strip(s)|, seps);
  }

  /** The pieces of a split hold only characters of the whole. */
  lemma {:induction false} SplitNoneOf(s: string, seps: set<char>, other: set<char>)
    requires NoneOf(s, other)
    ensures forall k :: 0 <= k < |Split(s, seps)| ==> NoneOf(Split(s, seps)[k], other)
    decreases |s|
  {
    if |s| > 0 {
      NoneOfSlice(s, 1, |s|, other);
      SplitNoneOf(s[1..], seps, other);
      var rest := Split(s[1..], seps);
      if s[0] !in seps {
        NoneOfAppend([s[0]], rest[0], other);
        var pieces := Split(s, seps);
        assert pieces == [[s[0]] + rest[0]] + rest[1..];
        forall k | 1 <= k < |pieces| ensures NoneOf(pieces[k], other) {
          assert pieces[k] == rest[k];
        }
      }
    }
  }

  /** A button parsed from an item without separators is expressible. */
  lemma ParseItemExpressible(raw: string)
    requires NoneOf(raw, Separators) && ParseItem(raw).Some?
    ensures Expressible(ParseItem(raw).value)
  {
    ParseItemSpec(raw);
    var item := Strip(raw);
    StripNoneOf(raw, Separators);
    ParseItemUnfold(raw);
    NoneOfSlice(item, 1, |item| - 1, Separators);
    var info := SplitOnce(Interior(item), "+");
    NoneOfAppend(info[0] + "+", info[1], Separators);
    NoneOfAppend(info[0], "+", Separators);
    StripNoneOf(info[0], Separators);
    StripNoneOf(info[1], Separators);
  }

  /** The well-formed items of a line without newlines are expressible. */
  lemma LineCandidatesExpressible(line: string)
    requires NoneOf(line, {Newline})
    ensures forall j :: 0 <= j < |LineCandidates(line)| ==> Expressible(LineCandidates(line)[j])
  {
    var items := Items(line);
    SplitNoneOf(line, Commas, {Newline});
    var parsed := ParseItems(items);
    forall k | 0 <= k < |parsed| && parsed[k].Some? ensures Expressible(parsed[k].value) {
      ParseItemExpressible(items[k]);
    }
    SomesExpressible(parsed);
  }

  /** `Somes` keeps only the buttons the parse results carry. */
  lemma {:induction false} SomesExpressible(parsed: seq<Option<Button>>)
    requires forall k :: 0 <= k < |parsed| && parsed[k].Some? ==> Expressible(parsed[k].value)
    ensures forall j :: 0 <= j < |Somes(parsed)| ==> Expressible(Somes(parsed)[j])
    decreases |parsed|
  {
    if |parsed| > 0 {
      SomesExpressible(parsed[1..]);
    }
  }

  /** The candidate rows of lines without newlines are expressible. */
  lemma {:induction false} CandidateRowsExpressible(lines: seq<string>)
    requires forall k :: 0 <= k < |lines| ==> NoneOf(lines[k], {Newline})
    ensures AllExpressible(CandidateRows(lines))
    decreases |lines|
  {
    if |lines| > 0 {
      LineCandidatesExpressible(lines[0]);
      CandidateRowsExpressible(lines[1..]);
      var rows := CandidateRows(lines);
      assert rows[0] == LineCandidates(lines[0]);
      assert forall k :: 1 <= k < |rows| ==> rows[k] == CandidateRows(lines[1..])[k - 1];
    }
  }

  /** Capping only shortens rows. */
  lemma {:induction false} CapRowsExpressible(rows: seq<Row>, budget: nat)
    requires AllExpressible(rows)
    ensures AllExpressible(CapRows(rows, budget))
    decreases |rows|
  {
    if |rows| > 0 {
      var first := Take(rows[0], budget);
      CapRowsExpressible(rows[1..], budget - |first|);
      var r := CapRows(rows, budget);
      assert r[0] == first;
      assert forall k :: 1 <= k < |r| ==> r[k] == CapRows(rows[1..], budget - |first|)[k - 1];
    }
  }

  /** Dropping rows keeps only rows of the input. */
  lemma {:induction false} NonEmptyRowsExpressible(rows: seq<Row>)
    requires AllExpressible(rows)
    ensures AllExpressible(NonEmptyRows(rows))
    decreases |rows|
  {
    if |rows| > 0 {
      NonEmptyRowsExpressible(rows[1..]);
      if |rows[0]| > 0 {
        var r := NonEmptyRows(rows);
        assert forall k :: 1 <= k < |r| ==> r[k] == NonEmptyRows(rows[1..])[k - 1];
      }
    }
  }

  /** Every button of a parsed layout is expressible. */
  lemma LayoutExpressible(block: string)
    ensures AllExpressible(ParseLayout(block).keyboard)
  {
    ParseLayoutIsReference(block);
    var rows := CandidateRows(Lines(block));
    CandidateRowsExpressible(Lines(block));
    CapRowsExpressible(rows, MaxButtons);
    NonEmptyRowsExpressible(CapRows(rows, MaxButtons));
  }

  /** An occurrence inside a slice is an occurrence in the whole. */
  lemma OccursInSlice(s: string, a: nat, b: nat, pat: string, j: nat)
    requires a <= b <= |s| && OccursAt(s[a..b], pat, j)
    ensures OccursAt(s, pat, a + j)
  {
    forall m | 0 <= m < |pat| ensures s[a + j + m] == pat[m] {
      assert s[a..b][j..j + |pat|][m] == pat[m];
    }
    assert s[a + j..a + j + |pat|] == pat;
  }

  /** The text before the first `===`, stripped, holds no `===`. */
  lemma BeforeFirstSentinel(text: string)
    requires Contains(text, Sentinel)
    ensures !Contains(Strip(SplitOnce(text, Sentinel)[0]), Sentinel)
  {
    var parts := SplitOnce(text, Sentinel);
    var p := parts[0];
    var c := Strip(p);
    StripSpec(p);
    assert p == text[..|p|];
    forall j: nat | OccursAt(c, Sentinel, j) ensures false {
      OccursInSlice(p, Lead(p), Lead(p) + |c|, Sentinel, j);
      OccursInSlice(text, 0, |p|, Sentinel, Lead(p) + j);
    }
  }

  /** What a repost carries is always expressible. */
  lemma RepostExpressible(text: string)
    ensures ParsePost(text).Repost? ==>
              && ExpressibleContent(ParsePost(text).content)
              && ExpressibleKeyboard(ParsePost(text).keyboard)
  {
    if ParsePost(text).Repost? {
      var parts := SplitOnce(text, Sentinel);
      StripSpec(parts[0]);
      BeforeFirstSentinel(text);
      LayoutExpressible(Strip(parts[1]));
    }
  }

  /** Canonical form: rendering what a post is reposted as and handling that
      rendering again yields the same repost. */
  lemma RenderRepost(text: string)
    ensures ParsePost(text).Repost? ==>
              ParsePost(RenderPost(ParsePost(text).content, ParsePost(text).keyboard)) == ParsePost(text)
  {
    if ParsePost(text).Repost? {
      RepostExpressible(text);
      PostRoundTrip(ParsePost(text).content, ParsePost(text).keyboard);
    }
  }
}
