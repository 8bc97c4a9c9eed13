/** Concrete posts and what the handler makes of them, derived from the
    general lemmas rather than by evaluation. */
module WorkedExamples {
  import opened Wrappers
  import opened Seqs
  import opened Strings
  import opened Buttons
  import opened ChannelPost
  import opened CommaEquivalence
  import opened PostRender

  /** Swapping one comma for the other keeps the comma-normal form. */
  lemma CommaSwap(a: string, b: string)
    ensures CommaVariants(a + ['\U{FF0C}'] + b, a + [','] + b)
  {
    var x := a + ['\U{FF0C}'] + b;
    var y := a + [','] + b;
    forall i | 0 <= i < |x| ensures Normalize(x)[i] == Normalize(y)[i] {
      if i != |a| {
        assert x[i] == y[i];
      }
    }
  }

  /** A block rendered from an expressible keyboard, but with one comma
      written full-width, still gives that keyboard. */
  lemma FullWidthBlock(keyboard: seq<Row>, a: string, b: string)
    requires ExpressibleKeyboard(keyboard)
    requires RenderKeyboard(keyboard) == a + [','] + b
    ensures IsStripped(a + ['\U{FF0C}'] + b)
    ensures ParseLayout(a + ['\U{FF0C}'] + b) == Layout(keyboard, Flatten(keyboard))
  {
    var x := a + ['\U{FF0C}'] + b;
    var y := a + [','] + b;
    KeyboardRoundTrip(keyboard);
    CommaSwap(a, b);
    NormalizeLayout(x);
    NormalizeLayout(y);
    assert !IsSpace('\U{FF0C}');
    if |a| > 0 {
      assert x[0] == y[0];
    }
    if |b| > 0 {
      assert x[|x| - 1] == y[|y| - 1];
    }
  }

  /** Text without `=` holds no `===`. */
  lemma NoEqualsSign(s: string)
    requires '=' !in s
    ensures !Contains(s, Sentinel)
  {
    forall j: nat | j < |s| ensures !OccursAt(s, Sentinel, j) {
      assert s[j] != '=';
    }
  }

  /** Rendering two items on one line. */
  lemma RenderTwoItems(b1: Button, b2: Button)
    ensures RenderRow([b1, b2]) == RenderItem(b1) + [','] + RenderItem(b2)
  {
    var texts := [RenderItem(b1), RenderItem(b2)];
    assert RenderAll([b1, b2]) == texts;
    assert Join(texts, ',') == texts[0] + [','] + Join(texts[1..], ',');
  }

  /** Rendering one item alone on its line. */
  lemma RenderOneItem(b: Button)
    ensures RenderRow([b]) == RenderItem(b)
  {
    assert RenderAll([b]) == [RenderItem(b)];
  }

  /** Rendering two rows. */
  lemma RenderTwoRows(r1: Row, r2: Row)
    ensures RenderKeyboard([r1, r2]) == RenderRow(r1) + [Newline] + RenderRow(r2)
  {
    var lines := [RenderRow(r1), RenderRow(r2)];
    assert RenderRows([r1, r2]) == lines;
    assert Join(lines, Newline) == lines[0] + [Newline] + Join(lines[1..], Newline);
  }

  lemma FlattenTwoRows(b1: Button, b2: Button, b3: Button)
    ensures Flatten([[b1, b2], [b3]]) == [b1, b2, b3]
  {
    assert Flatten([[b1, b2], [b3]]) == [b1, b2] + Flatten([[b3]]);
    assert Flatten([[b3]]) == [b3] + Flatten<Button>([]);
  }

  const Baidu := Button("百度", "http://baidu.com")
  const Google := Button("谷歌", "https://google.com")
  const Twitter := Button("推特", "https://twitter.com")

  lemma BaiduExpressible() ensures Expressible(Baidu) {}
  lemma GoogleExpressible() ensures Expressible(Google) {}
  lemma TwitterExpressible() ensures Expressible(Twitter) {}

  /** The sample post of the bot's help text, which reads

          欢迎体验机器人
          ===
          [百度+http://baidu.com]，[谷歌+https://google.com]
          [推特+https://twitter.com]

      with a full-width comma between the first two items. */
  const HelpPost: string :=
    "欢迎体验机器人" + [Newline] + Sentinel + [Newline]
    + (RenderItem(Baidu) + ['\U{FF0C}'] + (RenderItem(Google) + [Newline] + RenderItem(Twitter)))

  const HelpKeyboard: seq<Row> := [[Baidu, Google], [Twitter]]

  /** The keyboard of the sample post can be written in the mini-language,
      and with ASCII commas it reads as the sample's button block. */
  lemma HelpKeyboardExpressible()
    ensures ExpressibleKeyboard(HelpKeyboard)
    ensures RenderKeyboard(HelpKeyboard)
         == RenderItem(Baidu) + [','] + (RenderItem(Google) + [Newline] + RenderItem(Twitter))
  {
    RenderTwoItems(Baidu, Google);
    RenderOneItem(Twitter);
    RenderTwoRows([Baidu, Google], [Twitter]);
    FlattenTwoRows(Baidu, Google, Twitter);
    BaiduExpressible();
    GoogleExpressible();
    TwitterExpressible();
  }

  /** The help text's sample post is reposted as its first line with a
      two-row keyboard: two buttons, then one. */
  lemma HelpTextExample()
    ensures ParsePost(HelpPost) == Repost("欢迎体验机器人", [[Baidu, Google], [Twitter]])
  {
    var content := "欢迎体验机器人";
    var first := RenderItem(Baidu);
    var rest := RenderItem(Google) + [Newline] + RenderItem(Twitter);
    HelpKeyboardExpressible();
    FullWidthBlock(HelpKeyboard, first, rest);
    NoEqualsSign(content);
    RenderedPostParts(content, first + ['\U{FF0C}'] + rest);
    assert |Flatten(HelpKeyboard)| > 0;
  }

  /** The marker need not stand on a line of its own: when the text before
      it holds no `===` and does not end in `=`, and the text and the block
      are stripped, the post is handled as that text with that block. */
  lemma InlineMarker(content: string, block: string)
    requires !Contains(content, Sentinel)
    requires |content| == 0 || content[|content| - 1] != '='
    requires IsStripped(content) && IsStripped(block)
    ensures ParsePost(content + Sentinel + block) == Compose(content, ParseLayout(block))
  {
    var text := content + Sentinel + block;
    var n := |content|;
    assert text[n..n + 3] == Sentinel;
    forall j | 0 <= j < n ensures !OccursAt(text, Sentinel, j) {
      if j + 3 <= n {
        assert text[j..j + 3] == content[j..j + 3];
        assert !OccursAt(content, Sentinel, j);
      } else {
        assert text[n - 1] == content[n - 1];
        assert text[j..j + 3][n - 1 - j] == text[n - 1];
      }
    }
    ParsePostAtFirstSentinel(text, n);
    assert text[..n] == content;
    assert text[n + 3..] == block;
    StripAlreadyStripped(content);
    StripAlreadyStripped(block);
  }

  /** A text ending in `=` moves the cut one place left: the `=` is read as
      the start of the marker and the last `=` of `====` opens the block. */
  lemma ShiftedMarker(content: string, block: string)
    requires !Contains(content, Sentinel)
    requires |content| == 0 || content[|content| - 1] != '='
    requires IsStripped(content) && IsStripped(block)
    ensures ParsePost(content + "=" + Sentinel + block)
         == Compose(content, ParseLayout("=" + block))
  {
    assert content + "=" + Sentinel + block == content + Sentinel + ("=" + block);
    assert IsStripped("=" + block) by {
      assert ("=" + block)[0] == '=';
      if |block| > 0 {
        assert ("=" + block)[|block|] == block[|block| - 1];
      }
    }
    InlineMarker(content, "=" + block);
  }

  /** A block that is one rendered item behind a `=` holds no item. */
  lemma EqualsItemNoCandidates(b: Button)
    requires Expressible(b)
    ensures Flatten(CandidateRows(Lines("=" + RenderItem(b)))) == []
  {
    var block := "=" + RenderItem(b);
    RenderItemPlain(b);
    NoneOfAppend("=", RenderItem(b), Separators);
    assert NoneOf(block, {Newline}) && NoneOf(block, Commas);
    SplitNoSep(block, {Newline});
    SplitNoSep(block, Commas);
    assert IsStripped(block) by {
      assert block[0] == '=' && block[|block| - 1] == ']';
    }
    StripAlreadyStripped(block);
    ParseItemSpec(block);
    assert ParseItems([block]) == [None];
    assert Somes([None]) == Somes([]);
    assert CandidateRows([block]) == [[]] + CandidateRows([]);
    assert Flatten([[]]) == [] + Flatten<Button>([]);
  }

  /** So in `a====[X+http://x.com]` the block is `=[X+http://x.com]`, which
      is not an item: the post keeps no button at all. */
  lemma ShiftedMarkerDropsButton(content: string, b: Button)
    requires !Contains(content, Sentinel)
    requires |content| == 0 || content[|content| - 1] != '='
    requires IsStripped(content) && Expressible(b)
    ensures ParsePost(content + "=" + Sentinel + RenderItem(b)) == NoButtons
  {
    RenderIsItem(b);
    ShiftedMarker(content, RenderItem(b));
    EqualsItemNoCandidates(b);
    ComposeRepostIff(content, "=" + RenderItem(b));
  }

  const Promo := Button("X", "http://x.com")

  /** The one-button keyboard of the one-line post. */
  lemma PromoKeyboard()
    ensures ExpressibleKeyboard([[Promo]])
    ensures RenderKeyboard([[Promo]]) == RenderItem(Promo)
  {
    RenderOneItem(Promo);
    assert RenderRows([[Promo]]) == [RenderRow([Promo])];
    assert Flatten([[Promo]]) == [Promo] + Flatten<Button>([]);
    assert Expressible(Promo);
  }

  /** A one-line post `Promo===[X+http://x.com]` is reposted as `Promo`
      with a single one-button row. */
  lemma PromoExample()
    ensures ParsePost("Promo" + Sentinel + RenderItem(Promo)) == Repost("Promo", [[Promo]])
  {
    PromoKeyboard();
    KeyboardRoundTrip([[Promo]]);
    NoEqualsSign("Promo");
    InlineMarker("Promo", RenderItem(Promo));
    assert |Flatten([[Promo]])| > 0;
  }
}
