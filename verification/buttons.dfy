/** One comma-separated item of a button row, `[label+url]`, and how the
    channel-post handler turns it into a button (yunduan.py lines 89-93). */
module Buttons {
  import opened Wrappers
  import opened Strings

  /** An inline-keyboard button: the text it shows and the link it opens.
      The link is an opaque string; nothing checks that it is a URL. */
  datatype Button = Button(text: string, url: string)

  /** The handler's test on a stripped item: it starts with `[`, ends with
      `]` and contains a `+` somewhere. */
  predicate IsButtonItem(item: string)
  {
    |item| > 0 && item[0] == '[' && item[|item| - 1] == ']' && '+' in item
  }

  /** The text between the brackets, `item[1:-1]`. */
  function Interior(item: string): string
    requires IsButtonItem(item)
  {
    item[1..|item| - 1]
  }

  /** The bracket test already puts a `+` strictly inside the brackets, so
      splitting the interior at `+` always yields two parts: the source's
      `len(btn_info) == 2` test never fails. */
  lemma InteriorHasPlus(item: string)
    requires IsButtonItem(item)
    ensures |SplitOnce(Interior(item), "+")| == 2
  {
    var k :| 0 <= k < |item| && item[k] == '+';
    assert 1 <= k < |item| - 1;
    var inner := Interior(item);
    assert inner[k - 1] == '+';
    assert inner[k - 1..k] == [inner[k - 1]];
    assert OccursAt(inner, "+", k - 1);
  }

  /** A part that lies before the first `+` holds no `+`. */
  lemma NoPlusBeforeFirst(s: string)
    requires |SplitOnce(s, "+")| == 2
    ensures '+' !in SplitOnce(s, "+")[0]
  {
    var p := SplitOnce(s, "+")[0];
    forall j | 0 <= j < |p| ensures p[j] != '+' {
      assert s[j..j + 1] == [p[j]];
      assert !OccursAt(s, "+", j);
    }
  }

  /** Parse one raw item: strip it; if it passes the bracket test, split the
      interior at the first `+` into a stripped label and a stripped link. */
  function ParseItem(raw: string): Option<Button>
  {
    var item := Strip(raw);
    if IsButtonItem(item) then
      var info := SplitOnce(Interior(item), "+");
      if |info| == 2 then Some(Button(Strip(info[0]), Strip(info[1]))) else None
    else None
  }

  /** An item is accepted exactly when its stripped form passes the bracket
      test; an accepted label never contains `+`, and neither the label nor
      the link starts or ends with white space. */
  lemma ParseItemSpec(raw: string)
    ensures ParseItem(raw).Some? <==> IsButtonItem(Strip(raw))
    ensures ParseItem(raw).Some? ==> '+' !in ParseItem(raw).value.text
    ensures ParseItem(raw).Some? ==>
              IsStripped(ParseItem(raw).value.text) && IsStripped(ParseItem(raw).value.url)
  {
    var item := Strip(raw);
    if IsButtonItem(item) {
      InteriorHasPlus(item);
      var info := SplitOnce(Interior(item), "+");
      NoPlusBeforeFirst(Interior(item));
      StripSpec(info[0]);
      StripSpec(info[1]);
      var t := Strip(info[0]);
      assert forall j :: 0 <= j < |t| ==> t[j] == info[0][Lead(info[0]) + j];
    }
  }

  /** For an accepted item whose first `+` is at index `k`, the label is the
      stripped text between `[` and that `+`, and the link is the stripped
      text between it and `]`; later `+` characters stay in the link. */
  lemma ParseItemFields(raw: string, k: nat)
    requires IsButtonItem(Strip(raw))
    requires 1 <= k < |Strip(raw)| - 1 && Strip(raw)[k] == '+'
    requires forall j :: 1 <= j < k ==> Strip(raw)[j] != '+'
    ensures ParseItem(raw)
         == Some(Button(Strip(Strip(raw)[1..k]), Strip(Strip(raw)[k + 1..|Strip(raw)| - 1])))
  {
    var item := Strip(raw);
    var inner := Interior(item);
    assert OccursAt(inner, "+", k - 1) by {
      assert inner[k - 1] == item[k];
      assert inner[k - 1..k] == [inner[k - 1]];
    }
    forall j | 0 <= j < k - 1 ensures !OccursAt(inner, "+", j) {
      assert inner[j..j + 1] == [item[j + 1]];
    }
    SplitOnceAt(inner, "+", k - 1);
    assert inner[..k - 1] == item[1..k];
    assert inner[k..] == item[k + 1..|item| - 1];
  }

  /** The canonical text of a button, `[label+url]`. */
  function RenderItem(b: Button): string
  {
    "[" + b.text + "+" + b.url + "]"
  }

  /** Splitting `t + "+" + u` at its first `+` gives back `t` and `u`
      when `t` holds no `+`. */
  lemma SplitAtFirstPlus(t: string, u: string)
    requires '+' !in t
    ensures SplitOnce(t + "+" + u, "+") == [t, u]
  {
    var inner := t + "+" + u;
    forall j | 0 <= j < |t| ensures !OccursAt(inner, "+", j) {
      assert inner[j..j + 1] == [t[j]];
    }
    assert inner[|t|..|t| + 1] == "+";
    SplitOnceAt(inner, "+", |t|);
    assert inner[..|t|] == t;
    assert inner[|t| + 1..] == u;
  }

  /** Canonical text passes the bracket test and carries no surrounding
      white space. */
  lemma RenderIsItem(b: Button)
    ensures IsStripped(RenderItem(b)) && IsButtonItem(RenderItem(b))
    ensures Interior(RenderItem(b)) == b.text + "+" + b.url
  {
    var item := RenderItem(b);
    assert item[|b.text| + 1] == '+';
  }

  /** Round trip: a button whose label holds no `+` and whose label and
      link carry no surrounding white space is recovered by `ParseItem` from
      its canonical text, whatever white space surrounds it. */
  lemma ParseRenderItem(b: Button, before: string, after: string)
    requires '+' !in b.text && IsStripped(b.text) && IsStripped(b.url)
    requires AllSpace(before) && AllSpace(after)
    ensures ParseItem(before + RenderItem(b) + after) == Some(b)
  {
    RenderIsItem(b);
    StripPadded(before, RenderItem(b), after);
    SplitAtFirstPlus(b.text, b.url);
    ParseItemUnfold(before + RenderItem(b) + after);
    StripAlreadyStripped(b.text);
    StripAlreadyStripped(b.url);
  }

  /** What `ParseItem` returns for an item that passes the bracket test. */
  lemma ParseItemUnfold(raw: string)
    requires IsButtonItem(Strip(raw))
    ensures var info := SplitOnce(Interior(Strip(raw)), "+");
            |info| == 2 && ParseItem(raw) == Some(Button(Strip(info[0]), Strip(info[1])))
  {
    InteriorHasPlus(Strip(raw));
  }

  /** Every accepted button is already in canonical form: re-parsing its
      canonical text gives the same button back. */
  lemma RenderParsedItem(raw: string)
    requires ParseItem(raw).Some?
    ensures ParseItem(RenderItem(ParseItem(raw).value)) == ParseItem(raw)
  {
    ParseItemSpec(raw);
    var b := ParseItem(raw).value;
    ParseRenderItem(b, "", "");
    assert "" + RenderItem(b) + "" == RenderItem(b);
  }
}
