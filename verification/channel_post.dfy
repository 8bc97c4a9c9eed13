/** The button mini-language that the channel-post handler recognises
    (yunduan.py lines 74-99):

        <content>
        ===
        [label+url],[label+url]
        [label+url]

    Everything before the first `===` is the post's text; every line after
    it is one keyboard row, whose items are separated by `,` or by the
    full-width comma U+FF0C.  At most nine buttons are accepted per message,
    malformed items are skipped, and rows that end up empty are dropped.

    `AcceptItems` and `ScanLines` follow the handler's two nested loops,
    with the loop variables (`row`, `keyboard`, `buttons`) as accumulators.
    `ReferenceLayout` says the same thing in one breath (parse every item,
    keep the first nine, drop empty rows) and `ParseLayoutIsReference`
    proves the two agree. */
module ChannelPost {
  import opened Wrappers
  import opened Seqs
  import opened Strings
  import opened Buttons

  /** The marker between the post's text and its button block. */
  const Sentinel: string := "==="

  /** The most buttons one message may carry. */
  const MaxButtons: nat := 9

  const Newline: char := '\n'

  /** The two item separators: the ASCII comma and the full-width comma. */
  const Commas: set<char> := {',', '\U{FF0C}'}

  type Row = seq<Button>

  /** The handler's two accumulators: the keyboard built so far (a list of
      rows) and the flat list of every button accepted so far. */
  datatype Layout = Layout(keyboard: seq<Row>, buttons: seq<Button>)

  /** What the handler does with a channel post: leave it alone because it
      has no `===` (or no text), leave it alone because no button was
      accepted, or delete it and send `content` again with `keyboard`. */
  datatype Outcome =
    | NotApplicable
    | NoButtons
    | Repost(content: string, keyboard: seq<Row>)

  /** `button_text.split("\n")`. */
  function Lines(block: string): seq<string>
  {
    Split(block, {Newline})
  }

  /** `re.split(r"[,，]", line)`. */
  function Items(line: string): seq<string>
  {
    Split(line, Commas)
  }

  /** How many more buttons may be accepted once `n` have been. */
  function Room(n: nat): nat
  {
    if n < MaxButtons then MaxButtons - n else 0
  }

  /** The keyboard and the flat list agree: laying the rows end to end
      gives the flat list, and no row is empty. */
  predicate Consistent(l: Layout)
  {
    && Flatten(l.keyboard) == l.buttons
    && forall k :: 0 <= k < |l.keyboard| ==> |l.keyboard[k]| > 0
  }

  /** Each item of a line run through `ParseItem`; `None` marks a
      malformed item.  Parsing an item does not depend on how many buttons
      were accepted before it, so parsing the whole line first and then
      scanning is the same as the handler's parse-as-you-go loop. */
  function ParseItems(items: seq<string>): seq<Option<Button>>
  {
    seq(|items|, k requires 0 <= k < |items| => ParseItem(items[k]))
  }

  /** The inner loop over one line's parsed items, started when `count`
      buttons have already been accepted from earlier lines: the result is
      the line's `row`, and the handler's `len(buttons)` at any point of the
      loop is `count` plus the length of the row so far.  A button is
      appended when its item parsed and fewer than `MaxButtons` buttons have
      been accepted, so a row never takes more than the room left. */
  function AcceptItems(parsed: seq<Option<Button>>, count: nat): (row: Row)
    ensures |row| <= Room(count)
    decreases |parsed|
  {
    if |parsed| == 0 then []
    else if parsed[0].Some? && count < MaxButtons then
      [parsed[0].value] + AcceptItems(parsed[1..], count + 1)
    else AcceptItems(parsed[1..], count)
  }

  /** The buttons of one line, as the handler accepts them. */
  function AcceptLine(line: string, count: nat): Row
  {
    AcceptItems(ParseItems(Items(line)), count)
  }

  /** The outer loop over the lines of the button block: each line's row is
      appended to the flat list, and to the keyboard only if it accepted
      something.  The loop keeps the keyboard consistent with the flat list
      and never lets the flat list grow past `MaxButtons`. */
  function ScanLines(lines: seq<string>, acc: Layout): (r: Layout)
    ensures Consistent(acc) ==> Consistent(r)
    ensures |r.buttons| <= |acc.buttons| + Room(|acc.buttons|)
    decreases |lines|
  {
    if |lines| == 0 then acc
    else
      var row := AcceptLine(lines[0], |acc.buttons|);
      var keyboard := if |row| > 0 then acc.keyboard + [row] else acc.keyboard;
      FlattenAppend(acc.keyboard, [row]);
      assert Flatten([row]) == row + Flatten([]);
      ScanLines(lines[1..], Layout(keyboard, acc.buttons + row))
  }

  /** Everything from `button_text.split("\n")` to the end of the loops:
      the keyboard has no empty row, lays out exactly the accepted buttons,
      and holds at most `MaxButtons` of them. */
  function ParseLayout(block: string): (r: Layout)
    ensures Consistent(r)
    ensures |r.buttons| <= MaxButtons
  {
    ScanLines(Lines(block), Layout([], []))
  }

  /** The handler's decision once it has the content and the layout of
      the button block (`if buttons:`): repost iff at least one button was
      accepted. */
  function Compose(content: string, layout: Layout): (r: Outcome)
    ensures r.Repost? <==> |layout.buttons| > 0
    ensures r.NoButtons? <==> |layout.buttons| == 0
    ensures r.Repost? ==> r.content == content && r.keyboard == layout.keyboard
  {
    if |layout.buttons| > 0 then Repost(content, layout.keyboard) else NoButtons
  }

  /** The parsing part of `handle_channel_post` for a post with text.  It
      applies exactly when the text contains `===`; a reposted keyboard has
      between one and `MaxButtons` buttons and no empty row. */
  function ParsePost(text: string): (r: Outcome)
    ensures r.NotApplicable? <==> !Contains(text, Sentinel)
    ensures r.Repost? ==> 0 < |Flatten(r.keyboard)| <= MaxButtons
    ensures r.Repost? ==> forall k :: 0 <= k < |r.keyboard| ==> |r.keyboard[k]| > 0
  {
    if Contains(text, Sentinel) then
      var parts := SplitOnce(text, Sentinel);
      if |parts| == 2 then Compose(Strip(parts[0]), ParseLayout(Strip(parts[1])))
      else NotApplicable
    else NotApplicable
  }

  /** `handle_channel_post` on a post whose text may be missing (a photo
      without caption, say): no text means nothing to do. */
  function HandleChannelPost(text: Option<string>): (r: Outcome)
    ensures r.NotApplicable? <==> text.None? || !Contains(text.value, Sentinel)
    ensures r.Repost? ==> 0 < |Flatten(r.keyboard)| <= MaxButtons
  {
    match text
    case None => NotApplicable
    case Some(t) => ParsePost(t)
  }

  // ---------------------------------------------------------------------
  // Reference definition: parse every item, cap, drop empty rows.
  // ---------------------------------------------------------------------

  /** The buttons of all well-formed items, in order, ignoring the cap. */
  function Somes(parsed: seq<Option<Button>>): seq<Button>
  {
    if |parsed| == 0 then []
    else if parsed[0].Some? then [parsed[0].value] + Somes(parsed[1..])
    else Somes(parsed[1..])
  }

  /** The well-formed buttons of one line, ignoring the cap. */
  function LineCandidates(line: string): Row
  {
    Somes(ParseItems(Items(line)))
  }

  /** One row of candidates per line. */
  function CandidateRows(lines: seq<string>): (rows: seq<Row>)
    ensures |rows| == |lines|
  {
    if |lines| == 0 then [] else [LineCandidates(lines[0])] + CandidateRows(lines[1..])
  }

  /** Keep only the first `budget` buttons overall, row boundaries intact. */
  function CapRows(rows: seq<Row>, budget: nat): (r: seq<Row>)
    ensures |r| == |rows|
  {
    if |rows| == 0 then []
    else
      var first := Take(rows[0], budget);
      [first] + CapRows(rows[1..], budget - |first|)
  }

  /** The rows that are not empty, in order. */
  function NonEmptyRows(rows: seq<Row>): (r: seq<Row>)
    ensures |r| <= |rows|
    ensures forall k :: 0 <= k < |r| ==> |r[k]| > 0
  {
    if |rows| == 0 then []
    else if |rows[0]| > 0 then [rows[0]] + NonEmptyRows(rows[1..])
    else NonEmptyRows(rows[1..])
  }

  /** The layout the handler should produce for a button block, stated
      without any loop: the first `MaxButtons` well-formed items, grouped by
      line, with empty lines dropped. */
  function ReferenceLayout(block: string): Layout
  {
    var rows := CandidateRows(Lines(block));
    Layout(NonEmptyRows(CapRows(rows, MaxButtons)), Take(Flatten(rows), MaxButtons))
  }

  // ---------------------------------------------------------------------
  // The loops compute the reference layout.
  // ---------------------------------------------------------------------

  lemma TakeCons(b: Button, c: seq<Button>, n: nat)
    requires n > 0
    ensures Take([b] + c, n) == [b] + Take(c, n - 1)
  {
    if n - 1 < |c| {
      assert ([b] + c)[..n] == [b] + c[..n - 1];
    }
  }

  /** The inner loop accepts exactly the well-formed items that still fit
      under the cap: malformed items are skipped without stopping the scan,
      and well-formed ones past the cap are dropped. */
  lemma {:induction false} AcceptItemsIsTake(parsed: seq<Option<Button>>, count: nat)
    ensures AcceptItems(parsed, count) == Take(Somes(parsed), Room(count))
    decreases |parsed|
  {
    if |parsed| > 0 {
      var rest := parsed[1..];
      if parsed[0].Some? && count < MaxButtons {
        AcceptItemsIsTake(rest, count + 1);
        TakeCons(parsed[0].value, Somes(rest), Room(count));
      } else {
        AcceptItemsIsTake(rest, count);
      }
    }
  }

  /** Capping and filtering a non-empty row list: the first row keeps
      `Take(rows[0], room)`, kept only if not empty, and the other rows
      share what room is left. */
  lemma CapRowsCons(rows: seq<Row>, room: nat)
    requires |rows| > 0
    ensures var t := Take(rows[0], room);
            NonEmptyRows(CapRows(rows, room))
            == (if |t| > 0 then [t] else []) + NonEmptyRows(CapRows(rows[1..], room - |t|))
  {
    var t := Take(rows[0], room);
    var capped := CapRows(rows[1..], room - |t|);
    assert CapRows(rows, room) == [t] + capped;
    assert ([t] + capped)[1..] == capped;
  }

  /** Taking from the flat list of a non-empty row list takes from the first
      row, then from the others with what room is left. */
  lemma TakeFlattenCons(rows: seq<Row>, room: nat)
    requires |rows| > 0
    ensures var t := Take(rows[0], room);
            Take(Flatten(rows), room) == t + Take(Flatten(rows[1..]), room - |t|)
  {
    assert Flatten(rows) == rows[0] + Flatten(rows[1..]);
    TakeAppend(rows[0], Flatten(rows[1..]), room);
  }

  /** One turn of the outer loop, with the row it accepts written as the
      capped candidates of the first line. */
  lemma ScanLinesStep(lines: seq<string>, acc: Layout)
    requires |lines| > 0
    ensures var t := Take(LineCandidates(lines[0]), Room(|acc.buttons|));
            var head: seq<Row> := if |t| > 0 then [t] else [];
            ScanLines(lines, acc) == ScanLines(lines[1..], Layout(acc.keyboard + head, acc.buttons + t))
  {
    var t := Take(LineCandidates(lines[0]), Room(|acc.buttons|));
    AcceptItemsIsTake(ParseItems(Items(lines[0])), |acc.buttons|);
    if |t| == 0 {
      assert acc.keyboard + [] == acc.keyboard;
    }
  }

  /** Appending `b` then `c` is appending their concatenation `d`. */
  lemma AppendEq<T>(a: seq<T>, b: seq<T>, c: seq<T>, d: seq<T>)
    requires b + c == d
    ensures a + b + c == a + d
  {
  }

  /** The reference keyboard of a non-empty row list after `kb`: the first
      row's share, then the reference keyboard of the other rows. */
  lemma ReferenceKeyboardStep(kb: seq<Row>, rows: seq<Row>, room: nat)
    requires |rows| > 0
    ensures var t := Take(rows[0], room);
            var head: seq<Row> := if |t| > 0 then [t] else [];
            kb + head + NonEmptyRows(CapRows(rows[1..], room - |t|))
            == kb + NonEmptyRows(CapRows(rows, room))
  {
    var t := Take(rows[0], room);
    var head: seq<Row> := if |t| > 0 then [t] else [];
    CapRowsCons(rows, room);
    AppendEq(kb, head, NonEmptyRows(CapRows(rows[1..], room - |t|)), NonEmptyRows(CapRows(rows, room)));
  }

  /** The reference button list of a non-empty row list after `bs`. */
  lemma ReferenceButtonsStep(bs: seq<Button>, rows: seq<Row>, room: nat)
    requires |rows| > 0
    ensures var t := Take(rows[0], room);
            bs + t + Take(Flatten(rows[1..]), room - |t|) == bs + Take(Flatten(rows), room)
  {
    var t := Take(rows[0], room);
    TakeFlattenCons(rows, room);
    AppendEq(bs, t, Take(Flatten(rows[1..]), room - |t|), Take(Flatten(rows), room));
  }

  /** The outer loop with each line already reduced to its candidate row:
      a row keeps what fits under the cap and is added to the keyboard only
      if that is not empty. */
  function ScanRows(rows: seq<Row>, acc: Layout): Layout
    decreases |rows|
  {
    if |rows| == 0 then acc
    else
      var t := Take(rows[0], Room(|acc.buttons|));
      var head: seq<Row> := if |t| > 0 then [t] else [];
      ScanRows(rows[1..], Layout(acc.keyboard + head, acc.buttons + t))
  }

  /** The handler's outer loop is the row-level loop over the candidate
      rows of its lines. */
  lemma {:induction false} ScanLinesIsScanRows(lines: seq<string>, acc: Layout)
    ensures ScanLines(lines, acc) == ScanRows(CandidateRows(lines), acc)
    decreases |lines|
  {
    if |lines| > 0 {
      var rows := CandidateRows(lines);
      assert rows[0] == LineCandidates(lines[0]) && rows[1..] == CandidateRows(lines[1..]);
      var t := Take(LineCandidates(lines[0]), Room(|acc.buttons|));
      var head: seq<Row> := if |t| > 0 then [t] else [];
      ScanLinesStep(lines, acc);
      ScanLinesIsScanRows(lines[1..], Layout(acc.keyboard + head, acc.buttons + t));
    }
  }

  /** The row-level loop produces the reference layout of the rows it has
      not yet seen, appended to what it had. */
  lemma {:induction false} ScanRowsIsReference(rows: seq<Row>, acc: Layout)
    ensures var room := Room(|acc.buttons|);
            ScanRows(rows, acc)
              == Layout(acc.keyboard + NonEmptyRows(CapRows(rows, room)),
                        acc.buttons + Take(Flatten(rows), room))
    decreases |rows|
  {
    var room := Room(|acc.buttons|);
    if |rows| == 0 {
      assert acc.keyboard + [] == acc.keyboard && acc.buttons + [] == acc.buttons;
    } else {
      var t := Take(rows[0], room);
      var head: seq<Row> := if |t| > 0 then [t] else [];
      var next := Layout(acc.keyboard + head, acc.buttons + t);
      assert Room(|next.buttons|) == room - |t|;
      ScanRowsIsReference(rows[1..], next);
      ReferenceKeyboardStep(acc.keyboard, rows, room);
      ReferenceButtonsStep(acc.buttons, rows, room);
    }
  }

  /** The outer loop produces the reference layout of the lines it has not
      yet seen, appended to what it had. */
  lemma ScanLinesIsReference(lines: seq<string>, acc: Layout)
    ensures var rows := CandidateRows(lines);
            var room := Room(|acc.buttons|);
            ScanLines(lines, acc)
              == Layout(acc.keyboard + NonEmptyRows(CapRows(rows, room)),
                        acc.buttons + Take(Flatten(rows), room))
  {
    ScanLinesIsScanRows(lines, acc);
    ScanRowsIsReference(CandidateRows(lines), acc);
  }

  /** The handler's nested loops compute exactly the reference layout. */
  lemma ParseLayoutIsReference(block: string)
    ensures ParseLayout(block) == ReferenceLayout(block)
  {
    ScanLinesIsReference(Lines(block), Layout([], []));
    assert Room(0) == MaxButtons;
  }

  // ---------------------------------------------------------------------
  // Consequences for the handler.
  // ---------------------------------------------------------------------

  /** Within the reference, too, the capped keyboard lays out exactly the
      capped flat list. */
  lemma {:induction false} ReferenceBookkeeping(rows: seq<Row>, room: nat)
    ensures Flatten(NonEmptyRows(CapRows(rows, room))) == Take(Flatten(rows), room)
    decreases |rows|
  {
    if |rows| > 0 {
      var t := Take(rows[0], room);
      var head: seq<Row> := if |t| > 0 then [t] else [];
      CapRowsCons(rows, room);
      TakeFlattenCons(rows, room);
      ReferenceBookkeeping(rows[1..], room - |t|);
      var tail := NonEmptyRows(CapRows(rows[1..], room - |t|));
      FlattenAppend(head, tail);
      assert Flatten(head) == t by {
        if |t| > 0 {
          assert Flatten(head) == t + Flatten([]);
        }
      }
    }
  }

  /** Rows that together hold no more than `room` buttons are not cut. */
  lemma {:induction false} CapRowsWithinRoom(rows: seq<Row>, room: nat)
    requires |Flatten(rows)| <= room
    ensures CapRows(rows, room) == rows
    decreases |rows|
  {
    if |rows| > 0 {
      assert Flatten(rows) == rows[0] + Flatten(rows[1..]);
      CapRowsWithinRoom(rows[1..], room - |rows[0]|);
      assert [rows[0]] + rows[1..] == rows;
    }
  }

  /** With at most `MaxButtons` well-formed items in the whole block, the
      cap never bites: every well-formed item becomes a button, each line
      with one becomes a row, and the order of lines and of items within a
      line is kept. */
  lemma UncappedLayout(block: string)
    requires |Flatten(CandidateRows(Lines(block)))| <= MaxButtons
    ensures ParseLayout(block).keyboard == NonEmptyRows(CandidateRows(Lines(block)))
    ensures ParseLayout(block).buttons == Flatten(CandidateRows(Lines(block)))
  {
    ParseLayoutIsReference(block);
    CapRowsWithinRoom(CandidateRows(Lines(block)), MaxButtons);
  }

  /** With more well-formed items than the cap, exactly the first
      `MaxButtons` of them are kept, and the rest are dropped without
      error. */
  lemma CappedLayout(block: string)
    requires |Flatten(CandidateRows(Lines(block)))| >= MaxButtons
    ensures |ParseLayout(block).buttons| == MaxButtons
    ensures ParseLayout(block).buttons == Flatten(CandidateRows(Lines(block)))[..MaxButtons]
  {
    ParseLayoutIsReference(block);
  }

  /** A button block yields a reposted message iff some line holds at least
      one well-formed item; otherwise the post is left alone. */
  lemma ComposeRepostIff(content: string, block: string)
    ensures Compose(content, ParseLayout(block)).Repost? <==> |Flatten(CandidateRows(Lines(block)))| > 0
    ensures Compose(content, ParseLayout(block)).NoButtons? <==> |Flatten(CandidateRows(Lines(block)))| == 0
  {
    ParseLayoutIsReference(block);
  }

  /** The post is cut at the FIRST `===`: the content is the stripped text
      before it and the button block is the stripped text after it, which
      may hold further `===` markers. */
  lemma ParsePostAtFirstSentinel(text: string, i: nat)
    requires OccursAt(text, Sentinel, i)
    requires forall j :: 0 <= j < i ==> !OccursAt(text, Sentinel, j)
    ensures ParsePost(text) == Compose(Strip(text[..i]), ParseLayout(Strip(text[i + |Sentinel|..])))
  {
    SplitOnceAt(text, Sentinel, i);
  }

  /** The post is reposted iff it contains `===` and its button block holds
      at least one well-formed item. */
  lemma ParsePostRepostIff(text: string)
    ensures ParsePost(text).Repost?
        <==> Contains(text, Sentinel)
             && |Flatten(CandidateRows(Lines(Strip(SplitOnce(text, Sentinel)[1]))))| > 0
  {
    if Contains(text, Sentinel) {
      var parts := SplitOnce(text, Sentinel);
      ComposeRepostIff(Strip(parts[0]), Strip(parts[1]));
    }
  }

  lemma {:induction false} SomesAppend(a: seq<Option<Button>>, b: seq<Option<Button>>)
    ensures Somes(a + b) == Somes(a) + Somes(b)
    decreases |a|
  {
    if |a| > 0 {
      assert (a + b)[1..] == a[1..] + b;
      SomesAppend(a[1..], b);
    } else {
      assert a + b == b;
    }
  }

  /** Parsing distributes over concatenation of item lists. */
  lemma ParseItemsAppend(a: seq<string>, b: seq<string>)
    ensures ParseItems(a + b) == ParseItems(a) + ParseItems(b)
  {
    var l := ParseItems(a + b);
    var r := ParseItems(a) + ParseItems(b);
    assert |l| == |r|;
    forall k | 0 <= k < |l| ensures l[k] == r[k] {
      if k < |a| {
        assert (a + b)[k] == a[k];
      } else {
        assert (a + b)[k] == b[k - |a|];
      }
    }
  }

  /** A `None` in the parsed items changes nothing the inner loop accepts. */
  lemma AcceptSkipsNone(before: seq<Option<Button>>, after: seq<Option<Button>>, count: nat)
    ensures AcceptItems(before + [None] + after, count) == AcceptItems(before + after, count)
  {
    SomesAppend(before + [None], after);
    SomesAppend(before, [None]);
    SomesAppend(before, after);
    assert Somes([None]) == [];
    AcceptItemsIsTake(before + [None] + after, count);
    AcceptItemsIsTake(before + after, count);
  }

  /** A malformed item neither stops the scan of its line nor changes what
      is accepted from it: removing it leaves the row unchanged. */
  lemma MalformedItemSkipped(items: seq<string>, i: nat, count: nat)
    requires i < |items| && ParseItem(items[i]).None?
    ensures AcceptItems(ParseItems(items), count)
         == AcceptItems(ParseItems(items[..i] + items[i + 1..]), count)
  {
    assert items == items[..i] + [items[i]] + items[i + 1..];
    ParseItemsAppend(items[..i] + [items[i]], items[i + 1..]);
    ParseItemsAppend(items[..i], [items[i]]);
    ParseItemsAppend(items[..i], items[i + 1..]);
    assert ParseItems([items[i]]) == [None];
    AcceptSkipsNone(ParseItems(items[..i]), ParseItems(items[i + 1..]), count);
  }
}
