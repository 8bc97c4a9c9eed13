# Channel-post button parser, modelled in Dafny

A Telegram bot watches a channel. When someone posts text of the form

    Post text
    ===
    [Label one+https://a.example]，[Label two+https://b.example]
    [Label three+https://c.example]

the bot deletes the post and sends the text again with an inline
keyboard. Each line after the `===` marker becomes one keyboard row. Each
comma-separated `[label+url]` item becomes one button, and either the
ASCII comma or the full-width comma `，` (U+FF0C) may separate items.
Items that are not of the form `[…+…]` are skipped, rows left without
a button are dropped, and at most nine buttons are kept in all.
This project models the parsing part of that handler
(`handle_channel_post`, yunduan.py lines 74-99) as pure functions over
strings, and proves what the handler promises about its result.

Modules, one per file:

- `Wrappers` (wrappers.dfy): `Option`.
- `Seqs` (seqs.dfy): `Take` (Python's `s[:n]`) and `Flatten`.
- `Strings` (strings.dfy): the Python string operations the handler
  uses:
  - `str.strip()`, with Python's `str.isspace` code points;
  - the substring test `in`;
  - `split(sep, 1)`;
  - `split("\n")` and `re.split(r"[,，]")` as `Split` at a character
    class;
  - the inverse `Join`.
- `Buttons` (buttons.dfy): the `Button` datatype, the item test
  `[…+…]`, and `ParseItem`, which turns one raw item into a button or
  rejects it.
- `ChannelPost` (channel_post.dfy): the handler's two nested loops.
  - `AcceptItems` and `ScanLines` carry the handler's `row`, `keyboard`
    and `buttons` variables as accumulators.
  - `ParseLayout` runs the loops over the button block.
  - `Compose` and `ParsePost` make the repost decision.
  - `HandleChannelPost` covers a post without text.
  - `ReferenceLayout` is an independent, loop-free statement of the same
    result: parse every item, keep the first nine buttons, drop rows
    left empty. It is proved equal to the loops.
- `CommaEquivalence` (commas.dfy): both commas are interchangeable
  everywhere in a post.
- `PostRender` (render.dfy): writes a text and a keyboard back out as a
  post. It proves the round trip in both directions:
  - every expressible text and keyboard is parsed back unchanged;
  - every repost is expressible, so rendering a repost and handling it
    again gives the same repost.
- `WorkedExamples` (examples.dfy): concrete posts, derived from the
  general lemmas. One is the sample post of the bot's help text
  (yunduan.py lines 46-49).

The handler's outcome is the datatype `Outcome`:

- `NotApplicable`: no text, or no `===` in it.
- `NoButtons`: `===` present, but no button accepted. The post stays as
  it is.
- `Repost(content, keyboard)`: the post is deleted and sent again.

The Telegram calls that perform a repost are not modelled.

Two details of the code are worth stating:

- **The `===` marker.** The code cuts at the first `===`
  (`split("===", 1)`), so the button block may hold further `===`
  (`ParsePostAtFirstSentinel`).
- **Where the `+` must be.** The code looks for `+` anywhere in the
  stripped item. `InteriorHasPlus` shows that such a `+` always lies
  between the brackets, so the `len(btn_info) == 2` test never fails.

## Model

| member | source | states |
|---|---|---|
| Strings.FindFrom | yunduan.py:76 | the index found is an occurrence of the pattern, no earlier index from the start point is one, and None means there is no occurrence at all |
| Strings.SplitOnce | yunduan.py:77-78 | `split(sep, 1)` gives two parts exactly when the separator occurs, the parts rejoined around the separator give back the text, and the first part contains no start of an occurrence, so the cut is at the first one; otherwise the single part is the whole text |
| Strings.SplitOnceAt | yunduan.py:77 | given the first occurrence of the separator, the two parts are the text before it and the text after it |
| Strings.StripSpec | yunduan.py:79-80 | `strip()` removes only white space, from both ends only, and its result neither starts nor ends with white space |
| Strings.StripUnique | yunduan.py:79-80 | any cut of a text into leading white space, a middle without surrounding white space and trailing white space has `strip()` equal to that middle |
| Strings.StripPadded | yunduan.py:79-80 | white space around a stripped text is exactly what `strip()` removes |
| Strings.Split | yunduan.py:81 | splitting at a character class gives at least one piece, and no piece contains a separator |
| Strings.JoinSplit | yunduan.py:86 | rejoining the pieces with one of the separators gives the text with every separator replaced by that one, so nothing but separators is lost |
| Strings.SplitJoin | yunduan.py:81 | splitting text joined from separator-free pieces gives those pieces back, empty pieces included |
| Buttons.InteriorHasPlus | yunduan.py:90-92 | an item that passes the bracket-and-plus test always splits at `+` into two parts, so the `len(btn_info) == 2` test is redundant |
| Buttons.NoPlusBeforeFirst | yunduan.py:91 | the part before the first `+` contains no `+` |
| Buttons.ParseItemSpec | yunduan.py:89-93 | an item yields a button iff its stripped form starts with `[`, ends with `]` and contains `+`; the label has no `+`, and label and url carry no surrounding white space |
| Buttons.ParseItemFields | yunduan.py:91-93 | the label is the stripped text between `[` and the first `+`, and the url is the stripped text between that `+` and `]`, later `+` included |
| Buttons.SplitAtFirstPlus | yunduan.py:91 | splitting `label+url` at the first `+` gives back label and url when the label has no `+` |
| Buttons.ParseRenderItem | yunduan.py:89-93 | a button with a `+`-free label and no surrounding white space is recovered from `[label+url]` surrounded by any white space |
| Buttons.RenderParsedItem | yunduan.py:89-93 | every parsed button is recovered from its own canonical text, so parsing is a projection onto canonical items |
| ChannelPost.AcceptItems | yunduan.py:88-95 | the inner loop never adds more buttons to a row than the room left under the cap of nine |
| ChannelPost.AcceptItemsIsTake | yunduan.py:88-95 | the inner loop accepts exactly the first well-formed items of the line that still fit under the cap, in order |
| ChannelPost.AcceptSkipsNone | yunduan.py:88-95 | a rejected item in the middle of a line changes nothing the loop accepts |
| ChannelPost.MalformedItemSkipped | yunduan.py:88-95 | a malformed item neither stops the scan of its line nor changes what the rest of the line contributes |
| ChannelPost.ScanLines | yunduan.py:85-97 | the outer loop keeps the keyboard equal to the flat button list laid out row by row with no empty row, and adds at most the room left under the cap |
| ChannelPost.ParseLayout | yunduan.py:81-97 | the keyboard has no empty row, its rows laid end to end are exactly the accepted buttons, and there are at most nine of them |
| ChannelPost.NonEmptyRows | yunduan.py:96-97 | dropping empty rows leaves only non-empty rows and never more rows than before |
| ChannelPost.ScanLinesIsReference | yunduan.py:85-97 | from any state, the outer loop appends to the keyboard the non-empty capped rows of the remaining lines, and to the flat list their first buttons up to the room left |
| ChannelPost.ScanLinesIsScanRows | yunduan.py:85-97 | the handler's outer loop over text lines is the same as a loop over each line's candidate row, which keeps what fits under the cap |
| ChannelPost.ScanRowsIsReference | yunduan.py:92-97 | the row-level loop appends the non-empty capped rows to the keyboard and the first buttons up to the room left to the flat list |
| ChannelPost.ParseLayoutIsReference | yunduan.py:81-97 | the handler's nested loops compute exactly the reference layout: all well-formed items, first nine kept, empty rows dropped |
| ChannelPost.ReferenceBookkeeping | yunduan.py:94-97 | in the reference, the kept rows laid end to end are exactly the first buttons up to the cap, in line and item order |
| ChannelPost.CapRowsWithinRoom | yunduan.py:92 | when the rows hold no more buttons than the room, the cap cuts nothing |
| ChannelPost.UncappedLayout | yunduan.py:85-97 | with at most nine well-formed items, every one of them is accepted, in line and item order, and each line with one becomes a row |
| ChannelPost.CappedLayout | yunduan.py:92 | with nine or more well-formed items, exactly the first nine are accepted and the rest are dropped without error |
| ChannelPost.Compose | yunduan.py:99 | given the content and the layout of the button block, the post is reposted iff at least one button was accepted, as that content with the layout's keyboard; otherwise nothing is sent |
| ChannelPost.ComposeRepostIff | yunduan.py:99 | a block leads to a repost iff some line holds a well-formed item, and to no-buttons iff none does |
| ChannelPost.ParsePost | yunduan.py:76-80 | the handler applies iff the text contains `===`, and a repost carries between one and nine buttons in non-empty rows |
| ChannelPost.ParsePostAtFirstSentinel | yunduan.py:77-80 | content and button block are the stripped text before and after the first `===`, and the block may contain further `===` |
| ChannelPost.ParsePostRepostIff | yunduan.py:76-99 | a post is reposted iff it contains `===` and its button block holds a well-formed item |
| ChannelPost.HandleChannelPost | yunduan.py:75-76 | a post without text, or whose text has no `===`, is left alone, and a repost carries between one and nine buttons |
| CommaEquivalence.NormalizeSplitOnce | yunduan.py:77 | replacing full-width commas by ASCII ones commutes with the cut at the first `===` |
| CommaEquivalence.NormalizeStrip | yunduan.py:79-80 | replacing commas commutes with `strip()`, since neither comma is white space |
| CommaEquivalence.NormalizeLines | yunduan.py:81 | replacing commas in a block replaces them in each of its lines and splits at the same newlines |
| CommaEquivalence.NormalizeItems | yunduan.py:86 | a line gives the same items whichever kind of comma separates them |
| CommaEquivalence.NormalizeLayout | yunduan.py:86 | a button block gives the same layout whichever kind of comma is written at each place |
| CommaEquivalence.NormalizePost | yunduan.py:76-99 | a post and its comma-normalised form get the same outcome and keyboard, and only the reposted text has its commas normalised |
| CommaEquivalence.CommaVariantsAgree | yunduan.py:86 | two posts that differ only in the kind of comma get the same outcome and the same keyboard |
| PostRender.RowRoundTrip | yunduan.py:86-95 | a rendered non-empty row of expressible buttons is read back as the same row |
| PostRender.KeyboardRoundTrip | yunduan.py:81-97 | a rendered expressible keyboard is parsed back as exactly that keyboard with the same flat button list |
| PostRender.PostRoundTrip | yunduan.py:76-99 | a post rendered from a stripped text without `===` and an expressible keyboard is reposted with exactly that text and keyboard |
| PostRender.ParseItemExpressible | yunduan.py:89-93 | a button parsed from an item without commas or newlines has a plain label without `+` and a plain url |
| PostRender.LayoutExpressible | yunduan.py:81-97 | every button of every parsed keyboard is expressible |
| PostRender.BeforeFirstSentinel | yunduan.py:77-79 | the stripped content before the first `===` never contains `===` |
| PostRender.RepostExpressible | yunduan.py:77-97 | what a repost carries is always an expressible text and an expressible keyboard |
| PostRender.RenderRepost | yunduan.py:76-99 | rendering a repost and handling it again gives the same repost |
| WorkedExamples.FullWidthBlock | yunduan.py:86 | a rendered block with one comma written full-width still gives the rendered keyboard |
| WorkedExamples.HelpTextExample | yunduan.py:46-49 | the help text's sample post, with a full-width comma, is reposted as its first line with the rows [百度, 谷歌] and [推特] |
| WorkedExamples.InlineMarker | yunduan.py:76-80 | the marker need not stand on its own line: when the text before it holds no `===` and does not end in `=`, and both parts are stripped, they are exactly the content and the block |
| WorkedExamples.ShiftedMarker | yunduan.py:77-80 | a text ending in `=` moves the cut one place left: that `=` starts the marker and the last `=` of `====` becomes the first character of the block |
| WorkedExamples.ShiftedMarkerDropsButton | yunduan.py:77-99 | so a post `a====[X+http://x.com]` keeps no button: its block `=[X+http://x.com]` is not an item, and nothing is reposted |
| WorkedExamples.PromoExample | yunduan.py:76-99 | the one-line post `Promo===[X+http://x.com]` is reposted as `Promo` with one one-button row |

## Left out

- The Telegram calls are not modelled: deleting the post, sending the new message and building `InlineKeyboardButton` / `InlineKeyboardMarkup` (yunduan.py lines 93, 100-102). They are foreign library calls; a button is the plain pair `Button(text, url)`, and `Repost` names the effect.
- The Flask keep-alive server and its thread (yunduan.py lines 19-27, 113): I/O and concurrency.
- Logging, timestamps and the message link built for the log (yunduan.py lines 12-17, 70-71, 104-109): side effects that depend on the clock.
- The other handlers, `start`, `handle_private_message` and `handle_new_chat_member` (yunduan.py lines 54-71): each only replies with a fixed text or logs.
- Handler registration, polling and reading the token from the environment (yunduan.py lines 30, 111-139): process set-up.
- The interactive variant of the bot (yunduan有交互模式.py) is not part of this model. Its conversation flow, validators, task store and scheduled dispatcher are not modelled.
- ChannelPost.ParseItems parses every item of a line before the accept loop runs. The handler parses an item only when it reaches it. Parsing is pure and does not depend on the count, so the result is the same; AcceptItems still checks the count item by item.
- Sending an empty text: a post that starts with `===` and holds a button is a `Repost` with empty content. The handler then sends an empty text (yunduan.py lines 101-102); whether Telegram accepts that message is outside this model.
- Python strings are sequences of code points; Dafny's `char` is a Unicode scalar value, so lone surrogates cannot be represented.
