/** The block translators of src/blocknode.py: `process_paragraph_block`,
    `process_heading_block`, `process_list_block`, `process_code_block`,
    `process_quote_block`, the nested-blockquote pair
    `process_nested_blockquotes` / `build_nested_blockquotes`, and the
    dispatcher `get_block_parent`. A translator that the source lets return
    None returns `Ok(None)` here; a raised exception is an `Err`. */
module BlockNode {
  import opened Wrappers
  import opened Strings
  import opened HtmlNode
  import opened TextNode
  import opened TextToNodes
  import opened NestedInline
  import BlockTypes

  // ---------------------------------------------------------------------
  // Paragraphs
  // ---------------------------------------------------------------------

  /** `process_paragraph_block(block)`: the stripped block with every
      whitespace run made one space, parsed into the children of a `p`. */
  function ParagraphBlock(block: string): (r: Result<HtmlNode>)
    ensures r.Ok? ==> r.value.Parent? && r.value.tag == "p" && r.value.props == None
  {
    var children :- ParseNested(Collapse(Strip(block)));
    NewParent(Some("p"), Somes(children), None)
  }

  /** Collapsing whitespace brings in no character other than a space. */
  lemma {:induction false} CollapseLacks(s: string, c: char)
    requires Lacks(s, c) && !IsSpace(c)
    ensures Lacks(Collapse(s), c)
    decreases |s|
  {
    if s != [] {
      if IsSpace(s[0]) {
        LacksSlice(s, c, LeadCount(s), |s|);
        CollapseLacks(LStrip(s), c);
      } else {
        LacksSlice(s, c, 1, |s|);
        CollapseLacks(s[1..], c);
      }
    }
  }

  /** The text a paragraph keeps: stripped and collapsed, without markup when
      the block has none, and not empty unless the block is blank. */
  lemma ParagraphText(block: string)
    requires NoMarkup(block) && !AllSpace(block)
    ensures var t := Collapse(Strip(block)); t != [] && NoMarkup(t)
  {
    var s := Strip(block);
    StripFacts(block);
    var a := LeadCount(block);
    assert s == block[a..a + |s|];
    LacksSlice(block, '[', a, a + |s|);
    LacksSlice(block, '*', a, a + |s|);
    LacksSlice(block, '_', a, a + |s|);
    LacksSlice(block, '`', a, a + |s|);
    CollapseLacks(s, '[');
    CollapseLacks(s, '*');
    CollapseLacks(s, '_');
    CollapseLacks(s, '`');
    CollapseLast(s);
  }

  /** A paragraph without markup is one `p` over one leaf holding its text
      with the whitespace runs collapsed. */
  lemma PlainParagraph(block: string)
    requires NoMarkup(block) && !AllSpace(block)
    ensures ParagraphBlock(block)
            == Ok(Parent("p", [Leaf(None, Some(Collapse(Strip(block))), None)], None))
  {
    var t := Collapse(Strip(block));
    ParagraphText(block);
    PlainNested(t);
    PresentSomes([Leaf(None, Some(t), None)]);
  }

  // ---------------------------------------------------------------------
  // Headings
  // ---------------------------------------------------------------------

  /** `min(heading_size(line), 6)` */
  function HeadingLevel(line: string): (n: nat)
    ensures n <= 6 && n <= |line|
    ensures n == 6 || n == BlockTypes.LeadHashes(line)
    ensures n == if BlockTypes.LeadHashes(line) < 6 then BlockTypes.LeadHashes(line) else 6
  {
    var h := BlockTypes.LeadHashes(line);
    if h < 6 then h else 6
  }

  /** The heading translation of one line: `h<level>` over the rest of the
      line after `level` characters, stripped. A line without `#` gives
      `h0` over the whole stripped line. */
  function HeadingLine(line: string): (r: Result<HtmlNode>)
    ensures r.Ok? ==> r.value.Parent? && r.value.props == None
                      && r.value.tag == "h" + NatToString(HeadingLevel(line))
  {
    var level := HeadingLevel(line);
    var children :- ParseNested(Strip(line[level..]));
    NewParent(Some("h" + NatToString(level)), Somes(children), None)
  }

  /** A heading line that does not start with `#` is tagged `h0`. */
  lemma NoHashHeading(line: string)
    requires line == [] || line[0] != '#'
    ensures HeadingLine(line).Ok? ==> HeadingLine(line).value.tag == "h0"
  {
    assert NatToString(0) == "0";
  }

  /** `process_heading_block(block)`: only the first line is translated. */
  function HeadingBlock(block: string): (r: Result<HtmlNode>)
    ensures r == HeadingLine(Lines(block)[0])
    ensures r.Ok? ==> r.value.Parent? && StartsWith(r.value.tag, "h")
  {
    HeadingLine(Lines(block)[0])
  }

  function Hashes(k: nat): (s: string)
    ensures |s| == k && forall i :: 0 <= i < k ==> s[i] == '#'
  {
    seq(k, _ => '#')
  }

  /** One space in front of stripped text is stripped away. */
  lemma StripSpaced(w: string)
    requires w != [] && !IsSpace(w[0]) && !IsSpace(w[|w| - 1])
    ensures Strip(" " + w) == w
  {
    var s := " " + w;
    assert s[1..] == w;
    assert LeadCount(w) == 0;
    assert LeadCount(s) == 1;
    assert LStrip(s) == w;
    StripOfStripped(w);
  }

  /** `k` hashes, a space and plain text make `h<k>` over the text's leaf. */
  lemma PlainHeading(k: nat, w: string)
    requires 1 <= k <= 6
    requires w != [] && !IsSpace(w[0]) && !IsSpace(w[|w| - 1]) && NoMarkup(w)
    ensures HeadingLine(Hashes(k) + " " + w)
            == Ok(Parent("h" + [DigitChar(k)], [Leaf(None, Some(w), None)], None))
  {
    var line := Hashes(k) + " " + w;
    assert line[k] == ' ';
    BlockTypes.LeadHashesIs(line, k);
    assert line[k..] == " " + w;
    StripSpaced(w);
    PlainNested(w);
    PresentSomes([Leaf(None, Some(w), None)]);
  }

  // ---------------------------------------------------------------------
  // Lists
  // ---------------------------------------------------------------------

  /** The first index at or after `i` that is not an ASCII digit. */
  function DigitEnd(s: string, i: nat): (j: nat)
    requires i <= |s|
    ensures i <= j <= |s| && (j == |s| || !IsDigit(s[j]))
    ensures forall k :: i <= k < j ==> IsDigit(s[k])
    decreases |s| - i
  {
    if i < |s| && IsDigit(s[i]) then DigitEnd(s, i + 1) else i
  }

  /** The item pattern of a stripped line, `^\d+\.\s*(.*)` for an ordered
      list and `^[-\*]\s*(.*)` for an unordered one: the captured rest, or
      None when the line does not match. */
  function ItemContent(line: string, ordered: bool): (r: Option<string>)
    ensures r.Some? ==> |r.value| < |line| && EndsWith(line, r.value)
  {
    if ordered then
      var d := DigitEnd(line, 0);
      if 0 < d < |line| && line[d] == '.' then Some(line[BlockTypes.SpaceEnd(line, d + 1)..]) else None
    else if line != [] && BlockTypes.IsMarker(line[0]) then Some(line[BlockTypes.SpaceEnd(line, 1)..])
    else None
  }

  /** `n. c` is an ordered item holding `c`. */
  lemma OrderedItem(n: nat, c: string)
    requires c == [] || !IsSpace(c[0])
    ensures ItemContent(NatToString(n) + ". " + c, true) == Some(c)
  {
    var p := NatToString(n);
    var line := p + ". " + c;
    NatToStringDigits(n);
    assert DigitEnd(line, 0) == |p| by {
      DigitEndIs(line, 0, |p|);
    }
    assert line[|p|] == '.' && line[|p| + 1] == ' ';
    assert BlockTypes.SpaceEnd(line, |p| + 1) == |p| + 2;
    assert line[|p| + 2..] == c;
  }

  /** The digit run from `i` ends at `j`. */
  lemma {:induction false} DigitEndIs(s: string, i: nat, j: nat)
    requires i <= j <= |s|
    requires forall k :: i <= k < j ==> IsDigit(s[k])
    requires j == |s| || !IsDigit(s[j])
    ensures DigitEnd(s, i) == j
    decreases j - i
  {
    if i < j {
      DigitEndIs(s, i + 1, j);
    }
  }

  /** `- c` (or `* c`) is an unordered item holding `c`. */
  lemma UnorderedItem(m: char, c: string)
    requires BlockTypes.IsMarker(m) && (c == [] || !IsSpace(c[0]))
    ensures ItemContent([m] + " " + c, false) == Some(c)
  {
    var line := [m] + " " + c;
    assert BlockTypes.SpaceEnd(line, 1) == 2;
    assert line[2..] == c;
  }

  /** The line makes an item of the list. */
  predicate ItemOf(line: string, ordered: bool) {
    Strip(line) != [] && ItemContent(Strip(line), ordered).Some?
  }

  predicate IsItem(n: HtmlNode) {
    n.Parent? && n.tag == "li" && n.props == None
  }

  /** The text an item's `li` is parsed from: the stripped line with its
      marker and the spaces after it removed, stripped again. */
  function ItemText(line: string, ordered: bool): (t: string)
    requires ItemOf(line, ordered)
    ensures |t| < |Strip(line)|
  {
    var c := ItemContent(Strip(line), ordered).value;
    StripFacts(c);
    Strip(c)
  }

  /** The item text parses into at least one node, so the `li` exists. */
  predicate ItemBuilds(line: string, ordered: bool)
    requires ItemOf(line, ordered)
  {
    var p := ParseNested(ItemText(line, ordered));
    p.Ok? && p.value != []
  }

  /** `n` is the `li` of the item line: over the parse of its item text. */
  predicate ItemFor(n: HtmlNode, line: string, ordered: bool)
    requires ItemOf(line, ordered)
  {
    var p := ParseNested(ItemText(line, ordered));
    IsItem(n) && p.Ok? && n.children == p.value
  }

  /** One line of a list block: skipped when blank or not an item, else an
      `li` over the item's stripped content. */
  function ListItem(line: string, ordered: bool): (r: Result<seq<HtmlNode>>)
    ensures r.Ok? <==> (ItemOf(line, ordered) ==> ItemBuilds(line, ordered))
    ensures r.Ok? ==> |r.value| == (if ItemOf(line, ordered) then 1 else 0)
    ensures r.Ok? ==> forall k :: 0 <= k < |r.value| ==> IsItem(r.value[k])
    ensures r.Ok? && ItemOf(line, ordered) ==> ItemFor(r.value[0], line, ordered)
  {
    var l := Strip(line);
    if l == [] then Ok([])
    else match ItemContent(l, ordered)
      case None => Ok([])
      case Some(c) =>
        var children :- ParseNested(Strip(c));
        PresentSomes(children);
        var li :- NewParent(Some("li"), Somes(children), None);
        Ok([li])
  }

  /** `- w` (or `* w`) with plain w is an `li` over w's leaf: the marker
      and the space after it are gone. */
  lemma PlainItem(m: char, w: string)
    requires BlockTypes.IsMarker(m)
    requires w != [] && !IsSpace(w[0]) && !IsSpace(w[|w| - 1]) && NoMarkup(w)
    ensures ListItem([m] + " " + w, false) == Ok([Parent("li", [Leaf(None, Some(w), None)], None)])
  {
    var line := [m] + " " + w;
    assert !IsSpace(line[0]) && line[|line| - 1] == w[|w| - 1];
    StripOfStripped(line);
    UnorderedItem(m, w);
    StripOfStripped(w);
    PlainNested(w);
    PresentSomes([Leaf(None, Some(w), None)]);
  }

  /** The number of lines that make items: an independent count. */
  function ItemCount(lines: seq<string>, ordered: bool): nat
    decreases |lines|
  {
    if lines == [] then 0
    else (if ItemOf(lines[0], ordered) then 1 else 0) + ItemCount(lines[1..], ordered)
  }

  lemma {:induction false} ItemCountSnoc(lines: seq<string>, x: string, ordered: bool)
    ensures ItemCount(lines + [x], ordered) == ItemCount(lines, ordered) + (if ItemOf(x, ordered) then 1 else 0)
    decreases |lines|
  {
    if lines != [] {
      assert (lines + [x])[1..] == lines[1..] + [x];
      ItemCountSnoc(lines[1..], x, ordered);
    }
  }

  /** The items of the lines, in order. */
  function ListItems(lines: seq<string>, ordered: bool): Result<seq<HtmlNode>>
    decreases |lines|
  {
    if lines == [] then Ok([])
    else
      var items :- ListItems(lines[..|lines| - 1], ordered);
      var item :- ListItem(lines[|lines| - 1], ordered);
      Ok(items + item)
  }

  /** The lines that make items, in order. */
  function ItemLines(lines: seq<string>, ordered: bool): (r: seq<string>)
    ensures forall k :: 0 <= k < |r| ==> ItemOf(r[k], ordered)
    decreases |lines|
  {
    if lines == [] then []
    else
      var last := lines[|lines| - 1];
      ItemLines(lines[..|lines| - 1], ordered) + (if ItemOf(last, ordered) then [last] else [])
  }

  /** Every item line has its `li`. */
  predicate AllBuild(kept: seq<string>, ordered: bool) {
    forall k :: 0 <= k < |kept| ==> ItemOf(kept[k], ordered) && ItemBuilds(kept[k], ordered)
  }

  /** `items` are the `li`s of the item lines `kept`, one each, in order. */
  predicate ItemsFor(items: seq<HtmlNode>, kept: seq<string>, ordered: bool) {
    |items| == |kept|
    && forall k :: 0 <= k < |kept| ==> ItemOf(kept[k], ordered) && ItemFor(items[k], kept[k], ordered)
  }

  lemma AllBuildSnoc(kept: seq<string>, x: string, ordered: bool)
    requires ItemOf(x, ordered)
    ensures AllBuild(kept + [x], ordered) <==> AllBuild(kept, ordered) && ItemBuilds(x, ordered)
  {
    if AllBuild(kept + [x], ordered) {
      forall k | 0 <= k < |kept|
        ensures ItemOf(kept[k], ordered) && ItemBuilds(kept[k], ordered)
      {
        assert (kept + [x])[k] == kept[k];
      }
      assert (kept + [x])[|kept|] == x;
    }
  }

  lemma ItemsForSnoc(items: seq<HtmlNode>, kept: seq<string>, n: HtmlNode, x: string, ordered: bool)
    requires ItemsFor(items, kept, ordered) && ItemOf(x, ordered) && ItemFor(n, x, ordered)
    ensures ItemsFor(items + [n], kept + [x], ordered)
  {
    forall k | 0 <= k < |kept| + 1
      ensures ItemOf((kept + [x])[k], ordered) && ItemFor((items + [n])[k], (kept + [x])[k], ordered)
    {
      if k < |kept| {
        assert (kept + [x])[k] == kept[k] && (items + [n])[k] == items[k];
      } else {
        assert (kept + [x])[k] == x && (items + [n])[k] == n;
      }
    }
  }

  /** One `li` per item line, nothing else. */
  lemma {:induction false} ListItemsCount(lines: seq<string>, ordered: bool)
    ensures var r := ListItems(lines, ordered);
            r.Ok? ==> |r.value| == ItemCount(lines, ordered)
                      && forall k :: 0 <= k < |r.value| ==> IsItem(r.value[k])
    decreases |lines|
  {
    if lines != [] {
      var init := lines[..|lines| - 1];
      ListItemsCount(init, ordered);
      assert lines == init + [lines[|lines| - 1]];
      ItemCountSnoc(init, lines[|lines| - 1], ordered);
    }
  }

  /** The items succeed exactly when every item line has its `li`, and then
      item k is the `li` of the k-th item line. */
  predicate ItemsHold(lines: seq<string>, ordered: bool) {
    var r := ListItems(lines, ordered);
    && (r.Ok? <==> AllBuild(ItemLines(lines, ordered), ordered))
    && (r.Ok? ==> ItemsFor(r.value, ItemLines(lines, ordered), ordered))
  }

  /** A last line that is an item adds its `li`, or fails. */
  lemma ItemsHoldItem(lines: seq<string>, ordered: bool)
    requires lines != [] && ItemOf(lines[|lines| - 1], ordered)
    requires ItemsHold(lines[..|lines| - 1], ordered)
    ensures ItemsHold(lines, ordered)
  {
    var init, x := lines[..|lines| - 1], lines[|lines| - 1];
    var keptInit := ItemLines(init, ordered);
    var rInit := ListItems(init, ordered);
    var rx := ListItem(x, ordered);
    assert ItemLines(lines, ordered) == keptInit + [x];
    AllBuildSnoc(keptInit, x, ordered);
    if rInit.Ok? && rx.Ok? {
      assert rx.value == [rx.value[0]];
      ItemsForSnoc(rInit.value, keptInit, rx.value[0], x, ordered);
    }
  }

  /** A last line that is no item adds nothing. */
  lemma ItemsHoldSkip(lines: seq<string>, ordered: bool)
    requires lines != [] && !ItemOf(lines[|lines| - 1], ordered)
    requires ItemsHold(lines[..|lines| - 1], ordered)
    ensures ItemsHold(lines, ordered)
  {
    var init, x := lines[..|lines| - 1], lines[|lines| - 1];
    var keptInit := ItemLines(init, ordered);
    var rInit := ListItems(init, ordered);
    assert ItemLines(lines, ordered) == keptInit + [] == keptInit;
    assert ListItem(x, ordered) == Ok([]);
    if rInit.Ok? {
      assert rInit.value + [] == rInit.value;
    }
  }

  lemma {:induction false} ListItemsContents(lines: seq<string>, ordered: bool)
    ensures ItemsHold(lines, ordered)
    decreases |lines|
  {
    if lines == [] {
      assert ItemsFor([], [], ordered);
    } else {
      ListItemsContents(lines[..|lines| - 1], ordered);
      if ItemOf(lines[|lines| - 1], ordered) {
        ItemsHoldItem(lines, ordered);
      } else {
        ItemsHoldSkip(lines, ordered);
      }
    }
  }

  /** The items of a list block: one `li` per item line, in order, each
      over the parse of its item text, failing exactly when some item line
      has no `li`. */
  lemma ListItemsSpec(lines: seq<string>, ordered: bool)
    ensures var r := ListItems(lines, ordered);
            && (r.Ok? <==> AllBuild(ItemLines(lines, ordered), ordered))
            && (r.Ok? ==> |r.value| == ItemCount(lines, ordered)
                          && (forall k :: 0 <= k < |r.value| ==> IsItem(r.value[k]))
                          && ItemsFor(r.value, ItemLines(lines, ordered), ordered))
  {
    ListItemsCount(lines, ordered);
    ListItemsContents(lines, ordered);
  }

  /** A failure on a prefix of the lines is the failure of all of them. */
  lemma {:induction false} ListItemsPrefixErr(lines: seq<string>, k: nat, ordered: bool)
    requires k <= |lines| && ListItems(lines[..k], ordered).Err?
    ensures ListItems(lines, ordered) == ListItems(lines[..k], ordered)
    decreases |lines|
  {
    if k < |lines| {
      var init := lines[..|lines| - 1];
      assert init[..k] == lines[..k];
      ListItemsPrefixErr(init, k, ordered);
    } else {
      assert lines[..k] == lines;
    }
  }

  /** `process_list_block(block, is_ordered)`: an `ol` or `ul` over the
      items, or None when no line is an item. */
  function ListBlock(block: string, ordered: bool): (r: Result<Option<HtmlNode>>)
    ensures r.Ok? ==> (r.value.None? <==> ItemCount(Lines(block), ordered) == 0)
    ensures r.Ok? && r.value.Some? ==>
              var n := r.value.value;
              n.Parent? && n.tag == (if ordered then "ol" else "ul") && n.props == None
              && |n.children| == ItemCount(Lines(block), ordered)
              && (forall k :: 0 <= k < |n.children| ==> IsItem(n.children[k]))
              && ItemsFor(n.children, ItemLines(Lines(block), ordered), ordered)
    ensures r.Ok? <==> AllBuild(ItemLines(Lines(block), ordered), ordered)
  {
    ListItemsSpec(Lines(block), ordered);
    var items :- ListItems(Lines(block), ordered);
    if items == [] then Ok(None)
    else
      PresentSomes(items);
      Ok(Some(NewParent(Some(if ordered then "ol" else "ul"), Somes(items), None).value))
  }

  /** The items of one more line. */
  lemma ListItemsStep(lines: seq<string>, k: nat, ordered: bool)
    requires k < |lines|
    ensures ListItems(lines[..k + 1], ordered)
            == (match ListItems(lines[..k], ordered)
                case Err(e) => Err(e)
                case Ok(items) =>
                  match ListItem(lines[k], ordered)
                  case Err(e) => Err(e)
                  case Ok(item) => Ok(items + item))
  {
    assert lines[..k + 1][..k] == lines[..k];
  }

  /** `process_list_block` as the source runs it, one line at a time. */
  method ProcessListBlock(block: string, ordered: bool) returns (r: Result<Option<HtmlNode>>)
    ensures r == ListBlock(block, ordered)
  {
    var lines := Lines(block);
    var items: seq<HtmlNode> := [];
    for k := 0 to |lines|
      invariant ListItems(lines[..k], ordered) == Ok(items)
    {
      var item := ListItem(lines[k], ordered);
      if item.Err? {
        ListItemsStep(lines, k, ordered);
        ListItemsPrefixErr(lines, k + 1, ordered);
        return Err(item.error);
      }
      ListItemsStep(lines, k, ordered);
      items := items + item.value;
    }
    assert lines[..|lines|] == lines;
    if items == [] {
      return Ok(None);
    }
    PresentSomes(items);
    var list := NewParent(Some(if ordered then "ol" else "ul"), Somes(items), None);
    return Ok(Some(list.value));
  }

  // ---------------------------------------------------------------------
  // Code
  // ---------------------------------------------------------------------

  /** `re.sub(r"^.*?\n", "", s, count=1)`: everything up to and including
      the first newline is dropped; a text without one is kept. */
  function DropFirstLine(s: string): (r: string)
    ensures EndsWith(s, r)
    ensures !Contains(s, "\n") ==> r == s
  {
    var i := Find(s, "\n", 0);
    FindOccurs(s, "\n", 0);
    if i == -1 then s else s[i + 1..]
  }

  /** The text a code block keeps: stripped, without the fence in front and
      the fence at the back, and without the rest of the first line. */
  function CodeText(block: string): string {
    var c0 := Strip(block);
    var c1 := if StartsWith(c0, "```") then c0[3..] else c0;
    var c2 := if EndsWith(c1, "```") then c1[..|c1| - 3] else c1;
    DropFirstLine(c2)
  }

  /** `process_code_block(block)`: never fails; a `pre` over a `code` over
      one untagged leaf that keeps the code text as it is. */
  function CodeBlock(block: string): (r: Result<HtmlNode>)
    ensures r == Ok(Parent("pre", [Parent("code", [Leaf(None, Some(CodeText(block)), None)], None)], None))
  {
    CodeNode(CodeText(block))
  }

  /** The nodes `process_code_block` builds around the code text `t`. */
  function CodeNode(t: string): (r: Result<HtmlNode>)
    ensures r == Ok(Parent("pre", [Parent("code", [Leaf(None, Some(t), None)], None)], None))
  {
    var leaf := TextNodeToHtmlNode(Span(t, Text)).value;
    PresentOne(leaf);
    var code := NewParent(Some("code"), [Some(leaf)], None).value;
    PresentOne(code);
    NewParent(Some("pre"), [Some(code)], None)
  }

  lemma PresentOne(n: HtmlNode)
    ensures Present([Some(n)]) == [n]
  {
    PresentSnoc([], Some(n));
    assert [] + [Some(n)] == [Some(n)];
  }

  /** A fenced block with an info string on its first line keeps exactly
      the lines between the fences. */
  lemma FencedCode(info: string, body: string)
    requires HasNoNewline(info)
    ensures CodeText("```" + info + "\n" + body + "```") == body
  {
    var block := "```" + info + "\n" + body + "```";
    var c1 := info + "\n" + body + "```";
    var c2 := info + "\n" + body;
    assert Strip(block) == block by {
      StripOfStripped(block);
    }
    assert StartsWith(block, "```") && block[3..] == c1 by {
      assert block[..3] == "```";
    }
    assert EndsWith(c1, "```") && c1[..|c1| - 3] == c2 by {
      assert c1[|c1| - 3..] == "```";
    }
    DropInfoLine(info, body);
  }

  /** The first line goes up to the first newline. */
  lemma DropInfoLine(info: string, body: string)
    requires HasNoNewline(info)
    ensures DropFirstLine(info + "\n" + body) == body
  {
    var c2 := info + "\n" + body;
    assert OccursAt(c2, "\n", |info|);
    forall j | 0 <= j < |info|
      ensures !OccursAt(c2, "\n", j)
    {
      assert c2[j] == info[j];
    }
    FindIs(c2, "\n", 0, |info|);
    assert c2[|info| + 1..] == body;
  }


  // ---------------------------------------------------------------------
  // Block quotes
  // ---------------------------------------------------------------------

  /** One line of a flat quote: stripped, without one leading `>`, stripped
      again. */
  function QuoteLine(line: string): (r: string)
    ensures r == [] || (!IsSpace(r[0]) && !IsSpace(r[|r| - 1]))
  {
    var l := Strip(line);
    StripFacts(if StartsWith(l, ">") then l[1..] else l);
    if StartsWith(l, ">") then Strip(l[1..]) else Strip(l)
  }

  function QuoteLines(lines: seq<string>): (r: seq<string>)
    ensures |r| == |lines| && forall i :: 0 <= i < |lines| ==> r[i] == QuoteLine(lines[i])
  {
    seq(|lines|, i requires 0 <= i < |lines| => QuoteLine(lines[i]))
  }

  /** `line.startswith(f"{i}. ")` for some `i` from 1 to 9. */
  predicate NumberedLike(line: string) {
    |line| >= 3 && '1' <= line[0] <= '9' && line[1] == '.' && line[2] == ' '
  }

  /** The check on the first character is the source's `any` over the nine
      prefixes. */
  lemma NumberedLikeIff(line: string)
    ensures NumberedLike(line) <==> exists i: nat :: 1 <= i <= 9 && StartsWith(line, NatToString(i) + ". ")
  {
    if NumberedLike(line) {
      var i: nat := line[0] as int - '0' as int;
      assert NatToString(i) + ". " == [line[0], '.', ' '];
      assert StartsWith(line, NatToString(i) + ". ");
    }
    forall i: nat | 1 <= i <= 9 && StartsWith(line, NatToString(i) + ". ")
      ensures NumberedLike(line)
    {
      assert NatToString(i) + ". " == [DigitChar(i), '.', ' '];
      assert line[..3] == [DigitChar(i), '.', ' '];
    }
  }

  /** A content line that looks like a list item. */
  predicate ListLike(line: string) {
    StartsWith(line, "- ") || NumberedLike(line)
  }

  predicate AnyListLike(lines: seq<string>) {
    exists i :: 0 <= i < |lines| && ListLike(lines[i])
  }

  predicate AnyDashed(lines: seq<string>) {
    exists i :: 0 <= i < |lines| && StartsWith(lines[i], "- ")
  }

  /** The children a quote level makes of its content lines: one list,
      unordered when any line starts with `- ` and ordered otherwise, when
      any line looks like an item; else the lines joined by spaces and
      parsed. */
  function QuoteChildren(contents: seq<string>): (r: Result<seq<Option<HtmlNode>>>)
    ensures r.Ok? && AnyListLike(contents) ==> |r.value| == 1
    ensures r.Ok? && AnyListLike(contents) && r.value[0].Some? ==>
              r.value[0].value.Parent?
              && r.value[0].value.tag == (if AnyDashed(contents) then "ul" else "ol")
    ensures r.Ok? && !AnyListLike(contents) ==> forall k :: 0 <= k < |r.value| ==> r.value[k].Some?
  {
    if AnyListLike(contents) then
      var list :- ListBlock(Join(contents, "\n"), !AnyDashed(contents));
      Ok([list])
    else
      var children :- ParseNested(Join(contents, " "));
      Ok(Somes(children))
  }

  /** `process_quote_block(block)`: a stripped block holding `> >` or a
      newline followed by `>` is a nested quote; any other is one
      `blockquote` over its lines without their markers. */
  function QuoteBlock(block: string): (r: Result<Option<HtmlNode>>)
    ensures r.Ok? && r.value.Some? ==> r.value.value.Parent? && r.value.value.tag == "blockquote"
  {
    var b := Strip(block);
    if Contains(b, "> >") || Contains(b, "\n>") then NestedQuotes(b)
    else
      var children :- QuoteChildren(QuoteLines(Lines(b)));
      var quote :- NewParent(Some("blockquote"), children, None);
      Ok(Some(quote))
  }

  /** The loop collecting each line's content without its marker. */
  method ContentLines(lines: seq<string>) returns (contentLines: seq<string>)
    ensures contentLines == QuoteLines(lines)
  {
    contentLines := [];
    for k := 0 to |lines|
      invariant contentLines == QuoteLines(lines[..k])
    {
      assert lines[..k + 1] == lines[..k] + [lines[k]];
      contentLines := contentLines + [QuoteLine(lines[k])];
    }
    assert lines[..|lines|] == lines;
  }

  /** The `is_list` loop, which stops at the first item-like line. */
  method IsList(lines: seq<string>) returns (isList: bool)
    ensures isList == AnyListLike(lines)
  {
    isList := false;
    for k := 0 to |lines|
      invariant forall j :: 0 <= j < k ==> !ListLike(lines[j])
    {
      if ListLike(lines[k]) {
        isList := true;
        break;
      }
    }
  }

  /** The children of a quote's contents, built with the list and inline
      parsers' loops. */
  method ContentChildren(contents: seq<string>) returns (r: Result<seq<Option<HtmlNode>>>)
    ensures r == QuoteChildren(contents)
  {
    var isList := IsList(contents);
    if isList {
      var list := ProcessListBlock(Join(contents, "\n"), !AnyDashed(contents));
      if list.Err? {
        return Err(list.error);
      }
      return Ok([list.value]);
    }
    var children := ParseNestedElements(Join(contents, " "));
    if children.Err? {
      return Err(children.error);
    }
    return Ok(Somes(children.value));
  }

  /** `process_quote_block(block)` with its loops. */
  method ProcessQuoteBlock(block: string) returns (r: Result<Option<HtmlNode>>)
    ensures r == QuoteBlock(block)
  {
    var b := Strip(block);
    if Contains(b, "> >") || Contains(b, "\n>") {
      r := ProcessNestedBlockquotes(b);
      return;
    }
    var contentLines := ContentLines(Lines(b));
    var children := ContentChildren(contentLines);
    if children.Err? {
      return Err(children.error);
    }
    var quote := NewParent(Some("blockquote"), children.value, None);
    if quote.Err? {
      return Err(quote.error);
    }
    return Ok(Some(quote.value));
  }

  /** A one-line quote of plain text is a `blockquote` over the text. */
  lemma PlainQuote(w: string)
    requires w != [] && !IsSpace(w[0]) && !IsSpace(w[|w| - 1]) && NoMarkup(w)
    requires HasNoNewline(w) && Lacks(w, '>') && !StartsWith(w, "- ") && !NumberedLike(w)
    ensures QuoteBlock("> " + w) == Ok(Some(Parent("blockquote", [Leaf(None, Some(w), None)], None)))
  {
    QuoteText(w);
    PlainQuoteChildren(w);
    PresentSomes([Leaf(None, Some(w), None)]);
  }

  /** The content line of a plain quote is one text node. */
  lemma PlainQuoteChildren(w: string)
    requires w != [] && NoMarkup(w) && !StartsWith(w, "- ") && !NumberedLike(w)
    ensures QuoteChildren([w]) == Ok([Some(Leaf(None, Some(w), None))])
  {
    var leaf := Leaf(None, Some(w), None);
    assert !AnyListLike([w]) by {
      assert !ListLike([w][0]);
    }
    assert Join([w], " ") == w;
    PlainNested(w);
    assert Somes([leaf]) == [Some(leaf)];
  }

  /** The flat path of `process_quote_block` on `> w`: one content line,
      `w`. */
  lemma QuoteText(w: string)
    requires w != [] && !IsSpace(w[0]) && !IsSpace(w[|w| - 1])
    requires HasNoNewline(w) && Lacks(w, '>')
    ensures var b := "> " + w;
            Strip(b) == b && !Contains(b, "> >") && !Contains(b, "\n>")
            && QuoteLines(Lines(b)) == [w]
  {
    var b := "> " + w;
    assert Strip(b) == b by {
      StripOfStripped(b);
    }
    NotContained(w);
    QuoteOneLine(w);
    QuoteLineOf(w);
  }

  lemma QuoteOneLine(w: string)
    requires HasNoNewline(w)
    ensures Lines("> " + w) == ["> " + w]
  {
    var b := "> " + w;
    assert forall i :: 2 <= i < |b| ==> b[i] == w[i - 2];
    SplitNoSep(b, '\n');
  }

  lemma QuoteLineOf(w: string)
    requires w != [] && !IsSpace(w[0]) && !IsSpace(w[|w| - 1])
    ensures QuoteLine("> " + w) == w
  {
    var b := "> " + w;
    StripOfStripped(b);
    assert StartsWith(b, ">");
    assert b[1..] == " " + w;
    StripSpaced(w);
  }

  /** `> ` followed by text without a newline or a `>` holds neither `> >`
      nor a newline followed by `>`. */
  lemma NotContained(w: string)
    requires HasNoNewline(w) && Lacks(w, '>')
    ensures !Contains("> " + w, "> >") && !Contains("> " + w, "\n>")
  {
    var b := "> " + w;
    forall j | 0 <= j
      ensures !OccursAt(b, "> >", j) && !OccursAt(b, "\n>", j)
    {
      if j + 3 <= |b| {
        assert b[j..j + 3][2] == b[j + 2] == w[j];
      }
      if j + 2 <= |b| {
        assert b[j..j + 2][0] == b[j];
        if j >= 2 {
          assert b[j] == w[j - 2];
        }
      }
    }
    FindIs(b, "> >", 0, -1);
    FindIs(b, "\n>", 0, -1);
  }

  // ---------------------------------------------------------------------
  // Nested block quotes
  // ---------------------------------------------------------------------

  /** The depth scan of a stripped line from `i`: every `>` adds one level
      and may be followed by one space. The result is the depth and the
      index where the content starts. */
  function DepthFrom(l: string, i: nat): (r: (nat, nat))
    requires i <= |l|
    ensures i <= r.1 <= |l|
    ensures r.0 <= r.1 - i <= 2 * r.0
    ensures r.1 == |l| || l[r.1] != '>'
    decreases |l| - i
  {
    if i < |l| && l[i] == '>' then
      var j := if i + 1 < |l| && l[i + 1] == ' ' then i + 2 else i + 1;
      var (level, e) := DepthFrom(l, j);
      (level + 1, e)
    else (0, i)
  }

  /** `"> "` repeated `k` times. */
  function Markers(k: nat): (m: string)
    ensures |m| == 2 * k
  {
    if k == 0 then [] else "> " + Markers(k - 1)
  }

  /** The scan of `> ` markers after any prefix: each marker is one level. */
  lemma {:induction false} DepthMarkersAfter(p: string, k: nat, w: string)
    requires w == [] || w[0] != '>'
    ensures DepthFrom(p + (Markers(k) + w), |p|) == (k, |p| + 2 * k)
    decreases k
  {
    var s := p + (Markers(k) + w);
    if k == 0 {
      assert Markers(0) + w == w;
      assert |p| == |s| || s[|p|] == w[0];
    } else {
      var q := p + "> ";
      var rest := Markers(k - 1) + w;
      assert Markers(k) == "> " + Markers(k - 1);
      assert s == q + rest;
      assert s[|p|] == '>' && s[|p| + 1] == ' ';
      DepthMarkersAfter(q, k - 1, w);
    }
  }

  /** Each `> ` marker is one level: `k` markers before content that does not
      start with `>` give depth `k`, and the content starts after them. */
  lemma DepthMarkers(k: nat, w: string)
    requires w == [] || w[0] != '>'
    ensures DepthFrom(Markers(k) + w, 0) == (k, 2 * k)
  {
    DepthMarkersAfter([], k, w);
    assert [] + (Markers(k) + w) == Markers(k) + w;
  }

  /** The depth scan of `process_nested_blockquotes` as the source runs it. */
  method QuoteDepth(line: string) returns (level: nat, i: nat)
    ensures (level, i) == DepthFrom(line, 0)
  {
    level := 0;
    i := 0;
    while i < |line| && line[i] == '>'
      invariant i <= |line|
      invariant DepthFrom(line, 0) == (level + DepthFrom(line, i).0, DepthFrom(line, i).1)
      decreases |line| - i
    {
      level := level + 1;
      i := i + 1;
      if i < |line| && line[i] == ' ' {
        i := i + 1;
      }
    }
  }

  /** The depth of a line, after stripping it. */
  function LineDepth(line: string): nat {
    DepthFrom(Strip(line), 0).0
  }

  /** The content of a line, after its markers, stripped. */
  function LineContent(line: string): string {
    var l := Strip(line);
    Strip(l[DepthFrom(l, 0).1..])
  }

  /** A run of consecutive lines of one depth. */
  datatype Run = Run(level: nat, contents: seq<string>)

  /** The state of the grouping loop: the finished runs, the level of the
      current run and its contents so far. */
  datatype Grouper = Grouper(runs: seq<Run>, level: nat, current: seq<string>)

  /** The current run, when it holds anything, closed onto the runs. */
  function FlushRuns(st: Grouper): seq<Run> {
    if st.current != [] then st.runs + [Run(st.level, st.current)] else st.runs
  }

  /** One line of the grouping loop: a blank line is skipped; a line of a
      different depth closes the current run (when it holds anything) and
      starts a new one. */
  function Group(st: Grouper, line: string): Grouper {
    var l := Strip(line);
    if l == [] then st
    else if LineDepth(line) != st.level then Grouper(FlushRuns(st), LineDepth(line), [LineContent(line)])
    else Grouper(st.runs, st.level, st.current + [LineContent(line)])
  }

  function GroupAll(st: Grouper, lines: seq<string>): Grouper
    decreases |lines|
  {
    if lines == [] then st else GroupAll(Group(st, lines[0]), lines[1..])
  }

  /** The runs `process_nested_blockquotes` hands to
      `build_nested_blockquotes`. */
  function Structure(block: string): seq<Run> {
    FlushRuns(GroupAll(Grouper([], 1, []), Lines(block)))
  }

  lemma GroupAllStep(st: Grouper, lines: seq<string>, k: nat)
    requires k < |lines|
    ensures GroupAll(st, lines[k..]) == GroupAll(Group(st, lines[k]), lines[k + 1..])
  {
    assert lines[k..][1..] == lines[k + 1..];
  }

  /** `process_nested_blockquotes(block)` as the source runs it: the lines
      are grouped into runs, and the runs built into quotes. */
  method ProcessNestedBlockquotes(block: string) returns (r: Result<Option<HtmlNode>>)
    ensures r == NestedQuotes(block)
  {
    var lines := Lines(block);
    var structured: seq<Run> := [];
    var currentLevel: nat := 1;
    var currentContent: seq<string> := [];
    for k := 0 to |lines|
      invariant GroupAll(Grouper(structured, currentLevel, currentContent), lines[k..])
                == GroupAll(Grouper([], 1, []), lines)
    {
      GroupAllStep(Grouper(structured, currentLevel, currentContent), lines, k);
      structured, currentLevel, currentContent := GroupLine(structured, currentLevel, currentContent, lines[k]);
    }
    if currentContent != [] {
      structured := structured + [Run(currentLevel, currentContent)];
    }
    r := BuildNestedBlockquotes(structured);
  }

  /** One pass of the grouping loop of `process_nested_blockquotes`. */
  method GroupLine(structured: seq<Run>, currentLevel: nat, currentContent: seq<string>, text: string)
    returns (runs: seq<Run>, level: nat, current: seq<string>)
    ensures Grouper(runs, level, current) == Group(Grouper(structured, currentLevel, currentContent), text)
  {
    runs, level, current := structured, currentLevel, currentContent;
    var line := Strip(text);
    if line == [] {
      return;
    }
    var depth, i := QuoteDepth(line);
    var content := Strip(line[i..]);
    if depth != level {
      if current != [] {
        runs := runs + [Run(level, current)];
        current := [];
      }
      level := depth;
    }
    current := current + [content];
  }

  /** The contents of every run at `level`, in order. */
  function LevelContents(runs: seq<Run>, level: nat): seq<string>
    decreases |runs|
  {
    if runs == [] then []
    else LevelContents(runs[..|runs| - 1], level)
         + (if runs[|runs| - 1].level == level then runs[|runs| - 1].contents else [])
  }

  /** The loop extending `level_contents` with every run at `level`. */
  method CollectLevel(runs: seq<Run>, level: nat) returns (levelContents: seq<string>)
    ensures levelContents == LevelContents(runs, level)
  {
    levelContents := [];
    for k := 0 to |runs|
      invariant levelContents == LevelContents(runs[..k], level)
    {
      assert runs[..k + 1][..k] == runs[..k];
      if runs[k].level == level {
        levelContents := levelContents + runs[k].contents;
      }
    }
    assert runs[..|runs|] == runs;
  }

  /** The deepest level among the runs. */
  function MaxLevel(runs: seq<Run>): (m: nat)
    ensures forall k :: 0 <= k < |runs| ==> runs[k].level <= m
    ensures runs != [] ==> exists k :: 0 <= k < |runs| && runs[k].level == m
    decreases |runs|
  {
    if runs == [] then 0
    else
      var m := MaxLevel(runs[..|runs| - 1]);
      var last := runs[|runs| - 1].level;
      if m < last then last else m
  }

  /** The level loop of `build_nested_blockquotes` from `level` to `top`,
      for any way `build` of making the quote of one level from its
      contents and the quote one level deeper: the deepest level is built
      first, and the first failure stops the loop. */
  function Levels(runs: seq<Run>, level: nat, top: nat,
                  build: (seq<string>, Option<HtmlNode>) -> Result<Option<HtmlNode>>): (r: Result<Option<HtmlNode>>)
    ensures level > top ==> r == Ok(None)
    decreases top - level + 1
  {
    if level > top then Ok(None)
    else
      var deeper :- Levels(runs, level + 1, top, build);
      build(LevelContents(runs, level), deeper)
  }

  /** A failure at a deeper level is the result at every level above,
      whatever the levels are built with. */
  lemma {:induction false} LevelsErr(runs: seq<Run>, level: nat, deep: nat, top: nat,
                                     build: (seq<string>, Option<HtmlNode>) -> Result<Option<HtmlNode>>)
    requires level <= deep && Levels(runs, deep, top, build).Err?
    ensures Levels(runs, level, top, build) == Levels(runs, deep, top, build)
    decreases deep - level
  {
    if level < deep {
      LevelsErr(runs, level + 1, deep, top, build);
    }
  }

  /** The quote at `level` and below, built from the deepest level up to
      `top`: None for a level without contents, else a `blockquote` over
      the level's children and, last, the quote one level deeper. */
  function QuoteAt(runs: seq<Run>, level: nat, top: nat): (r: Result<Option<HtmlNode>>)
    ensures r.Ok? && r.value.Some? ==>
              r.value.value.Parent? && r.value.value.tag == "blockquote" && r.value.value.props == None
    ensures r.Ok? && r.value.Some? ==> level <= top && LevelContents(runs, level) != []
  {
    LevelsQuote(runs, level, top);
    Levels(runs, level, top, QuoteLevel)
  }

  /** Built with `QuoteLevel`, every level present is a `blockquote` over
      contents of its own. */
  lemma {:induction false} LevelsQuote(runs: seq<Run>, level: nat, top: nat)
    ensures var r := Levels(runs, level, top, QuoteLevel);
            r.Ok? && r.value.Some? ==>
              && r.value.value.Parent? && r.value.value.tag == "blockquote" && r.value.value.props == None
              && level <= top && LevelContents(runs, level) != []
    decreases top - level + 1
  {
    if level <= top {
      LevelsQuote(runs, level + 1, top);
    }
  }

  /** One level of quotes: nothing when the level has no contents, else a
      `blockquote` over the level's children followed by the deeper quote,
      which is its last child when present. */
  function QuoteLevel(contents: seq<string>, deeper: Option<HtmlNode>): (r: Result<Option<HtmlNode>>)
    ensures contents == [] ==> r == Ok(None)
    ensures r.Ok? && r.value.Some? ==>
              var q := r.value.value;
              q.Parent? && q.tag == "blockquote" && q.props == None && contents != []
              && (deeper.Some? ==> q.children != [] && q.children[|q.children| - 1] == deeper.value)
  {
    if contents == [] then Ok(None)
    else
      var children :- QuoteChildren(contents);
      PresentSnoc(children, deeper);
      var quote :- NewParent(Some("blockquote"), children + (if deeper.Some? then [deeper] else []), None);
      Ok(Some(quote))
  }

  /** `QuoteAt` one level up, once the deeper level is known. */
  lemma QuoteAtLevel(runs: seq<Run>, level: nat, top: nat, deeper: Option<HtmlNode>)
    requires level <= top && QuoteAt(runs, level + 1, top) == Ok(deeper)
    ensures QuoteAt(runs, level, top) == QuoteLevel(LevelContents(runs, level), deeper)
  {
  }

  /** `build_nested_blockquotes(structured_content)`: None for no runs; else
      the quote at level one, which must exist. */
  function BuildNested(runs: seq<Run>): (r: Result<Option<HtmlNode>>)
    ensures runs != [] && r.Ok? ==> r.value.Some?
    ensures r.Ok? && r.value.Some? ==> r.value.value.Parent? && r.value.value.tag == "blockquote"
  {
    if runs == [] then Ok(None)
    else
      var outer :- QuoteAt(runs, 1, MaxLevel(runs));
      if outer.None? then Err(MissingQuoteLevel) else Ok(outer)
  }

  /** `BuildNested` in terms of the outer level. */
  lemma BuildNestedOuter(runs: seq<Run>)
    requires runs != []
    ensures var outer := QuoteAt(runs, 1, MaxLevel(runs));
            BuildNested(runs) == match outer
              case Err(e) => Err(e)
              case Ok(None) => Err(MissingQuoteLevel)
              case Ok(q) => Ok(q)
  {
  }

  function NestedQuotes(block: string): (r: Result<Option<HtmlNode>>)
    ensures r.Ok? && r.value.Some? ==> r.value.value.Parent? && r.value.value.tag == "blockquote"
  {
    BuildNested(Structure(block))
  }

  function Lookup(m: map<nat, HtmlNode>, k: nat): Option<HtmlNode> {
    if k in m then Some(m[k]) else None
  }

  /** `build_nested_blockquotes` as the source runs it: a map from level to
      quote, filled from the deepest level outward. */
  method BuildNestedBlockquotes(runs: seq<Run>) returns (r: Result<Option<HtmlNode>>)
    ensures r == BuildNested(runs)
  {
    if runs == [] {
      return Ok(None);
    }
    var top := MaxLevel(runs);
    var blockquotes: map<nat, HtmlNode> := map[];
    var level := top;
    while level > 0
      invariant level <= top
      invariant forall l :: l in blockquotes ==> level < l
      invariant QuoteAt(runs, level + 1, top) == Ok(Lookup(blockquotes, level + 1))
      decreases level
    {
      var step := BuildLevel(runs, level, top, blockquotes);
      if step.Err? {
        LevelsErr(runs, 1, level, top, QuoteLevel);
        BuildNestedOuter(runs);
        return Err(step.error);
      }
      blockquotes := step.value;
      level := level - 1;
    }
    BuildNestedOuter(runs);
    if 1 in blockquotes {
      return Ok(Some(blockquotes[1]));
    }
    return Err(MissingQuoteLevel);
  }

  /** One pass of the level loop of `build_nested_blockquotes`: the quote of
      `level` is added to the map, or the level is skipped when it has no
      contents. */
  method BuildLevel(runs: seq<Run>, level: nat, top: nat, blockquotes: map<nat, HtmlNode>)
    returns (r: Result<map<nat, HtmlNode>>)
    requires 1 <= level <= top
    requires forall l :: l in blockquotes ==> level < l
    requires QuoteAt(runs, level + 1, top) == Ok(Lookup(blockquotes, level + 1))
    ensures r.Err? ==> QuoteAt(runs, level, top) == Err(r.error)
    ensures r.Ok? ==> (forall l :: l in r.value ==> level <= l)
                      && QuoteAt(runs, level, top) == Ok(Lookup(r.value, level))
  {
    var contents := CollectLevel(runs, level);
    QuoteAtLevel(runs, level, top, Lookup(blockquotes, level + 1));
    if contents == [] {
      assert level !in blockquotes;
      return Ok(blockquotes);
    }
    var children := ContentChildren(contents);
    if children.Err? {
      return Err(children.error);
    }
    var all := children.value;
    if level + 1 in blockquotes {
      all := all + [Some(blockquotes[level + 1])];
    }
    assert all == children.value + (if Lookup(blockquotes, level + 1).Some? then [Lookup(blockquotes, level + 1)] else []);
    var quote := NewParent(Some("blockquote"), all, None);
    if quote.Err? {
      return Err(quote.error);
    }
    return Ok(blockquotes[level := quote.value]);
  }

  /** The quote one level deeper is the last child of its parent quote. */
  lemma DeeperIsLast(runs: seq<Run>, level: nat, top: nat)
    requires QuoteAt(runs, level, top).Ok? && QuoteAt(runs, level, top).value.Some?
    requires QuoteAt(runs, level + 1, top).Ok? && QuoteAt(runs, level + 1, top).value.Some?
    ensures var q := QuoteAt(runs, level, top).value.value;
            var inner := QuoteAt(runs, level + 1, top).value.value;
            q.children != [] && q.children[|q.children| - 1] == inner
  {
    QuoteAtLevel(runs, level, top, QuoteAt(runs, level + 1, top).value);
  }

  /** Without any line at depth one there is no outer quote, which the
      source reports as a missing key. */
  lemma NoOuterLevel(runs: seq<Run>)
    requires runs != [] && LevelContents(runs, 1) == []
    ensures BuildNested(runs).Err?
  {
  }

  /** The runs without those at level 0, the lines not opened by any `>`. */
  function DropLevelZero(runs: seq<Run>): (r: seq<Run>)
    ensures forall k :: 0 <= k < |r| ==> r[k].level != 0
    decreases |runs|
  {
    if runs == [] then []
    else
      var last := runs[|runs| - 1];
      DropLevelZero(runs[..|runs| - 1]) + (if last.level == 0 then [] else [last])
  }

  lemma MaxLevelSnoc(runs: seq<Run>, x: Run)
    ensures MaxLevel(runs + [x]) == if MaxLevel(runs) < x.level then x.level else MaxLevel(runs)
  {
    assert (runs + [x])[..|runs|] == runs;
  }

  /** Dropping the level-0 runs keeps the contents of every level from 1 up. */
  lemma {:induction false} DropLevelZeroContents(runs: seq<Run>, level: nat)
    requires level >= 1
    ensures LevelContents(DropLevelZero(runs), level) == LevelContents(runs, level)
    decreases |runs|
  {
    if runs != [] {
      var init, last := runs[..|runs| - 1], runs[|runs| - 1];
      assert runs == init + [last];
      DropLevelZeroContents(init, level);
      LevelContentsSnoc(init, last, level);
      if last.level != 0 {
        LevelContentsSnoc(DropLevelZero(init), last, level);
      } else {
        assert LevelContents(runs, level) == LevelContents(init, level) + [] == LevelContents(init, level);
        assert DropLevelZero(runs) == DropLevelZero(init) + [] == DropLevelZero(init);
      }
    }
  }

  /** ... and the deepest level. */
  lemma {:induction false} DropLevelZeroMax(runs: seq<Run>)
    ensures MaxLevel(DropLevelZero(runs)) == MaxLevel(runs)
    decreases |runs|
  {
    if runs != [] {
      var init, last := runs[..|runs| - 1], runs[|runs| - 1];
      assert runs == init + [last];
      DropLevelZeroMax(init);
      MaxLevelSnoc(init, last);
      if last.level != 0 {
        MaxLevelSnoc(DropLevelZero(init), last);
      } else {
        assert DropLevelZero(runs) == DropLevelZero(init) + [] == DropLevelZero(init);
      }
    }
  }

  /** A run at level 1 or deeper survives the dropping. */
  lemma {:induction false} DropLevelZeroKeeps(runs: seq<Run>, k: nat)
    requires k < |runs| && runs[k].level >= 1
    ensures DropLevelZero(runs) != []
    decreases |runs|
  {
    var init, last := runs[..|runs| - 1], runs[|runs| - 1];
    if last.level == 0 {
      assert k < |init| && init[k] == runs[k];
      DropLevelZeroKeeps(init, k);
    }
  }

  /** The level loop from level 1 up never looks at the level-0 runs. */
  lemma {:induction false} DropLevelZeroLevels(runs: seq<Run>, level: nat, top: nat,
                                               build: (seq<string>, Option<HtmlNode>) -> Result<Option<HtmlNode>>)
    requires level >= 1
    ensures Levels(DropLevelZero(runs), level, top, build) == Levels(runs, level, top, build)
    decreases top - level + 1
  {
    if level <= top {
      DropLevelZeroLevels(runs, level + 1, top, build);
      DropLevelZeroContents(runs, level);
    }
  }

  /** Two non-empty run lists with the same outer quote build the same. */
  lemma BuildNestedSame(a: seq<Run>, b: seq<Run>)
    requires a != [] && b != []
    requires QuoteAt(a, 1, MaxLevel(a)) == QuoteAt(b, 1, MaxLevel(b))
    ensures BuildNested(a) == BuildNested(b)
  {
  }

  /** Lines at depth 0 never reach the built quotes: once some run is at
      level 1 or deeper, the runs without the level-0 ones build the same
      result, failure included. */
  lemma LevelZeroIgnored(runs: seq<Run>)
    requires exists k :: 0 <= k < |runs| && runs[k].level >= 1
    ensures BuildNested(DropLevelZero(runs)) == BuildNested(runs)
  {
    var k :| 0 <= k < |runs| && runs[k].level >= 1;
    var kept := DropLevelZero(runs);
    DropLevelZeroKeeps(runs, k);
    DropLevelZeroMax(runs);
    DropLevelZeroLevels(runs, 1, MaxLevel(runs), QuoteLevel);
    assert QuoteAt(kept, 1, MaxLevel(kept)) == QuoteAt(runs, 1, MaxLevel(runs));
    BuildNestedSame(kept, runs);
  }

  /** Runs of one depth are joined wherever they occur: the contents of a
      level are the contents of the block's lines of that depth, in order. */
  function DepthLines(lines: seq<string>, d: nat): seq<string>
    decreases |lines|
  {
    if lines == [] then []
    else (if Strip(lines[0]) != [] && LineDepth(lines[0]) == d then [LineContent(lines[0])] else [])
         + DepthLines(lines[1..], d)
  }

  lemma LevelContentsSnoc(runs: seq<Run>, x: Run, d: nat)
    ensures LevelContents(runs + [x], d) == LevelContents(runs, d) + (if x.level == d then x.contents else [])
  {
    assert (runs + [x])[..|runs|] == runs;
  }

  /** One line adds its content to its own level and nothing elsewhere. */
  lemma GroupContents(st: Grouper, line: string, d: nat)
    ensures LevelContents(FlushRuns(Group(st, line)), d)
            == LevelContents(FlushRuns(st), d)
               + (if Strip(line) != [] && LineDepth(line) == d then [LineContent(line)] else [])
  {
    if Strip(line) != [] {
      var c := LineContent(line);
      if LineDepth(line) != st.level {
        LevelContentsSnoc(FlushRuns(st), Run(LineDepth(line), [c]), d);
      } else {
        LevelContentsSnoc(st.runs, Run(st.level, st.current + [c]), d);
        if st.current != [] {
          LevelContentsSnoc(st.runs, Run(st.level, st.current), d);
        }
      }
    }
  }

  lemma {:induction false} GroupAllContents(st: Grouper, lines: seq<string>, d: nat)
    ensures LevelContents(FlushRuns(GroupAll(st, lines)), d)
            == LevelContents(FlushRuns(st), d) + DepthLines(lines, d)
    decreases |lines|
  {
    if lines != [] {
      GroupContents(st, lines[0], d);
      GroupAllContents(Group(st, lines[0]), lines[1..], d);
    }
  }

  /** The grouping loses and reorders no line: level `d` of the structure
      holds the contents of the lines of depth `d`, in order. */
  lemma StructureContents(block: string, d: nat)
    ensures LevelContents(Structure(block), d) == DepthLines(Lines(block), d)
  {
    GroupAllContents(Grouper([], 1, []), Lines(block), d);
  }

  // ---------------------------------------------------------------------
  // The dispatcher
  // ---------------------------------------------------------------------

  /** `get_block_parent(block, block_type)`: the translator of the block's
      type; the `EMPTY` type is refused. */
  function GetBlockParent(block: string, t: BlockTypes.BlockType): (r: Result<Option<HtmlNode>>)
    ensures t == BlockTypes.Empty ==> r == Err(UnsupportedBlockType)
    ensures r.Ok? && r.value.Some? ==>
              var n := r.value.value;
              n.Parent?
              && (t == BlockTypes.Paragraph ==> n.tag == "p")
              && (t == BlockTypes.Heading ==> StartsWith(n.tag, "h"))
              && (t == BlockTypes.Code ==> n.tag == "pre")
              && (t == BlockTypes.Quote ==> n.tag == "blockquote")
              && (t == BlockTypes.OrderedList ==> n.tag == "ol")
              && (t == BlockTypes.UnorderedList ==> n.tag == "ul")
    ensures t in {BlockTypes.Paragraph, BlockTypes.Heading, BlockTypes.Code} && r.Ok? ==> r.value.Some?
  {
    match t
    case Paragraph =>
      var p :- ParagraphBlock(block);
      Ok(Some(p))
    case Heading =>
      var h :- HeadingBlock(block);
      Ok(Some(h))
    case OrderedList => ListBlock(block, true)
    case UnorderedList => ListBlock(block, false)
    case Code =>
      Ok(Some(CodeBlock(block).value))
    case Quote => QuoteBlock(block)
    case Empty => Err(UnsupportedBlockType)
  }
}
