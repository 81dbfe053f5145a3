/** The document assembler of src/blocknode.py: `track_and_manage_blocks`,
    which walks the blocks, merges some pairs of short paragraphs and sends
    every other block to its translator, and `markdown_to_html_node`, which
    puts the result under one `div`. */
module Assembler {
  import opened Wrappers
  import opened Strings
  import opened HtmlNode
  import opened TextNode
  import opened TextToNodes
  import opened BlockMarkdown
  import opened BlockNode
  import BlockTypes

  // ---------------------------------------------------------------------
  // Paragraph merging
  // ---------------------------------------------------------------------

  /** A paragraph text that does not end like a sentence or a clause. */
  predicate IsFragment(t: string) {
    !EndsWith(t, ".") && !EndsWith(t, "!") && !EndsWith(t, "?") && !EndsWith(t, ":") && !EndsWith(t, ";")
  }

  /** The short-fragment rule: a fragment of at most five words, not ending
      in a comma, followed by a paragraph of at most two words. */
  predicate ShortFragments(current: string, next: string) {
    IsFragment(current) && !EndsWith(current, ",") && WordCount(current) <= 5 && WordCount(next) <= 2
  }

  /** The three merge rules for two consecutive paragraphs, on their
      stripped and collapsed texts. */
  predicate Merges(current: string, next: string) {
    EndsWith(current, " ") || ShortFragments(current, next) || Lower(next) == "newlines"
  }

  /** `re.sub(r"\s+", " ", block.strip())` */
  function Collapsed(block: string): string {
    Collapse(Strip(block))
  }

  /** The collapsed text of a block that is not blank never ends in a
      space: the first merge rule cannot fire. */
  lemma CollapsedEnd(block: string)
    requires !AllSpace(block)
    ensures !EndsWith(Collapsed(block), " ")
  {
    var s := Strip(block);
    StripFacts(block);
    CollapseLast(s);
    var c := Collapsed(block);
    assert c[|c| - 1..] == [c[|c| - 1]];
  }

  /** For a paragraph block only the short-fragment rule and the
      `newlines` rule decide a merge. */
  lemma MergesWhen(block: string, next: string)
    requires BlockTypes.Classify(block) == Some(BlockTypes.Paragraph)
    ensures Merges(Collapsed(block), next)
            <==> ShortFragments(Collapsed(block), next) || Lower(next) == "newlines"
  {
    BlockTypes.ClassifyNone(block);
    CollapsedEnd(block);
  }

  // ---------------------------------------------------------------------
  // Splitting paragraphs on blank-line runs
  // ---------------------------------------------------------------------

  /** The first index at or after `j` that is not a newline. */
  function NewlineEnd(s: string, j: nat): (k: nat)
    requires j <= |s|
    ensures j <= k <= |s| && (k == |s| || s[k] != '\n')
    decreases |s| - j
  {
    if j < |s| && s[j] == '\n' then NewlineEnd(s, j + 1) else j
  }

  /** `re.split(r"\n{2,}", s)`: the text between the leftmost-longest runs
      of two or more newlines. */
  function SplitRuns(s: string): (r: seq<string>)
    ensures |r| >= 1
    decreases |s|
  {
    var i := Find(s, "\n\n", 0);
    FindOccurs(s, "\n\n", 0);
    if i == -1 then [s]
    else [s[..i]] + SplitRuns(s[NewlineEnd(s, i + 2)..])
  }

  /** No piece of the split holds a blank-line run, and a text without one
      is its own only piece. */
  lemma {:induction false} SplitRunsPieces(s: string)
    ensures forall k :: 0 <= k < |SplitRuns(s)| ==> !Contains(SplitRuns(s)[k], "\n\n")
    ensures !Contains(s, "\n\n") ==> SplitRuns(s) == [s]
    decreases |s|
  {
    var i := Find(s, "\n\n", 0);
    if i != -1 {
      FindSpec(s, "\n\n", 0);
      FindOccurs(s, "\n\n", 0);
      var e := NewlineEnd(s, i + 2);
      SplitRunsPieces(s[e..]);
      PrefixBeforeFirst(s, i);
    }
  }

  /** The text before the first occurrence holds none. */
  lemma PrefixBeforeFirst(s: string, i: nat)
    requires i <= |s|
    requires forall j :: 0 <= j < i ==> !OccursAt(s, "\n\n", j)
    ensures !Contains(s[..i], "\n\n")
  {
    var p := s[..i];
    forall j | 0 <= j
      ensures !OccursAt(p, "\n\n", j)
    {
      if OccursAt(p, "\n\n", j) {
        assert p[j..j + 2] == s[j..j + 2];
        assert OccursAt(s, "\n\n", j);
      }
    }
    FindIs(p, "\n\n", 0, -1);
  }

  /** A block of the segmenter holds no blank line, so splitting its
      paragraph on blank-line runs keeps it whole. */
  lemma GoodBlockWhole(b: string)
    requires GoodBlock(b)
    ensures SplitRuns(b) == [b]
  {
    FindOccurs(b, "\n\n", 0);
    var i := Find(b, "\n\n", 0);
    if i != -1 {
      EmptyLineAt(b, i);
      assert false;
    }
    SplitRunsPieces(b);
  }

  /** Two newlines in a row leave an empty line between them. */
  lemma EmptyLineAt(b: string, i: nat)
    requires OccursAt(b, "\n\n", i)
    ensures |Split(b[..i], '\n')| < |Lines(b)| && Lines(b)[|Split(b[..i], '\n')|] == []
  {
    var a := b[..i];
    var rest := b[i + 1..];
    assert b[i..i + 2] == "\n\n";
    assert b == a + ['\n'] + rest;
    SplitAppend(a, rest, '\n');
    assert rest == ['\n'] + rest[1..];
    assert Split(rest, '\n') == [[]] + Split(rest[1..], '\n');
  }

  // ---------------------------------------------------------------------
  // The per-block step
  // ---------------------------------------------------------------------

  /** The translator of a part: a heading line or a paragraph. */
  function Translate(part: string, heading: bool): Result<HtmlNode> {
    if heading then HeadingLine(part) else ParagraphBlock(part)
  }

  /** A part of a block, translated as a paragraph or a heading line, or
      skipped when blank. */
  function PartNode(part: string, heading: bool): (r: Result<seq<Option<HtmlNode>>>)
    ensures r.Ok? ==> |r.value| == (if Strip(part) != [] then 1 else 0)
    ensures r.Ok? ==> forall k :: 0 <= k < |r.value| ==> r.value[k].Some?
  {
    if Strip(part) == [] then Ok([])
    else
      var n :- Translate(part, heading);
      Ok([Some(n)])
  }

  /** The non-blank parts, each translated, in order. */
  function Parts(parts: seq<string>, heading: bool): Result<seq<Option<HtmlNode>>>
    decreases |parts|
  {
    if parts == [] then Ok([])
    else
      var done :- Parts(parts[..|parts| - 1], heading);
      var last :- PartNode(parts[|parts| - 1], heading);
      Ok(done + last)
  }

  /** The parts that are not blank, in order: the `if segment.strip()` and
      `if line.strip()` filters. */
  function NonBlank(parts: seq<string>): seq<string>
    decreases |parts|
  {
    if parts == [] then []
    else NonBlank(parts[..|parts| - 1]) + (if Strip(parts[|parts| - 1]) != [] then [parts[|parts| - 1]] else [])
  }

  /** Every part of `kept` translates. */
  predicate AllTranslate(kept: seq<string>, heading: bool) {
    forall k :: 0 <= k < |kept| ==> Translate(kept[k], heading).Ok?
  }

  /** `nodes` are the translations of `kept`, one each, in order. */
  predicate Translations(nodes: seq<Option<HtmlNode>>, kept: seq<string>, heading: bool) {
    && AllTranslate(kept, heading)
    && |nodes| == |kept|
    && forall k :: 0 <= k < |kept| ==> nodes[k] == Some(Translate(kept[k], heading).value)
  }

  lemma AllTranslateSnoc(kept: seq<string>, x: string, heading: bool)
    ensures AllTranslate(kept + [x], heading) <==> AllTranslate(kept, heading) && Translate(x, heading).Ok?
  {
    var all := kept + [x];
    assert all[|kept|] == x;
    assert forall k :: 0 <= k < |kept| ==> all[k] == kept[k];
  }

  lemma TranslationsSnoc(nodes: seq<Option<HtmlNode>>, kept: seq<string>, x: string, n: HtmlNode, heading: bool)
    requires Translations(nodes, kept, heading) && Translate(x, heading) == Ok(n)
    ensures Translations(nodes + [Some(n)], kept + [x], heading)
  {
    AllTranslateSnoc(kept, x, heading);
    var all := kept + [x];
    var ns := nodes + [Some(n)];
    assert all[|kept|] == x && ns[|nodes|] == Some(n);
    assert forall k :: 0 <= k < |kept| ==> all[k] == kept[k] && ns[k] == nodes[k];
  }

  /** The parts succeed exactly when every non-blank part translates, and
      then make, in order, one node per non-blank part: that part's
      translation. */
  lemma {:induction false} PartsSpec(parts: seq<string>, heading: bool)
    ensures var r := Parts(parts, heading);
            && (r.Ok? <==> AllTranslate(NonBlank(parts), heading))
            && (r.Ok? ==> Translations(r.value, NonBlank(parts), heading))
    decreases |parts|
  {
    if parts != [] {
      var init := parts[..|parts| - 1];
      var x := parts[|parts| - 1];
      PartsSpec(init, heading);
      var keptInit := NonBlank(init);
      var rInit := Parts(init, heading);
      if rInit.Err? {
        assert Parts(parts, heading) == rInit;
        if Strip(x) != [] {
          assert NonBlank(parts) == keptInit + [x];
          AllTranslateSnoc(keptInit, x, heading);
        } else {
          assert NonBlank(parts) == keptInit by {
            assert keptInit + [] == keptInit;
          }
        }
      } else if Strip(x) == [] {
        assert PartNode(x, heading) == Ok([]);
        assert rInit.value + [] == rInit.value;
        assert Parts(parts, heading) == rInit;
        assert NonBlank(parts) == keptInit by {
          assert keptInit + [] == keptInit;
        }
      } else {
        assert NonBlank(parts) == keptInit + [x];
        AllTranslateSnoc(keptInit, x, heading);
        if Translate(x, heading).Ok? {
          var n := Translate(x, heading).value;
          assert Parts(parts, heading) == Ok(rInit.value + [Some(n)]);
          TranslationsSnoc(rInit.value, keptInit, x, n, heading);
        } else {
          assert Parts(parts, heading).Err?;
        }
      }
    }
  }

  /** One part that is not blank. */
  lemma PartsOne(part: string, heading: bool, n: HtmlNode)
    requires Strip(part) != []
    requires Translate(part, heading) == Ok(n)
    ensures Parts([part], heading) == Ok([Some(n)])
  {
    assert [part][..0] == [];
    assert [] + [Some(n)] == [Some(n)];
  }

  lemma PartsStep(parts: seq<string>, k: nat, heading: bool)
    requires k < |parts|
    ensures Parts(parts[..k + 1], heading)
            == (match Parts(parts[..k], heading)
                case Err(e) => Err(e)
                case Ok(done) =>
                  match PartNode(parts[k], heading)
                  case Err(e) => Err(e)
                  case Ok(last) => Ok(done + last))
  {
    assert parts[..k + 1][..k] == parts[..k];
  }

  lemma {:induction false} PartsPrefixErr(parts: seq<string>, k: nat, heading: bool)
    requires k <= |parts| && Parts(parts[..k], heading).Err?
    ensures Parts(parts, heading) == Parts(parts[..k], heading)
    decreases |parts|
  {
    if k < |parts| {
      var init := parts[..|parts| - 1];
      assert init[..k] == parts[..k];
      PartsPrefixErr(init, k, heading);
    } else {
      assert parts[..k] == parts;
    }
  }

  /** The loops over paragraph segments and over heading lines, as the
      source runs them. */
  method ProcessParts(parts: seq<string>, heading: bool) returns (r: Result<seq<Option<HtmlNode>>>)
    ensures r == Parts(parts, heading)
  {
    var nodes: seq<Option<HtmlNode>> := [];
    for k := 0 to |parts|
      invariant Parts(parts[..k], heading) == Ok(nodes)
    {
      PartsStep(parts, k, heading);
      if Strip(parts[k]) == [] {
        assert nodes + [] == nodes;
        continue;
      }
      var n := if heading then HeadingLine(parts[k]) else ParagraphBlock(parts[k]);
      if n.Err? {
        PartsPrefixErr(parts, k + 1, heading);
        return Err(n.error);
      }
      nodes := nodes + [Some(n.value)];
    }
    assert parts[..|parts|] == parts;
    return Ok(nodes);
  }

  /** What one pass of the block loop appends, and the index it moves to. */
  datatype Step = Step(nodes: seq<Option<HtmlNode>>, next: nat)

  /** The two blocks at `i` form a pair of paragraphs that merge. */
  predicate MergesAt(blocks: seq<string>, i: nat)
    requires i < |blocks|
  {
    BlockTypes.Classify(blocks[i]) == Some(BlockTypes.Paragraph)
    && i + 1 < |blocks| && BlockTypes.Classify(blocks[i + 1]) == Some(BlockTypes.Paragraph)
    && Merges(Collapsed(blocks[i]), Collapsed(blocks[i + 1]))
  }

  /** The text two merging paragraphs make: their collapsed texts joined by
      a space. */
  function MergedText(blocks: seq<string>, i: nat): string
    requires i + 1 < |blocks|
  {
    Collapsed(blocks[i]) + " " + Collapsed(blocks[i + 1])
  }

  /** The nodes a block's parts make: one per non-blank part, that part's
      translation, in order. */
  predicate PartNodes(nodes: seq<Option<HtmlNode>>, parts: seq<string>, heading: bool) {
    Translations(nodes, NonBlank(parts), heading)
  }

  /** Some non-blank part of a block fails to translate. */
  predicate SomePartFails(parts: seq<string>, heading: bool) {
    !AllTranslate(NonBlank(parts), heading)
  }

  /** One pass of the loop of `track_and_manage_blocks` at block `i`: a
      blank block adds nothing; two merging paragraphs make one `p` over
      their joined texts and move on by two; any other paragraph makes one
      `p` per non-blank segment between blank-line runs; a heading block one
      heading per non-blank line; any other block its translator's result. */
  function TrackStep(blocks: seq<string>, i: nat): (r: Result<Step>)
    requires i < |blocks|
    ensures r.Ok? ==> r.value.next == (if MergesAt(blocks, i) then i + 2 else i + 1)
    ensures BlockTypes.Classify(blocks[i]) == None ==> r == Ok(Step([], i + 1))
    ensures MergesAt(blocks, i) ==>
              (r.Ok? <==> ParagraphBlock(MergedText(blocks, i)).Ok?)
              && (r.Ok? ==> r.value.nodes == [Some(ParagraphBlock(MergedText(blocks, i)).value)])
    ensures BlockTypes.Classify(blocks[i]) == Some(BlockTypes.Paragraph) && !MergesAt(blocks, i) ==>
              (r.Ok? ==> PartNodes(r.value.nodes, SplitRuns(blocks[i]), false))
              && (r.Err? ==> SomePartFails(SplitRuns(blocks[i]), false))
    ensures BlockTypes.Classify(blocks[i]) == Some(BlockTypes.Heading) ==>
              (r.Ok? ==> PartNodes(r.value.nodes, Lines(blocks[i]), true))
              && (r.Err? ==> SomePartFails(Lines(blocks[i]), true))
    ensures var t := BlockTypes.Classify(blocks[i]);
            t.Some? && t.value !in {BlockTypes.Paragraph, BlockTypes.Heading} ==>
              (r.Ok? <==> GetBlockParent(blocks[i], t.value).Ok?)
              && (r.Ok? ==> r.value.nodes == [GetBlockParent(blocks[i], t.value).value])
  {
    var block := blocks[i];
    match BlockTypes.Classify(block)
    case None => Ok(Step([], i + 1))
    case Some(t) =>
      if t == BlockTypes.Paragraph then
        if MergesAt(blocks, i) then
          var p :- ParagraphBlock(Collapsed(block) + " " + Collapsed(blocks[i + 1]));
          Ok(Step([Some(p)], i + 2))
        else
          PartsSpec(SplitRuns(block), false);
          var ps :- Parts(SplitRuns(block), false);
          Ok(Step(ps, i + 1))
      else if t == BlockTypes.Heading then
        PartsSpec(Lines(block), true);
        var hs :- Parts(Lines(block), true);
        Ok(Step(hs, i + 1))
      else
        var n :- GetBlockParent(block, t);
        Ok(Step([n], i + 1))
  }

  /** The block loop from block `i` on. */
  function Track(blocks: seq<string>, i: nat): Result<seq<Option<HtmlNode>>>
    requires i <= |blocks|
    decreases |blocks| - i
  {
    if i == |blocks| then Ok([])
    else
      var step :- TrackStep(blocks, i);
      var rest :- Track(blocks, step.next);
      Ok(step.nodes + rest)
  }

  /** The nodes `done`, followed by those of `r` when it succeeds. */
  function ThenNodes(done: seq<Option<HtmlNode>>, r: Result<seq<Option<HtmlNode>>>): Result<seq<Option<HtmlNode>>> {
    match r
    case Err(e) => Err(e)
    case Ok(v) => Ok(done + v)
  }

  lemma ThenNodesThen(a: seq<Option<HtmlNode>>, b: seq<Option<HtmlNode>>, r: Result<seq<Option<HtmlNode>>>)
    ensures ThenNodes(a, ThenNodes(b, r)) == ThenNodes(a + b, r)
  {
    if r.Ok? {
      AppendAssoc(a, b, r.value);
    }
  }

  /** One pass of the loop of `track_and_manage_blocks`, as the source runs
      it. */
  method TrackBlock(blocks: seq<string>, i: nat) returns (r: Result<Step>)
    requires i < |blocks|
    ensures r == TrackStep(blocks, i)
  {
    var block := blocks[i];
    var t := BlockTypes.Classify(block);
    if t.None? {
      return Ok(Step([], i + 1));
    }
    if t.value == BlockTypes.Paragraph {
      var current := Collapsed(block);
      if i + 1 < |blocks| && BlockTypes.Classify(blocks[i + 1]) == Some(BlockTypes.Paragraph) {
        var next := Collapsed(blocks[i + 1]);
        if EndsWith(current, " ") || ShortFragments(current, next) || Lower(next) == "newlines" {
          var p := ParagraphBlock(current + " " + next);
          if p.Err? {
            return Err(p.error);
          }
          return Ok(Step([Some(p.value)], i + 2));
        }
      }
      var segments := ProcessParts(SplitRuns(block), false);
      if segments.Err? {
        return Err(segments.error);
      }
      return Ok(Step(segments.value, i + 1));
    } else if t.value == BlockTypes.Heading {
      var headings := ProcessParts(Lines(block), true);
      if headings.Err? {
        return Err(headings.error);
      }
      return Ok(Step(headings.value, i + 1));
    } else {
      var n := GetBlockParent(block, t.value);
      if n.Err? {
        return Err(n.error);
      }
      return Ok(Step([n.value], i + 1));
    }
  }

  /** The block loop from `i` is one step followed by the loop from where
      the step leaves off. */
  lemma TrackUnfold(blocks: seq<string>, i: nat)
    requires i < |blocks|
    ensures Track(blocks, i) == match TrackStep(blocks, i)
              case Err(e) => Err(e)
              case Ok(step) => ThenNodes(step.nodes, Track(blocks, step.next))
  {
  }

  /** `track_and_manage_blocks(blocks)` as the source runs it. */
  method TrackAndManageBlocks(blocks: seq<string>) returns (r: Result<seq<Option<HtmlNode>>>)
    ensures r == Track(blocks, 0)
  {
    var nodes: seq<Option<HtmlNode>> := [];
    var i := 0;
    assert Track(blocks, 0) == ThenNodes([], Track(blocks, 0)) by {
      if Track(blocks, 0).Ok? {
        assert [] + Track(blocks, 0).value == Track(blocks, 0).value;
      }
    }
    while i < |blocks|
      invariant i <= |blocks|
      invariant Track(blocks, 0) == ThenNodes(nodes, Track(blocks, i))
      decreases |blocks| - i
    {
      var step := TrackBlock(blocks, i);
      TrackUnfold(blocks, i);
      if step.Err? {
        return Err(step.error);
      }
      ThenNodesThen(nodes, step.value.nodes, Track(blocks, step.value.next));
      nodes := nodes + step.value.nodes;
      i := step.value.next;
    }
    assert Track(blocks, i) == Ok([]);
    assert nodes + [] == nodes;
    return Ok(nodes);
  }

  lemma {:induction false} TrackBlank(blocks: seq<string>, i: nat)
    requires i <= |blocks|
    requires forall k :: i <= k < |blocks| ==> AllSpace(blocks[k])
    ensures Track(blocks, i) == Ok([])
    decreases |blocks| - i
  {
    if i < |blocks| {
      BlockTypes.ClassifyNone(blocks[i]);
      TrackBlank(blocks, i + 1);
      TrackUnfold(blocks, i);
      var none: seq<Option<HtmlNode>> := [];
      assert none + none == none;
    }
  }

  // ---------------------------------------------------------------------
  // The document
  // ---------------------------------------------------------------------

  /** The page of an empty document: a `div` over a `p` over an empty leaf. */
  function EmptyPage(): (r: HtmlNode)
    ensures Valid(r) && Html(r) == "<div><p></p></div>"
  {
    var leaf := Leaf(None, Some(""), None);
    var p := Parent("p", [leaf], None);
    var page := Parent("div", [p], None);
    assert ChildrenHtml([leaf]) == "" by {
      assert [leaf][..0] == [];
    }
    assert ChildrenHtml([p]) == "<p></p>" by {
      assert [p][..0] == [];
    }
    page
  }

  /** `markdown_to_html_node(markdown)`: the blocks, tracked, under one
      `div`; a document without nodes is the empty page. */
  function MarkdownToHtmlNode(markdown: string): (r: Result<HtmlNode>)
    ensures r.Ok? ==> r.value.Parent? && r.value.tag == "div" && r.value.props == None
  {
    var nodes :- Track(Blocks(markdown), 0);
    DocumentOf(nodes)
  }

  /** The `div` over the tracked nodes, or the empty page. */
  function DocumentOf(nodes: seq<Option<HtmlNode>>): (r: Result<HtmlNode>)
    ensures nodes == [] ==> r == Ok(EmptyPage())
    ensures nodes != [] ==> (r.Ok? <==> Present(nodes) != [])
    ensures r.Ok? && nodes != [] ==> r.value == Parent("div", Present(nodes), None)
  {
    if nodes == [] then
      var leaf := TextNodeToHtmlNode(Span("", Text)).value;
      PresentOne(leaf);
      var p := NewParent(Some("p"), [Some(leaf)], None).value;
      PresentOne(p);
      NewParent(Some("div"), [Some(p)], None)
    else NewParent(Some("div"), nodes, None)
  }

  /** `markdown_to_html_node` as the source runs it. */
  method MarkdownToHtml(markdown: string) returns (r: Result<HtmlNode>)
    ensures r == MarkdownToHtmlNode(markdown)
  {
    var blocks := MarkdownToBlocks(markdown);
    var nodes := TrackAndManageBlocks(blocks);
    if nodes.Err? {
      return Err(nodes.error);
    }
    r := DocumentOf(nodes.value);
  }

  /** A blank document is the empty page. */
  lemma BlankDocument(markdown: string)
    requires AllSpace(markdown)
    ensures MarkdownToHtmlNode(markdown) == Ok(EmptyPage())
  {
    BlankMarkdown(markdown);
  }

  /** A document of one paragraph without markup is a `div` over a `p` over
      its collapsed text. */
  lemma OneParagraph(markdown: string)
    requires |Blocks(markdown)| == 1
    requires var b := Blocks(markdown)[0];
             BlockTypes.Classify(b) == Some(BlockTypes.Paragraph) && NoMarkup(b)
    ensures var b := Blocks(markdown)[0];
            MarkdownToHtmlNode(markdown)
            == Ok(Parent("div", [Parent("p", [Leaf(None, Some(Collapsed(b)), None)], None)], None))
  {
    var blocks := Blocks(markdown);
    var b := blocks[0];
    var p := Parent("p", [Leaf(None, Some(Collapsed(b)), None)], None);
    assert Parts(SplitRuns(b), false) == Ok([Some(p)]) by {
      BlocksGood(markdown);
      GoodBlockWhole(b);
      BlockTypes.ClassifyNone(b);
      StripEmpty(b);
      PlainParagraph(b);
      PartsOne(b, false, p);
    }
    assert Track(blocks, 0) == Ok([Some(p)]) by {
      TrackUnfold(blocks, 0);
      assert !MergesAt(blocks, 0);
      assert TrackStep(blocks, 0) == Ok(Step([Some(p)], 1));
      assert [Some(p)] + [] == [Some(p)];
    }
    PresentOne(p);
  }
}
