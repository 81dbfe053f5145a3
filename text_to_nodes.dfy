/** The inline pipeline (src/text_to_nodes.py): one plain-text span cut by
    the image pass, the link pass and the three delimiter passes, in that
    fixed order. */
module TextToNodes {
  import opened Wrappers
  import opened Strings
  import opened TextNode
  import opened SplitNodes
  import opened InlineMarkdown

  /** The spans after the two marker passes, before any delimiter pass. */
  function MarkerPasses(text: string): seq<TextNode> {
    MarkerSplit(MarkerSplit([Span(text, Text)], ImageMarker), LinkMarker)
  }

  /** `text_to_textnodes(text)`: images, then links, then `**` bold, `_`
      italic and `` ` `` code; the first failing delimiter pass decides the
      error. */
  function TextToTextNodes(text: string): (r: Result<seq<TextNode>>)
    ensures r.Err? ==> r.error in {InvalidMarkdownSyntax, WrongNumberOfDelimiters}
  {
    var bold :- DelimiterSplit(MarkerPasses(text), "**", Bold);
    var italic :- DelimiterSplit(bold, "_", Italic);
    DelimiterSplit(italic, "`", Code)
  }

  // ---------------------------------------------------------------------
  // Spans of one kind
  // ---------------------------------------------------------------------

  /** The spans of kind `k`, in order. */
  function OfKind(ns: seq<TextNode>, k: TextType): seq<TextNode>
    decreases |ns|
  {
    if ns == [] then []
    else (if ns[0].textType == k then [ns[0]] else []) + OfKind(ns[1..], k)
  }

  lemma {:induction false} OfKindAppend(a: seq<TextNode>, b: seq<TextNode>, k: TextType)
    ensures OfKind(a + b, k) == OfKind(a, k) + OfKind(b, k)
    decreases |a|
  {
    if a == [] {
      assert a + b == b;
    } else {
      var tail := a[1..];
      var ab := a + b;
      assert ab[0] == a[0] && ab[1..] == tail + b;
      var head := if a[0].textType == k then [a[0]] else [];
      assert OfKind(ab, k) == head + OfKind(tail + b, k);
      assert OfKind(a, k) == head + OfKind(tail, k);
      OfKindAppend(tail, b, k);
      assert head + (OfKind(tail, k) + OfKind(b, k)) == (head + OfKind(tail, k)) + OfKind(b, k);
    }
  }

  /** A cut by marker `m` holds text spans and spans of `m`'s kind only, so
      its spans of `m`'s kind are its non-text spans and it has none of any
      other kind. */
  lemma {:induction false} GoodSpansOfKind(ns: seq<TextNode>, m: Marker, k: TextType)
    requires GoodSpans(ns, m) && k != Text
    ensures OfKind(ns, k) == (if k == Kind(m) then NonText(ns) else [])
    decreases |ns|
  {
    if ns != [] {
      assert GoodSpans(ns[1..], m) by {
        assert forall i :: 0 <= i < |ns| - 1 ==> ns[1..][i] == ns[i + 1];
      }
      assert GoodSpan(ns[0], m);
      GoodSpansOfKind(ns[1..], m, k);
    }
  }

  lemma MarkerSplitOne(x: TextNode, m: Marker)
    ensures MarkerSplit([x], m) == SplitOneMarker(x, m)
  {
    assert [x][..0] == [];
  }

  lemma DelimiterSplitOne(x: TextNode, delimiter: string, textType: TextType)
    ensures DelimiterSplit([x], delimiter, textType) == SplitOne(x, delimiter, textType)
  {
    assert [x][..0] == [];
    var r := SplitOne(x, delimiter, textType);
    if r.Ok? {
      assert [] + r.value == r.value;
    }
  }

  // ---------------------------------------------------------------------
  // The delimiter passes keep the image and link spans
  // ---------------------------------------------------------------------

  /** One node split by a delimiter pass keeps its spans of every kind other
      than text and the pass's own kind. */
  lemma SplitOneKeeps(x: TextNode, delimiter: string, textType: TextType, k: TextType)
    requires k != Text && k != textType
    ensures SplitOne(x, delimiter, textType).Ok? ==>
            OfKind(SplitOne(x, delimiter, textType).value, k) == OfKind([x], k)
  {
    SplitOneKinds(x, delimiter, textType);
    var r := SplitOne(x, delimiter, textType);
    if r.Ok? && r.value != [x] {
      OnlyKindsOfKind(r.value, textType, k);
      OfKindOne(x, k);
    }
  }

  lemma OfKindOne(x: TextNode, k: TextType)
    ensures OfKind([x], k) == (if x.textType == k then [x] else [])
  {
    assert [x][1..] == [];
  }

  /** Spans of text and one other kind hold none of a third kind. */
  lemma {:induction false} OnlyKindsOfKind(ns: seq<TextNode>, textType: TextType, k: TextType)
    requires OnlyKinds(ns, textType) && k != Text && k != textType
    ensures OfKind(ns, k) == []
    decreases |ns|
  {
    if ns != [] {
      assert OnlyKinds(ns[1..], textType) by {
        assert forall i :: 0 <= i < |ns| - 1 ==> ns[1..][i] == ns[i + 1];
      }
      assert ns[0].textType == Text || ns[0].textType == textType;
      OnlyKindsOfKind(ns[1..], textType, k);
    }
  }

  /** A delimiter pass that succeeds keeps the spans of every kind other than
      text and its own, in order: images and links are never re-split. */
  lemma {:induction false} DelimiterSplitKeeps(nodes: seq<TextNode>, delimiter: string, textType: TextType, k: TextType)
    requires k != Text && k != textType
    requires DelimiterSplit(nodes, delimiter, textType).Ok?
    ensures OfKind(DelimiterSplit(nodes, delimiter, textType).value, k) == OfKind(nodes, k)
    decreases |nodes|
  {
    if nodes != [] {
      var init := nodes[..|nodes| - 1];
      var x := nodes[|nodes| - 1];
      assert nodes == init + [x];
      DelimiterSplitSnoc(init, x, delimiter, textType);
      DelimiterSplitKeeps(init, delimiter, textType, k);
      SplitOneKeeps(x, delimiter, textType, k);
      OfKindAppend(DelimiterSplit(init, delimiter, textType).value, SplitOne(x, delimiter, textType).value, k);
      OfKindAppend(init, [x], k);
    }
  }

  /** A marker pass keeps the spans of every kind other than text and its
      own. */
  lemma SplitOneMarkerKeeps(x: TextNode, m: Marker, k: TextType)
    requires k != Text && k != Kind(m)
    ensures OfKind(SplitOneMarker(x, m), k) == OfKind([x], k)
  {
    if x.textType == Text && Extract(x.text, m) != [] {
      CutSpans(x.text, Extract(x.text, m), m);
      GoodSpansOfKind(SplitOneMarker(x, m), m, k);
    }
  }

  lemma {:induction false} MarkerSplitKeeps(nodes: seq<TextNode>, m: Marker, k: TextType)
    requires k != Text && k != Kind(m)
    ensures OfKind(MarkerSplit(nodes, m), k) == OfKind(nodes, k)
    decreases |nodes|
  {
    if nodes != [] {
      var init := nodes[..|nodes| - 1];
      var x := nodes[|nodes| - 1];
      assert nodes == init + [x];
      MarkerSplitKeeps(init, m, k);
      SplitOneMarkerKeeps(x, m, k);
      OfKindAppend(MarkerSplit(init, m), SplitOneMarker(x, m), k);
      OfKindAppend(init, [x], k);
    }
  }

  /** The image and link spans of the result are those of the two marker
      passes: the delimiter passes never touch them. */
  lemma MarkersKept(text: string, k: TextType)
    requires k == Image || k == Link
    requires TextToTextNodes(text).Ok?
    ensures OfKind(TextToTextNodes(text).value, k) == OfKind(MarkerPasses(text), k)
  {
    var bold := DelimiterSplit(MarkerPasses(text), "**", Bold).value;
    var italic := DelimiterSplit(bold, "_", Italic).value;
    DelimiterSplitKeeps(MarkerPasses(text), "**", Bold, k);
    DelimiterSplitKeeps(bold, "_", Italic, k);
    DelimiterSplitKeeps(italic, "`", Code, k);
  }

  /** The spans of the marker's kind a text becomes: one per extracted pair,
      in order. */
  lemma SplitOneMarkerOfKind(text: string, m: Marker)
    ensures OfKind(SplitOneMarker(Span(text, Text), m), Kind(m)) == MarkerNodes(m, Extract(text, m))
  {
    var pairs := Extract(text, m);
    if pairs != [] {
      CutSpans(text, pairs, m);
      GoodSpansOfKind(InlineMarkdown.Cut(text, pairs, m), m, Kind(m));
      CutMarkers(text, pairs, m);
    }
  }

  /** The images of the result are exactly the `![alt](url)` markers the
      image extraction finds in the text, in order, with their alt texts and
      urls. */
  lemma ImagesOfText(text: string)
    requires TextToTextNodes(text).Ok?
    ensures OfKind(TextToTextNodes(text).value, Image) == MarkerNodes(ImageMarker, Extract(text, ImageMarker))
  {
    var first := MarkerSplit([Span(text, Text)], ImageMarker);
    MarkersKept(text, Image);
    MarkerSplitKeeps(first, LinkMarker, Image);
    MarkerSplitOne(Span(text, Text), ImageMarker);
    SplitOneMarkerOfKind(text, ImageMarker);
  }

  /** In a text without images, the links of the result are exactly the
      `[text](url)` markers the link extraction finds, in order. */
  lemma LinksOfText(text: string)
    requires Extract(text, ImageMarker) == []
    requires TextToTextNodes(text).Ok?
    ensures OfKind(TextToTextNodes(text).value, Link) == MarkerNodes(LinkMarker, Extract(text, LinkMarker))
  {
    MarkersKept(text, Link);
    MarkerSplitOne(Span(text, Text), ImageMarker);
    MarkerSplitOne(Span(text, Text), LinkMarker);
    SplitOneMarkerOfKind(text, LinkMarker);
  }

  // ---------------------------------------------------------------------
  // Texts without markup
  // ---------------------------------------------------------------------

  /** `c` does not occur in `s`. */
  predicate Lacks(s: string, c: char) {
    forall i :: 0 <= i < |s| ==> s[i] != c
  }

  /** None of the characters the passes look for: `[`, `*`, `_` and `` ` ``. */
  predicate NoMarkup(s: string) {
    Lacks(s, '[') && Lacks(s, '*') && Lacks(s, '_') && Lacks(s, '`')
  }

  lemma LacksSlice(s: string, c: char, i: nat, j: nat)
    requires i <= j <= |s| && Lacks(s, c)
    ensures Lacks(s[i..j], c)
  {
    assert forall k :: 0 <= k < j - i ==> s[i..j][k] == s[i + k];
  }

  /** A pattern whose first character is missing occurs nowhere. */
  lemma LacksNoOccurrence(s: string, pat: string)
    requires pat != [] && Lacks(s, pat[0])
    ensures forall i :: !OccursAt(s, pat, i)
  {
    forall i
      ensures !OccursAt(s, pat, i)
    {
      if 0 <= i && i + |pat| <= |s| {
        assert s[i..i + |pat|][0] == s[i];
      }
    }
  }

  /** Without `[` there is no image or link marker. */
  lemma {:induction false} NoBracketNoOpeners(text: string, m: Marker, pos: nat)
    requires Lacks(text, '[')
    ensures Openers(text, m, pos) == []
    decreases |text| - pos
  {
    if pos < |text| {
      assert !OpensAt(text, m, pos);
      NoBracketNoOpeners(text, m, pos + 1);
    }
  }

  /** Without `[` the two marker passes leave the text span as it is. */
  lemma NoBracketMarkerPasses(text: string)
    requires Lacks(text, '[')
    ensures MarkerPasses(text) == [Span(text, Text)]
  {
    NoBracketNoOpeners(text, ImageMarker, 0);
    NoBracketNoOpeners(text, LinkMarker, 0);
    MarkerSplitOne(Span(text, Text), ImageMarker);
    MarkerSplitOne(Span(text, Text), LinkMarker);
  }

  /** A delimiter pass over spans that lack the delimiter's first character
      changes nothing. */
  lemma {:induction false} DelimiterSplitPlain(nodes: seq<TextNode>, delimiter: string, textType: TextType)
    requires delimiter != []
    requires forall i :: 0 <= i < |nodes| ==> Lacks(nodes[i].text, delimiter[0])
    ensures DelimiterSplit(nodes, delimiter, textType) == Ok(nodes)
    decreases |nodes|
  {
    if nodes != [] {
      var init := nodes[..|nodes| - 1];
      var x := nodes[|nodes| - 1];
      assert nodes == init + [x];
      DelimiterSplitSnoc(init, x, delimiter, textType);
      DelimiterSplitPlain(init, delimiter, textType);
      if x.textType == Text {
        LacksNoOccurrence(x.text, delimiter);
        SplitOneNoOccurrence(x, delimiter, textType);
      }
    }
  }

  /** Text without markup, the empty text included, is one plain-text span
      equal to the input. */
  lemma PlainText(text: string)
    requires NoMarkup(text)
    ensures TextToTextNodes(text) == Ok([Span(text, Text)])
  {
    NoBracketMarkerPasses(text);
    var n := [Span(text, Text)];
    assert "**"[0] == '*' && "_"[0] == '_' && "`"[0] == '`';
    DelimiterSplitPlain(n, "**", Bold);
    DelimiterSplitPlain(n, "_", Italic);
    DelimiterSplitPlain(n, "`", Code);
  }

  /** The empty text is one empty plain-text span. */
  lemma EmptyText()
    ensures TextToTextNodes("") == Ok([TextNode("", Text, None)])
  {
    PlainText("");
  }

  /** One `**` pair and no other markup: the text before the pair, the bold
      span and the text after it, the outer parts dropped when empty. */
  lemma BoldPair(text: string, s: nat, e: nat)
    requires Lacks(text, '[') && Lacks(text, '_') && Lacks(text, '`')
    requires OccursAt(text, "**", s) && OccursAt(text, "**", e) && s + 2 <= e
    requires forall i :: 0 <= i < |text| && text[i] == '*' ==> i == s || i == s + 1 || i == e || i == e + 1
    ensures TextToTextNodes(text) == Ok(Pieces(text[..s], text[s + 2..e], text[e + 2..], Bold))
  {
    var pieces := Pieces(text[..s], text[s + 2..e], text[e + 2..], Bold);
    NoBracketMarkerPasses(text);
    BoldPass(text, s, e);
    PiecesLack(text, s, e, '_');
    PiecesLack(text, s, e, '`');
    DelimiterSplitPlain(pieces, "_", Italic);
    DelimiterSplitPlain(pieces, "`", Code);
  }

  /** The bold pass on the one span of such a text. */
  lemma BoldPass(text: string, s: nat, e: nat)
    requires OccursAt(text, "**", s) && OccursAt(text, "**", e) && s + 2 <= e
    requires forall i :: 0 <= i < |text| && text[i] == '*' ==> i == s || i == s + 1 || i == e || i == e + 1
    ensures DelimiterSplit([Span(text, Text)], "**", Bold)
            == Ok(Pieces(text[..s], text[s + 2..e], text[e + 2..], Bold))
  {
    var node := Span(text, Text);
    DelimiterSplitOne(node, "**", Bold);
    forall i | OccursAt(text, "**", i)
      ensures i == s || i == s + 1 || i == e
    {
      StarsAt(text, i);
    }
    SplitOnePair(node, "**", Bold, s, e);
  }

  lemma StarsAt(text: string, i: nat)
    requires OccursAt(text, "**", i)
    ensures text[i] == '*' && text[i + 1] == '*'
  {
    assert text[i..i + 2][0] == text[i] && text[i..i + 2][1] == text[i + 1];
  }

  lemma PiecesLack(text: string, s: nat, e: nat, c: char)
    requires s + 2 <= e && e + 2 <= |text| && Lacks(text, c)
    ensures var pieces := Pieces(text[..s], text[s + 2..e], text[e + 2..], Bold);
            forall i :: 0 <= i < |pieces| ==> Lacks(pieces[i].text, c)
  {
    LacksSlice(text, c, 0, s);
    LacksSlice(text, c, s + 2, e);
    LacksSlice(text, c, e + 2, |text|);
  }

  /** Two `**` pairs in one plain span, or any third `**`, make the pipeline
      fail. */
  lemma ThirdBoldDelimiter(text: string, s: nat, e: nat, f: nat)
    requires Lacks(text, '[')
    requires OccursAt(text, "**", s) && OccursAt(text, "**", e) && OccursAt(text, "**", f)
    requires s + 2 <= e && e + 2 <= f
    ensures TextToTextNodes(text) == Err(WrongNumberOfDelimiters)
  {
    NoBracketMarkerPasses(text);
    DelimiterSplitOne(Span(text, Text), "**", Bold);
    SplitOneThird(Span(text, Text), "**", Bold, s, e, f);
  }

  /** A lone backtick, with no other markup, makes the pipeline fail. */
  lemma UnclosedCode(text: string, s: nat)
    requires Lacks(text, '[') && Lacks(text, '*') && Lacks(text, '_')
    requires s < |text| && text[s] == '`'
    requires forall i :: 0 <= i < |text| && text[i] == '`' ==> i == s
    ensures TextToTextNodes(text) == Err(InvalidMarkdownSyntax)
  {
    PlainDelimiters(text);
    var node := Span(text, Text);
    DelimiterSplitOne(node, "`", Code);
    CharOccurs(text, s, '`');
    forall i | OccursAt(text, "`", i)
      ensures i == s
    {
      assert text[i..i + 1][0] == text[i];
    }
    SplitOneUnpaired(node, "`", Code, s);
  }

  lemma CharOccurs(text: string, s: nat, c: char)
    requires s < |text| && text[s] == c
    ensures OccursAt(text, [c], s)
  {
    assert text[s..s + 1] == [c];
  }

  /** Without `[`, `*` and `_`, the code pass alone decides the result. */
  lemma PlainDelimiters(text: string)
    requires Lacks(text, '[') && Lacks(text, '*') && Lacks(text, '_')
    ensures TextToTextNodes(text) == DelimiterSplit([Span(text, Text)], "`", Code)
  {
    NoBracketMarkerPasses(text);
    var n := [Span(text, Text)];
    assert "**"[0] == '*' && "_"[0] == '_';
    DelimiterSplitPlain(n, "**", Bold);
    DelimiterSplitPlain(n, "_", Italic);
  }
}
