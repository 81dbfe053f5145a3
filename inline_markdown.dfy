/** Image and link markers (src/inline_markdown.py): the pattern scan that
    finds `![alt](` and `[text](` openers, the parenthesis count that finds
    the url's closing `)`, and the cutting of plain-text spans around each
    marker found. */
module InlineMarkdown {
  import opened Wrappers
  import opened Strings
  import opened TextNode

  /** The two kinds of marker: an image `![alt](url)` and a link `[text](url)`. */
  datatype Marker = ImageMarker | LinkMarker

  /** The length of the opening bracket: `![` or `[`. */
  function OpenerLength(m: Marker): nat {
    if m == ImageMarker then 2 else 1
  }

  /** The kind of span a marker becomes. */
  function Kind(m: Marker): TextType {
    if m == ImageMarker then Image else Link
  }

  // ---------------------------------------------------------------------
  // The pattern scan: `re.finditer(r"!\[(.*?)\]\(", text)` for images and
  // `re.finditer(r"(?<!!)\[(.*?)\]\(", text)` for links.
  // ---------------------------------------------------------------------

  /** The opening bracket at `p`: `![` for an image; for a link a `[` that
      the look-behind `(?<!!)` accepts, one not preceded by `!`. */
  predicate OpensAt(text: string, m: Marker, p: nat) {
    match m
    case ImageMarker => p + 1 < |text| && text[p] == '!' && text[p + 1] == '['
    case LinkMarker => p < |text| && text[p] == '[' && (p == 0 || text[p - 1] != '!')
  }

  /** `](` starts at `j`. */
  predicate BracketParen(text: string, j: nat) {
    j + 1 < |text| && text[j] == ']' && text[j + 1] == '('
  }

  /** No newline among `text[i..j]`. */
  predicate NoNewline(text: string, i: nat, j: nat) {
    forall k :: i <= k < j && k < |text| ==> text[k] != '\n'
  }

  /** The lazy group `(.*?)` followed by `\]\(`, tried from `i`: the first
      `](` at or after `i`, provided no newline comes before it (`.` does not
      match a newline). */
  function AltEnd(text: string, i: nat): (r: Option<nat>)
    ensures r.Some? ==> i <= r.value && BracketParen(text, r.value)
    decreases |text| - i
  {
    if BracketParen(text, i) then Some(i)
    else if i < |text| && text[i] != '\n' then AltEnd(text, i + 1)
    else None
  }

  /** The group ends at the first `](` at or after `i` and holds no newline;
      when it cannot end, every `](` at or after `i` has a newline before it. */
  lemma {:induction false} AltEndSpec(text: string, i: nat)
    ensures var r := AltEnd(text, i);
            && (r.Some? ==> (forall j :: i <= j < r.value ==> !BracketParen(text, j))
                            && NoNewline(text, i, r.value))
            && (r.None? ==> forall j :: i <= j < |text| && BracketParen(text, j) ==> !NoNewline(text, i, j))
    decreases |text| - i
  {
    if !BracketParen(text, i) && i < |text| && text[i] != '\n' {
      AltEndSpec(text, i + 1);
    }
  }

  /** A match of the pattern: the opening bracket at `at` and the `](` that
      closes the alt text at `altEnd`; the url starts at `altEnd + 2`. */
  datatype Opener = Opener(at: nat, altEnd: nat)

  predicate IsOpener(text: string, m: Marker, o: Opener) {
    OpensAt(text, m, o.at) && AltEnd(text, o.at + OpenerLength(m)) == Some(o.altEnd)
  }

  /** The alt text and the `](` after it lie inside `text`. */
  predicate Bounded(text: string, m: Marker, o: Opener) {
    o.at + OpenerLength(m) <= o.altEnd && o.altEnd + 2 <= |text|
  }

  predicate AllOpeners(text: string, m: Marker, os: seq<Opener>) {
    forall k :: 0 <= k < |os| ==> IsOpener(text, m, os[k])
  }

  /** The pattern matches at `p`. */
  predicate MatchesAt(text: string, m: Marker, p: nat) {
    OpensAt(text, m, p) && AltEnd(text, p + OpenerLength(m)).Some?
  }

  /** `finditer` from `pos`: the leftmost match, then the matches after its
      end, which is just after the `(` of `](`. */
  function Openers(text: string, m: Marker, pos: nat): (r: seq<Opener>)
    ensures forall k :: 0 <= k < |r| ==> pos <= r[k].at && Bounded(text, m, r[k])
    decreases |text| - pos
  {
    if pos >= |text| then []
    else if MatchesAt(text, m, pos) then
      var q := AltEnd(text, pos + OpenerLength(m)).value;
      [Opener(pos, q)] + Openers(text, m, q + 2)
    else Openers(text, m, pos + 1)
  }

  /** Each next match starts at or after the end of the one before. */
  predicate Ordered(os: seq<Opener>) {
    forall k :: 0 <= k < |os| - 1 ==> os[k].altEnd + 2 <= os[k + 1].at
  }

  /** The matches come left to right and do not overlap. */
  lemma {:induction false} OpenersOrdered(text: string, m: Marker, pos: nat)
    ensures Ordered(Openers(text, m, pos))
    decreases |text| - pos
  {
    if pos < |text| {
      if MatchesAt(text, m, pos) {
        var q := AltEnd(text, pos + OpenerLength(m)).value;
        var rest := Openers(text, m, q + 2);
        OpenersOrdered(text, m, q + 2);
        var r := Openers(text, m, pos);
        assert r == [Opener(pos, q)] + rest;
        forall k | 0 <= k < |r| - 1
          ensures r[k].altEnd + 2 <= r[k + 1].at
        {
          assert r[k + 1] == rest[k];
          if k > 0 {
            assert r[k] == rest[k - 1];
          }
        }
      } else {
        OpenersOrdered(text, m, pos + 1);
      }
    }
  }

  /** Every reported match is a match of the pattern. */
  lemma {:induction false} OpenersMatch(text: string, m: Marker, pos: nat)
    ensures AllOpeners(text, m, Openers(text, m, pos))
    decreases |text| - pos
  {
    if pos < |text| {
      if MatchesAt(text, m, pos) {
        var q := AltEnd(text, pos + OpenerLength(m)).value;
        OpenersMatch(text, m, q + 2);
        var r := Openers(text, m, pos);
        var rest := Openers(text, m, q + 2);
        assert r == [Opener(pos, q)] + rest;
        forall k | 0 <= k < |r|
          ensures IsOpener(text, m, r[k])
        {
          if k > 0 {
            assert r[k] == rest[k - 1];
          }
        }
      } else {
        OpenersMatch(text, m, pos + 1);
      }
    }
  }

  /** The scan misses no match: there is none before the first one reported,
      and none at all when nothing is reported. */
  lemma {:induction false} OpenersFirst(text: string, m: Marker, pos: nat)
    ensures var r := Openers(text, m, pos);
            && (r == [] <==> forall p :: pos <= p ==> !MatchesAt(text, m, p))
            && (r != [] ==> forall p :: pos <= p < r[0].at ==> !MatchesAt(text, m, p))
    decreases |text| - pos
  {
    if pos < |text| && !MatchesAt(text, m, pos) {
      OpenersFirst(text, m, pos + 1);
    }
  }

  // ---------------------------------------------------------------------
  // The parenthesis count that finds the end of the url.
  // ---------------------------------------------------------------------

  function Delta(c: char): int {
    if c == '(' then 1 else if c == ')' then -1 else 0
  }

  /** Parentheses opened minus parentheses closed in `s`. */
  function Balance(s: string): int
    decreases |s|
  {
    if s == [] then 0 else Delta(s[0]) + Balance(s[1..])
  }

  /** The count change over `text[i..j + 1]`, the characters from `i` up to
      and including `j`. */
  function Change(text: string, i: nat, j: nat): int
    requires i <= j < |text|
  {
    Balance(text[i..j + 1])
  }

  lemma ChangeFront(text: string, i: nat, j: nat)
    requires i <= j < |text|
    ensures Change(text, i, j) == Delta(text[i]) + (if j == i then 0 else Change(text, i + 1, j))
  {
    assert text[i..j + 1][0] == text[i];
    assert text[i..j + 1][1..] == text[i + 1..j + 1];
    assert Change(text, i, j) == Delta(text[i]) + Balance(text[i + 1..j + 1]);
    if j == i {
      assert text[i + 1..j + 1] == [];
    }
  }

  /** The counting loop run from `i` with `depth` parentheses open: the index
      of the `)` that brings the count to zero, or None when the text ends
      first. */
  function Closing(text: string, i: nat, depth: nat): (r: Option<nat>)
    requires depth >= 1
    ensures r.Some? ==> i <= r.value < |text| && text[r.value] == ')'
    decreases |text| - i
  {
    if i >= |text| then None
    else
      var d := depth + Delta(text[i]);
      if d == 0 then Some(i) else Closing(text, i + 1, d)
  }

  /** The count reaches zero exactly at the index reported, and not before;
      when None is reported it never reaches zero. */
  lemma {:induction false} ClosingSpec(text: string, i: nat, depth: nat)
    requires depth >= 1
    ensures var r := Closing(text, i, depth);
            && (r.Some? ==> depth + Change(text, i, r.value) == 0)
            && (r.Some? ==> forall j :: i <= j < r.value ==> depth + Change(text, i, j) > 0)
            && (r.None? ==> forall j :: i <= j < |text| ==> depth + Change(text, i, j) > 0)
    decreases |text| - i
  {
    if i < |text| {
      var d := depth + Delta(text[i]);
      forall j | i <= j < |text| {
        ChangeFront(text, i, j);
      }
      if d != 0 {
        ClosingSpec(text, i + 1, d);
      }
    }
  }

  // ---------------------------------------------------------------------
  // `extract_markdown_images` / `extract_markdown_links`
  // ---------------------------------------------------------------------

  /** What one match contributes: its group and the url up to the balancing
      `)`, or nothing when the parentheses never balance. (The bounds test
      holds for every match the scan reports, see `Openers`.) */
  function PairOf(text: string, m: Marker, o: Opener): seq<(string, string)> {
    if Bounded(text, m, o) then
      match Closing(text, o.altEnd + 2, 1)
      case None => []
      case Some(c) => [(text[o.at + OpenerLength(m)..o.altEnd], text[o.altEnd + 2..c])]
    else []
  }

  /** The pairs of the matches `os`, in order. */
  function Pairs(text: string, m: Marker, os: seq<Opener>): (r: seq<(string, string)>)
    ensures |r| <= |os|
    decreases |os|
  {
    if os == [] then [] else PairOf(text, m, os[0]) + Pairs(text, m, os[1..])
  }

  lemma PairOfClosed(text: string, m: Marker, o: Opener, c: nat)
    requires Bounded(text, m, o) && Closing(text, o.altEnd + 2, 1) == Some(c)
    ensures PairOf(text, m, o) == [(text[o.at + OpenerLength(m)..o.altEnd], text[o.altEnd + 2..c])]
  {
  }

  /** A match whose parentheses never balance contributes nothing. */
  lemma PairOfUnclosed(text: string, m: Marker, o: Opener)
    requires Closing(text, o.altEnd + 2, 1) == None
    ensures PairOf(text, m, o) == []
  {
  }

  /** The pairs from the `k`-th match on: that match's, then the rest. */
  lemma PairsStep(text: string, m: Marker, os: seq<Opener>, k: nat)
    requires k < |os|
    ensures Pairs(text, m, os[k..]) == PairOf(text, m, os[k]) + Pairs(text, m, os[k + 1..])
  {
    assert os[k..][0] == os[k];
    assert os[k..][1..] == os[k + 1..];
  }

  /** The `(alt, url)` pairs the extraction reports for `text`. */
  function Extract(text: string, m: Marker): seq<(string, string)> {
    Pairs(text, m, Openers(text, m, 0))
  }

  /** The inner counting loop as the source runs it: from the url's first
      character, one more for each `(`, one fewer for each `)`, stopping at
      the character that brings the count to zero. */
  method CountToClose(text: string, startIdx: nat) returns (r: Option<nat>)
    ensures r == Closing(text, startIdx, 1)
  {
    var parenCount := 1;
    var i := startIdx;
    while i < |text|
      invariant parenCount >= 1 && Closing(text, startIdx, 1) == Closing(text, i, parenCount)
      decreases |text| - i
    {
      if text[i] == '(' {
        parenCount := parenCount + 1;
      } else if text[i] == ')' {
        parenCount := parenCount - 1;
      }
      if parenCount == 0 {
        return Some(i);
      }
      i := i + 1;
    }
    return None;
  }

  /** The extraction loop as the source runs it: for each match, the group
      and, when the count closes, the url up to the balancing `)`. */
  method ExtractMarkdown(text: string, m: Marker) returns (results: seq<(string, string)>)
    ensures results == Extract(text, m)
  {
    var potentialMatches := Openers(text, m, 0);
    results := [];
    assert potentialMatches[0..] == potentialMatches;
    for k := 0 to |potentialMatches|
      invariant results + Pairs(text, m, potentialMatches[k..]) == Extract(text, m)
    {
      var match_ := potentialMatches[k];
      PairsStep(text, m, potentialMatches, k);
      var found := MatchPair(text, m, match_);
      AppendAssoc(results, found, Pairs(text, m, potentialMatches[k + 1..]));
      results := results + found;
    }
    assert potentialMatches[|potentialMatches|..] == [];
  }

  /** The loop body for one match: the group and, when the count closes, the
      url up to the balancing `)`. */
  method MatchPair(text: string, m: Marker, match_: Opener) returns (found: seq<(string, string)>)
    requires Bounded(text, m, match_)
    ensures found == PairOf(text, m, match_)
  {
    var altText := text[match_.at + OpenerLength(m)..match_.altEnd];
    var startIdx := match_.altEnd + 2;
    var close := CountToClose(text, startIdx);
    if close.Some? {
      PairOfClosed(text, m, match_, close.value);
      found := [(altText, text[startIdx..close.value])];
    } else {
      PairOfUnclosed(text, m, match_);
      found := [];
    }
  }

  /** `extract_markdown_images(text)` */
  method ExtractMarkdownImages(text: string) returns (results: seq<(string, string)>)
    ensures results == Extract(text, ImageMarker)
  {
    results := ExtractMarkdown(text, ImageMarker);
  }

  /** `extract_markdown_links(text)` */
  method ExtractMarkdownLinks(text: string) returns (results: seq<(string, string)>)
    ensures results == Extract(text, LinkMarker)
  {
    results := ExtractMarkdown(text, LinkMarker);
  }

  /** Nothing in a link position: when every `[` follows a `!`, as in text
      written only with image syntax, the link extraction finds nothing. */
  lemma ImageSyntaxHasNoLinks(text: string)
    requires forall p :: 0 <= p < |text| && text[p] == '[' ==> p > 0 && text[p - 1] == '!'
    ensures Extract(text, LinkMarker) == []
  {
    OpenersFirst(text, LinkMarker, 0);
    assert forall p :: 0 <= p ==> !MatchesAt(text, LinkMarker, p);
  }

  /** Without a `)` no match can close, so nothing is extracted. */
  lemma {:induction false} NoCloseNoPairs(text: string, m: Marker, os: seq<Opener>)
    requires forall p :: 0 <= p < |text| ==> text[p] != ')'
    ensures Pairs(text, m, os) == []
    decreases |os|
  {
    if os != [] {
      NoCloseNoPairs(text, m, os[1..]);
      var o := os[0];
      if Bounded(text, m, o) {
        assert Closing(text, o.altEnd + 2, 1).None?;
      }
    }
  }

  // ---------------------------------------------------------------------
  // `split_nodes_image` / `split_nodes_link`
  // ---------------------------------------------------------------------

  /** The text of a marker: `![alt](url)` or `[alt](url)`. */
  function Render(m: Marker, alt: string, url: string): (r: string)
    ensures |r| == OpenerLength(m) + |alt| + 2 + |url| + 1
  {
    (if m == ImageMarker then "![" else "[") + alt + "](" + url + ")"
  }

  /** The node a pair becomes: an image or link span with the pair's url. */
  function MarkerNode(m: Marker, pair: (string, string)): (r: TextNode)
    ensures r.textType == Kind(m) && r.text == pair.0 && r.url == Some(pair.1)
  {
    TextNode(pair.0, Kind(m), Some(pair.1))
  }

  /** The inner loop over the pairs, from the text still to be cut: for each
      pair, the text before the first occurrence of its marker (when
      non-empty), the pair's node, and then the pairs after it on the text
      after the marker (nothing when the marker does not occur); finally the
      text left over, when non-empty. */
  function Cut(current: string, pairs: seq<(string, string)>, m: Marker): seq<TextNode>
    decreases |pairs|
  {
    if pairs == [] then Piece(current)
    else
      var sections := SplitOnce(current, Render(m, pairs[0].0, pairs[0].1));
      Piece(sections[0]) + [MarkerNode(m, pairs[0])]
        + Cut(if |sections| > 1 then sections[1] else "", pairs[1..], m)
  }

  /** What one node becomes: other kinds and texts without a marker stay as
      they are; a text with markers is cut around them. */
  function SplitOneMarker(node: TextNode, m: Marker): seq<TextNode> {
    if node.textType != Text then [node]
    else
      var pairs := Extract(node.text, m);
      if pairs == [] then [node] else Cut(node.text, pairs, m)
  }

  /** `split_nodes_image(old_nodes)` / `split_nodes_link(old_nodes)`: each
      node's pieces, in order. */
  function MarkerSplit(nodes: seq<TextNode>, m: Marker): seq<TextNode>
    decreases |nodes|
  {
    if nodes == [] then []
    else MarkerSplit(nodes[..|nodes| - 1], m) + SplitOneMarker(nodes[|nodes| - 1], m)
  }

  lemma CutStep(current: string, pairs: seq<(string, string)>, j: nat, m: Marker)
    requires j < |pairs|
    ensures var sections := SplitOnce(current, Render(m, pairs[j].0, pairs[j].1));
            Cut(current, pairs[j..], m)
            == Piece(sections[0]) + [MarkerNode(m, pairs[j])]
               + Cut(if |sections| > 1 then sections[1] else "", pairs[j + 1..], m)
  {
    assert pairs[j..][0] == pairs[j];
    assert pairs[j..][1..] == pairs[j + 1..];
  }

  lemma Assoc(a: seq<TextNode>, b: seq<TextNode>, c: seq<TextNode>, d: seq<TextNode>)
    ensures a + (b + c + d) == a + b + c + d
  {
  }

  /** The loop body for one node, as the source runs it: extraction, then
      the cut around each pair's marker, rebinding the text still to be cut. */
  method SplitMarkerNode(node: TextNode, m: Marker) returns (pieces: seq<TextNode>)
    ensures pieces == SplitOneMarker(node, m)
  {
    if node.textType != Text {
      return [node];
    }
    var images := ExtractMarkdown(node.text, m);
    if images == [] {
      return [node];
    }
    var currentText := node.text;
    pieces := [];
    for j := 0 to |images|
      invariant pieces + Cut(currentText, images[j..], m) == Cut(node.text, images, m)
    {
      var (text, link) := images[j];
      var linkMarker := Render(m, text, link);
      var sections := SplitOnce(currentText, linkMarker);
      CutStep(currentText, images, j, m);
      ghost var before := pieces;
      ghost var rest := if |sections| > 1 then sections[1] else "";
      if sections[0] != [] {
        pieces := pieces + [Span(sections[0], Text)];
      }
      assert pieces == before + Piece(sections[0]);
      pieces := pieces + [TextNode(text, Kind(m), Some(link))];
      if |sections| > 1 {
        currentText := sections[1];
      } else {
        currentText := "";
      }
      Assoc(before, Piece(sections[0]), [MarkerNode(m, images[j])], Cut(rest, images[j + 1..], m));
    }
    if currentText != [] {
      pieces := pieces + [Span(currentText, Text)];
    }
  }

  /** The outer loop of `split_nodes_image` / `split_nodes_link`. */
  method SplitNodesMarker(oldNodes: seq<TextNode>, m: Marker) returns (newNodes: seq<TextNode>)
    ensures newNodes == MarkerSplit(oldNodes, m)
  {
    newNodes := [];
    for k := 0 to |oldNodes|
      invariant newNodes == MarkerSplit(oldNodes[..k], m)
    {
      assert oldNodes[..k + 1][..k] == oldNodes[..k];
      var pieces := SplitMarkerNode(oldNodes[k], m);
      newNodes := newNodes + pieces;
    }
    assert oldNodes[..|oldNodes|] == oldNodes;
  }

  /** `split_nodes_image(old_nodes)` */
  method SplitNodesImage(oldNodes: seq<TextNode>) returns (newNodes: seq<TextNode>)
    ensures newNodes == MarkerSplit(oldNodes, ImageMarker)
  {
    newNodes := SplitNodesMarker(oldNodes, ImageMarker);
  }

  /** `split_nodes_link(old_nodes)` */
  method SplitNodesLink(oldNodes: seq<TextNode>) returns (newNodes: seq<TextNode>)
    ensures newNodes == MarkerSplit(oldNodes, LinkMarker)
  {
    newNodes := SplitNodesMarker(oldNodes, LinkMarker);
  }

  // ---------------------------------------------------------------------
  // Properties of the split
  // ---------------------------------------------------------------------

  /** Each node contributes its own contiguous run of output nodes. */
  lemma MarkerSplitSnoc(nodes: seq<TextNode>, x: TextNode, m: Marker)
    ensures MarkerSplit(nodes + [x], m) == MarkerSplit(nodes, m) + SplitOneMarker(x, m)
  {
    assert (nodes + [x])[..|nodes|] == nodes;
  }

  lemma {:induction false} MarkerSplitAppend(a: seq<TextNode>, b: seq<TextNode>, m: Marker)
    ensures MarkerSplit(a + b, m) == MarkerSplit(a, m) + MarkerSplit(b, m)
    decreases |b|
  {
    if b == [] {
      assert a + b == a;
    } else {
      var init := b[..|b| - 1];
      var x := b[|b| - 1];
      assert b == init + [x];
      assert a + b == (a + init) + [x];
      MarkerSplitSnoc(a + init, x, m);
      MarkerSplitSnoc(init, x, m);
      MarkerSplitAppend(a, init, m);
      AppendAssoc(MarkerSplit(a, m), MarkerSplit(init, m), SplitOneMarker(x, m));
    }
  }

  /** Nodes of other kinds, texts without a marker and the empty list come
      back unchanged. */
  lemma {:induction false} MarkerSplitUnchanged(nodes: seq<TextNode>, m: Marker)
    requires forall i :: 0 <= i < |nodes| ==> nodes[i].textType != Text || Extract(nodes[i].text, m) == []
    ensures MarkerSplit(nodes, m) == nodes
    decreases |nodes|
  {
    if nodes != [] {
      MarkerSplitUnchanged(nodes[..|nodes| - 1], m);
      assert nodes[..|nodes| - 1] + [nodes[|nodes| - 1]] == nodes;
    }
  }

  /** A span a cut may emit: non-empty text, or of the marker's kind. */
  predicate GoodSpan(n: TextNode, m: Marker) {
    (n.textType == Text && n.text != []) || n.textType == Kind(m)
  }

  predicate GoodSpans(ns: seq<TextNode>, m: Marker) {
    forall i :: 0 <= i < |ns| ==> GoodSpan(ns[i], m)
  }

  lemma GoodSpansAppend(a: seq<TextNode>, b: seq<TextNode>, m: Marker)
    requires GoodSpans(a, m) && GoodSpans(b, m)
    ensures GoodSpans(a + b, m)
  {
    assert forall i :: |a| <= i < |a + b| ==> (a + b)[i] == b[i - |a|];
  }

  /** A cut emits no empty text span, and every span it emits is either text
      or of the marker's kind. */
  lemma {:induction false} CutSpans(current: string, pairs: seq<(string, string)>, m: Marker)
    ensures GoodSpans(Cut(current, pairs, m), m)
    decreases |pairs|
  {
    if pairs != [] {
      var sections := SplitOnce(current, Render(m, pairs[0].0, pairs[0].1));
      var rest := if |sections| > 1 then sections[1] else "";
      CutSpans(rest, pairs[1..], m);
      GoodSpansAppend(Piece(sections[0]), [MarkerNode(m, pairs[0])], m);
      GoodSpansAppend(Piece(sections[0]) + [MarkerNode(m, pairs[0])], Cut(rest, pairs[1..], m), m);
    }
  }

  /** The spans that are not plain text, in order. */
  function NonText(ns: seq<TextNode>): seq<TextNode>
    decreases |ns|
  {
    if ns == [] then []
    else (if ns[0].textType != Text then [ns[0]] else []) + NonText(ns[1..])
  }

  lemma {:induction false} NonTextAppend(a: seq<TextNode>, b: seq<TextNode>)
    ensures NonText(a + b) == NonText(a) + NonText(b)
    decreases |a|
  {
    if a != [] {
      assert (a + b)[1..] == a[1..] + b;
      NonTextAppend(a[1..], b);
    } else {
      assert a + b == b;
    }
  }

  /** The marker nodes of `pairs`, in order. */
  function MarkerNodes(m: Marker, pairs: seq<(string, string)>): (r: seq<TextNode>)
    ensures |r| == |pairs|
    decreases |pairs|
  {
    if pairs == [] then [] else [MarkerNode(m, pairs[0])] + MarkerNodes(m, pairs[1..])
  }

  lemma {:induction false} MarkerNodesAt(m: Marker, pairs: seq<(string, string)>, i: nat)
    requires i < |pairs|
    ensures MarkerNodes(m, pairs)[i] == MarkerNode(m, pairs[i])
    decreases i
  {
    if i > 0 {
      MarkerNodesAt(m, pairs[1..], i - 1);
    }
  }

  /** A cut emits exactly one image or link span per pair, in the pairs'
      order, with the pair's alt text and url. */
  lemma {:induction false} CutMarkers(current: string, pairs: seq<(string, string)>, m: Marker)
    ensures NonText(Cut(current, pairs, m)) == MarkerNodes(m, pairs)
    decreases |pairs|
  {
    if pairs == [] {
    } else {
      var sections := SplitOnce(current, Render(m, pairs[0].0, pairs[0].1));
      var rest := if |sections| > 1 then sections[1] else "";
      CutMarkers(rest, pairs[1..], m);
      NonTextAppend(Piece(sections[0]), [MarkerNode(m, pairs[0])]);
      NonTextAppend(Piece(sections[0]) + [MarkerNode(m, pairs[0])], Cut(rest, pairs[1..], m));
      assert NonText([MarkerNode(m, pairs[0])]) == [MarkerNode(m, pairs[0])];
    }
  }

  // ---------------------------------------------------------------------
  // Rebuilding the text from the cut
  // ---------------------------------------------------------------------

  /** The markdown a span stands for: a span of the marker's kind with a url
      its marker, any other span its text. */
  function Source(n: TextNode, m: Marker): string {
    if n.textType == Kind(m) && n.url.Some? then Render(m, n.text, n.url.value) else n.text
  }

  function Sources(ns: seq<TextNode>, m: Marker): string
    decreases |ns|
  {
    if ns == [] then [] else Source(ns[0], m) + Sources(ns[1..], m)
  }

  lemma {:induction false} SourcesAppend(a: seq<TextNode>, b: seq<TextNode>, m: Marker)
    ensures Sources(a + b, m) == Sources(a, m) + Sources(b, m)
    decreases |a|
  {
    if a != [] {
      assert (a + b)[1..] == a[1..] + b;
      SourcesAppend(a[1..], b, m);
    } else {
      assert a + b == b;
    }
  }

  /** Each pair's marker is found in the text still to be cut. */
  predicate AllFound(current: string, pairs: seq<(string, string)>, m: Marker)
    decreases |pairs|
  {
    pairs == []
    || (var sections := SplitOnce(current, Render(m, pairs[0].0, pairs[0].1));
        |sections| == 2 && AllFound(sections[1], pairs[1..], m))
  }

  /** When every marker is found, the text spans and the markers of the cut
      spell out the text again. */
  lemma {:induction false} CutRebuild(current: string, pairs: seq<(string, string)>, m: Marker)
    requires AllFound(current, pairs, m)
    ensures Sources(Cut(current, pairs, m), m) == current
    decreases |pairs|
  {
    if pairs == [] {
      assert Sources(Piece(current), m) == current;
    } else {
      var marker := Render(m, pairs[0].0, pairs[0].1);
      var sections := SplitOnce(current, marker);
      SplitOnceSpec(current, marker);
      CutRebuild(sections[1], pairs[1..], m);
      var node := MarkerNode(m, pairs[0]);
      assert Sources([node], m) == marker;
      assert Sources(Piece(sections[0]), m) == sections[0];
      SourcesAppend(Piece(sections[0]), [node], m);
      SourcesAppend(Piece(sections[0]) + [node], Cut(sections[1], pairs[1..], m), m);
    }
  }

  /** The shape of a match that the rebuilding needs: the opening bracket
      at `at`, the `](` at `altEnd`, both inside the text. */
  predicate Shaped(text: string, m: Marker, o: Opener) {
    OpensAt(text, m, o.at) && BracketParen(text, o.altEnd) && Bounded(text, m, o)
  }

  predicate AllShaped(text: string, m: Marker, os: seq<Opener>) {
    forall k :: 0 <= k < |os| ==> Shaped(text, m, os[k])
  }

  /** Every match begins at or after `off`. */
  predicate From(os: seq<Opener>, off: nat) {
    forall k :: 0 <= k < |os| ==> off <= os[k].at
  }

  /** Every match the scan reports has that shape. */
  lemma OpenersShaped(text: string, m: Marker, pos: nat)
    ensures AllShaped(text, m, Openers(text, m, pos))
  {
    OpenersMatch(text, m, pos);
  }

  /** The url of each closed match ends before every later match begins: no
      marker sits inside an earlier marker's url. */
  predicate Disjoint(text: string, m: Marker, os: seq<Opener>)
    decreases |os|
  {
    os == []
    || ((Closing(text, os[0].altEnd + 2, 1).Some? ==> From(os[1..], Closing(text, os[0].altEnd + 2, 1).value + 1))
        && Disjoint(text, m, os[1..]))
  }

  /** A closed match spells out the marker of its pair, ending at the
      balancing `)`. */
  lemma MarkerAt(text: string, m: Marker, o: Opener, c: nat)
    requires Shaped(text, m, o) && o.altEnd + 2 <= c < |text| && text[c] == ')'
    ensures var marker := Render(m, text[o.at + OpenerLength(m)..o.altEnd], text[o.altEnd + 2..c]);
            c + 1 == o.at + |marker| && text[o.at..c + 1] == marker
  {
    var len := OpenerLength(m);
    var opening := if m == ImageMarker then "![" else "[";
    assert text[o.at..o.at + len] == opening;
    assert text[o.altEnd..o.altEnd + 2] == "](";
    assert text[c..c + 1] == ")";
    SliceConcat(text, o.at, o.at + len, o.altEnd);
    SliceConcat(text, o.at, o.altEnd, o.altEnd + 2);
    SliceConcat(text, o.at, o.altEnd + 2, c);
    SliceConcat(text, o.at, c, c + 1);
  }

  /** A text holding `pat` at `i` splits at an occurrence no later than `i`. */
  lemma SplitOnceAtMost(s: string, pat: string, i: nat) returns (e: nat)
    requires OccursAt(s, pat, i)
    ensures var sections := SplitOnce(s, pat);
            e <= i + |pat| && |sections| == 2 && sections[1] == s[e..]
  {
    FindAtMost(s, pat, 0, i);
    e := Find(s, pat, 0) + |pat|;
  }

  /** The first occurrence of a closed match's marker, searched from a point
      at or before the match, ends at or before the match's end. */
  lemma FoundStep(text: string, m: Marker, o: Opener, c: nat, off: nat) returns (e: nat)
    requires Shaped(text, m, o) && o.altEnd + 2 <= c < |text| && text[c] == ')'
    requires off <= o.at
    ensures var marker := Render(m, text[o.at + OpenerLength(m)..o.altEnd], text[o.altEnd + 2..c]);
            var sections := SplitOnce(text[off..], marker);
            off <= e <= c + 1 && |sections| == 2 && sections[1] == text[e..]
  {
    MarkerAt(text, m, o, c);
    var marker := Render(m, text[o.at + OpenerLength(m)..o.altEnd], text[o.altEnd + 2..c]);
    var current := text[off..];
    assert OccursAt(current, marker, o.at - off) by {
      assert current[o.at - off..o.at - off + |marker|] == text[o.at..c + 1];
    }
    var f := SplitOnceAtMost(current, marker, o.at - off);
    e := off + f;
    assert current[f..] == text[e..];
  }

  /** What holds of the matches holds of the matches after the first. */
  lemma RestShaped(text: string, m: Marker, os: seq<Opener>)
    requires os != [] && AllShaped(text, m, os)
    ensures AllShaped(text, m, os[1..])
  {
    assert forall k :: 0 <= k < |os[1..]| ==> os[1..][k] == os[k + 1];
  }

  lemma RestFrom(os: seq<Opener>, off: nat)
    requires os != [] && From(os, off)
    ensures From(os[1..], off)
  {
    assert forall k :: 0 <= k < |os[1..]| ==> os[1..][k] == os[k + 1];
  }

  /** From a point `off` at or before every match, the markers of all the
      pairs of non-nested matches are found one after the other. */
  lemma {:induction false} DisjointFound(text: string, m: Marker, os: seq<Opener>, off: nat)
    requires off <= |text|
    requires AllShaped(text, m, os) && Disjoint(text, m, os) && From(os, off)
    ensures AllFound(text[off..], Pairs(text, m, os), m)
    decreases |os|, 1
  {
    if os != [] {
      match Closing(text, os[0].altEnd + 2, 1)
      case None => DisjointFoundSkip(text, m, os, off);
      case Some(c) => DisjointFoundKept(text, m, os, off, c);
    }
  }

  /** A first match that never closes adds no pair. */
  lemma {:induction false} DisjointFoundSkip(text: string, m: Marker, os: seq<Opener>, off: nat)
    requires off <= |text| && os != []
    requires AllShaped(text, m, os) && Disjoint(text, m, os) && From(os, off)
    requires Closing(text, os[0].altEnd + 2, 1) == None
    ensures AllFound(text[off..], Pairs(text, m, os), m)
    decreases |os|, 0
  {
    ghost var ps := Pairs(text, m, os[1..]);
    assert Pairs(text, m, os) == ps by {
      PairOfUnclosed(text, m, os[0]);
      assert Pairs(text, m, os) == [] + ps;
    }
    RestShaped(text, m, os);
    RestFrom(os, off);
    DisjointFound(text, m, os[1..], off);
  }

  /** A first match that closes at `c` has its marker found, and the search
      goes on from at most `c + 1`, before every later match. */
  lemma {:induction false} DisjointFoundKept(text: string, m: Marker, os: seq<Opener>, off: nat, c: nat)
    requires off <= |text| && os != []
    requires AllShaped(text, m, os) && Disjoint(text, m, os) && From(os, off)
    requires Closing(text, os[0].altEnd + 2, 1) == Some(c)
    ensures AllFound(text[off..], Pairs(text, m, os), m)
    decreases |os|, 0
  {
    var o := os[0];
    var pair := (text[o.at + OpenerLength(m)..o.altEnd], text[o.altEnd + 2..c]);
    ghost var ps := Pairs(text, m, os[1..]);
    assert Pairs(text, m, os) == [pair] + ps by {
      PairOfClosed(text, m, o, c);
    }
    assert Shaped(text, m, o);
    var e := FoundStep(text, m, o, c, off);
    assert AllShaped(text, m, os[1..]) && From(os[1..], e) by {
      RestShaped(text, m, os);
    }
    DisjointFound(text, m, os[1..], e);
    AllFoundCons(text[off..], pair, ps, m, text[e..]);
  }

  /** A marker found in the text, followed by markers all found after it. */
  lemma AllFoundCons(current: string, pair: (string, string), ps: seq<(string, string)>, m: Marker, after: string)
    requires var sections := SplitOnce(current, Render(m, pair.0, pair.1));
             |sections| == 2 && sections[1] == after
    requires AllFound(after, ps, m)
    ensures AllFound(current, [pair] + ps, m)
  {
    var qs := [pair] + ps;
    assert qs[0] == pair && qs[1..] == ps;
  }

  /** For a text node whose markers do not nest, the spans the split emits
      spell out the node's text again. */
  lemma SplitOneMarkerRebuild(node: TextNode, m: Marker)
    requires node.textType == Text && Disjoint(node.text, m, Openers(node.text, m, 0))
    ensures Sources(SplitOneMarker(node, m), m) == node.text
  {
    var os := Openers(node.text, m, 0);
    OpenersShaped(node.text, m, 0);
    DisjointFound(node.text, m, os, 0);
    assert node.text[0..] == node.text;
    if Extract(node.text, m) != [] {
      CutRebuild(node.text, Extract(node.text, m), m);
    }
  }

  /** The text of the nested example below. */
  const NestedImages := "![a](![b](c))"

  /** The alt texts end at the `](` at 3 and at 8. */
  lemma NestedAltEnds()
    ensures AltEnd(NestedImages, 2) == Some(3) && AltEnd(NestedImages, 7) == Some(8)
  {
    var t := NestedImages;
    assert AltEnd(t, 3) == Some(3);
    assert AltEnd(t, 8) == Some(8);
  }

  /** No image opens in `c))`, after the inner alt text. */
  lemma NestedTail()
    ensures Openers(NestedImages, ImageMarker, 10) == []
  {
    var t, m := NestedImages, ImageMarker;
    assert !MatchesAt(t, m, 10) && !MatchesAt(t, m, 11) && !MatchesAt(t, m, 12);
    assert Openers(t, m, 13) == [];
  }

  /** The scan finds the outer image at 0 and the inner one at 5, inside
      the outer url. */
  lemma NestedOpeners()
    ensures Openers(NestedImages, ImageMarker, 0) == [Opener(0, 3), Opener(5, 8)]
  {
    var t, m := NestedImages, ImageMarker;
    NestedAltEnds();
    NestedTail();
    assert MatchesAt(t, m, 5);
    assert Openers(t, m, 5) == [Opener(5, 8)] + Openers(t, m, 10);
    assert MatchesAt(t, m, 0);
    assert Openers(t, m, 0) == [Opener(0, 3)] + Openers(t, m, 5);
  }

  /** The outer url runs to the last `)`, the inner one to the one before. */
  lemma NestedClosings()
    ensures Closing(NestedImages, 5, 1) == Some(12) && Closing(NestedImages, 10, 1) == Some(11)
  {
    var t := NestedImages;
    assert Closing(t, 11, 2) == Some(12) by { assert Closing(t, 12, 1) == Some(12); }
    assert Closing(t, 9, 1) == Some(12) by { assert Closing(t, 10, 2) == Some(12); }
    assert Closing(t, 10, 1) == Some(11) by { assert Closing(t, 11, 1) == Some(11); }
  }

  /** The alt texts and urls the two openers delimit. */
  lemma NestedSlices()
    ensures NestedImages[2..3] == "a" && NestedImages[5..12] == "![b](c)"
    ensures NestedImages[7..8] == "b" && NestedImages[10..11] == "c"
  {
  }

  lemma NestedExtract()
    ensures Extract(NestedImages, ImageMarker) == [("a", "![b](c)"), ("b", "c")]
  {
    var t, m := NestedImages, ImageMarker;
    NestedOpeners();
    NestedClosings();
    NestedSlices();
    var os := [Opener(0, 3), Opener(5, 8)];
    PairOfClosed(t, m, os[0], 12);
    PairOfClosed(t, m, os[1], 11);
    assert os[1..][1..] == [];
    assert Pairs(t, m, os[1..]) == [("b", "c")] + Pairs(t, m, []);
    assert Pairs(t, m, os) == [("a", "![b](c)")] + Pairs(t, m, os[1..]);
  }

  /** The two markers of the example, rendered. */
  lemma NestedRender()
    ensures Render(ImageMarker, "a", "![b](c)") == NestedImages
    ensures Render(ImageMarker, "b", "c") == "![b](c)"
  {
  }

  /** The outer marker is the whole text, so nothing is left around it, and
      the inner marker is then looked for in the empty rest. */
  lemma NestedCut()
    ensures Cut(NestedImages, [("a", "![b](c)"), ("b", "c")], ImageMarker)
            == [MarkerNode(ImageMarker, ("a", "![b](c)")), MarkerNode(ImageMarker, ("b", "c"))]
  {
    var t, m := NestedImages, ImageMarker;
    var pairs := [("a", "![b](c)"), ("b", "c")];
    NestedRender();
    FindIs(t, t, 0, 0);
    assert t[..0] == "" && t[|t|..] == "";
    assert SplitOnce(t, t) == ["", ""];
    assert SplitOnce("", Render(m, "b", "c")) == [""];
    assert pairs[1..][1..] == [];
    assert Cut("", pairs[1..], m) == [MarkerNode(m, pairs[1])];
  }

  /** Nested markers, as written: in `![a](![b](c))` the scan finds the
      outer image and, inside its url, the inner one; both become spans,
      and the spans spell the inner image twice. */
  lemma NestedImageSplit()
    ensures var ns := SplitOneMarker(Span(NestedImages, Text), ImageMarker);
            && ns == [MarkerNode(ImageMarker, ("a", "![b](c)")), MarkerNode(ImageMarker, ("b", "c"))]
            && Sources(ns, ImageMarker) == NestedImages + "![b](c)"
            && Sources(ns, ImageMarker) != NestedImages
  {
    var m := ImageMarker;
    NestedExtract();
    NestedCut();
    NestedRender();
    var ns := [MarkerNode(m, ("a", "![b](c)")), MarkerNode(m, ("b", "c"))];
    assert Sources(ns, m) == Render(m, "a", "![b](c)") + Render(m, "b", "c") by {
      assert Sources(ns[1..], m) == Render(m, "b", "c") + Sources([], m);
    }
    assert |NestedImages + "![b](c)"| != |NestedImages|;
  }
}
