/** The single-pair delimiter splitter (src/splitnodes.py): each plain-text
    span containing one `delim ... delim` pair is cut into the text before
    it, the delimited span and the text after it. */
module SplitNodes {
  import opened Wrappers
  import opened Strings
  import opened TextNode

  /** The middle of a pair: whitespace-only content is emptied except in code. */
  function Middle(mid: string, textType: TextType): (r: string)
    ensures r == mid || (r == [] && textType != Code && AllSpace(mid))
    ensures textType != Code && AllSpace(mid) ==> r == []
  {
    if textType != Code && AllSpace(mid) then [] else mid
  }

  /** One iteration of the loop of `split_nodes_delimiter`, on one node. When
      the first search fails the second fails too, so the source's test
      `start == -1 and end == -1` is the test `start == -1`. */
  function SplitOne(node: TextNode, delimiter: string, textType: TextType): (r: Result<seq<TextNode>>)
    ensures r.Ok? ==> 1 <= |r.value| <= 3
    ensures r.Err? ==> r.error in {InvalidMarkdownSyntax, WrongNumberOfDelimiters}
  {
    if node.textType != Text then Ok([node])
    else
      var t := node.text;
      var length := |delimiter|;
      var start := Find(t, delimiter, 0);
      if start == -1 then Ok([node])
      else
        var end := Find(t, delimiter, start + length);
        if end == -1 then Err(InvalidMarkdownSyntax)
        else if Find(t, delimiter, end + length) != -1 then Err(WrongNumberOfDelimiters)
        else Ok(Pieces(t[..start], t[start + length..end], t[end + length..], textType))
  }

  /** The nodes a pair cuts its text into: the text before it, the
      delimited span and the text after it. */
  function Pieces(before: string, mid: string, after: string, textType: TextType): (r: seq<TextNode>)
    ensures 1 <= |r| <= 3
  {
    Piece(before) + [Span(Middle(mid, textType), textType)] + Piece(after)
  }

  /** `split_nodes_delimiter(old_nodes, delimiter, text_type)`: the nodes'
      pieces in order, or the first node's error. */
  function DelimiterSplit(nodes: seq<TextNode>, delimiter: string, textType: TextType): (r: Result<seq<TextNode>>)
    ensures r.Ok? ==> |nodes| <= |r.value| <= 3 * |nodes|
    ensures r.Err? ==> r.error in {InvalidMarkdownSyntax, WrongNumberOfDelimiters}
    decreases |nodes|
  {
    if nodes == [] then Ok([])
    else
      var init :- DelimiterSplit(nodes[..|nodes| - 1], delimiter, textType);
      var last :- SplitOne(nodes[|nodes| - 1], delimiter, textType);
      Ok(init + last)
  }

  /** Two results in sequence: the first error, or both outputs in order. */
  function Then(r1: Result<seq<TextNode>>, r2: Result<seq<TextNode>>): (r: Result<seq<TextNode>>)
    ensures r.Ok? <==> r1.Ok? && r2.Ok?
    ensures r.Ok? ==> r.value == r1.value + r2.value
    ensures r.Err? ==> r == (if r1.Err? then r1 else r2)
  {
    if r1.Err? then r1 else if r2.Err? then r2 else Ok(r1.value + r2.value)
  }

  lemma DelimiterSplitSnoc(nodes: seq<TextNode>, x: TextNode, delimiter: string, textType: TextType)
    ensures DelimiterSplit(nodes + [x], delimiter, textType)
            == Then(DelimiterSplit(nodes, delimiter, textType), SplitOne(x, delimiter, textType))
  {
    assert (nodes + [x])[..|nodes|] == nodes;
  }

  /** An error in a prefix of the nodes is the error of the whole list. */
  lemma {:induction false} DelimiterSplitPrefixErr(nodes: seq<TextNode>, k: nat, delimiter: string, textType: TextType)
    requires k <= |nodes|
    requires DelimiterSplit(nodes[..k], delimiter, textType).Err?
    ensures DelimiterSplit(nodes, delimiter, textType) == DelimiterSplit(nodes[..k], delimiter, textType)
    decreases |nodes| - k
  {
    if k < |nodes| {
      assert nodes[..k + 1] == nodes[..k] + [nodes[k]];
      DelimiterSplitSnoc(nodes[..k], nodes[k], delimiter, textType);
      DelimiterSplitPrefixErr(nodes, k + 1, delimiter, textType);
    } else {
      assert nodes[..k] == nodes;
    }
  }

  /** Each input node contributes its own contiguous run of output nodes, in
      input order; the first failing node decides the error. */
  lemma {:induction false} DelimiterSplitAppend(a: seq<TextNode>, b: seq<TextNode>, delimiter: string, textType: TextType)
    ensures DelimiterSplit(a + b, delimiter, textType)
            == Then(DelimiterSplit(a, delimiter, textType), DelimiterSplit(b, delimiter, textType))
    decreases |b|
  {
    var ra := DelimiterSplit(a, delimiter, textType);
    if b == [] {
      assert a + b == a;
      if ra.Ok? {
        assert ra.value + [] == ra.value;
      }
    } else {
      var b' := b[..|b| - 1];
      var x := b[|b| - 1];
      var rb' := DelimiterSplit(b', delimiter, textType);
      var rx := SplitOne(x, delimiter, textType);
      assert DelimiterSplit(a + b, delimiter, textType)
          == Then(DelimiterSplit(a + b', delimiter, textType), rx) by {
        assert a + b == (a + b') + [x];
        DelimiterSplitSnoc(a + b', x, delimiter, textType);
      }
      assert DelimiterSplit(b, delimiter, textType) == Then(rb', rx) by {
        assert b == b' + [x];
        DelimiterSplitSnoc(b', x, delimiter, textType);
      }
      DelimiterSplitAppend(a, b', delimiter, textType);
      ThenAssoc(ra, rb', rx);
    }
  }

  lemma ThenAssoc(r1: Result<seq<TextNode>>, r2: Result<seq<TextNode>>, r3: Result<seq<TextNode>>)
    ensures Then(Then(r1, r2), r3) == Then(r1, Then(r2, r3))
  {
    if r1.Ok? && r2.Ok? && r3.Ok? {
      assert r1.value + r2.value + r3.value == r1.value + (r2.value + r3.value);
    }
  }

  /** A list without plain-text nodes passes through unchanged. */
  lemma {:induction false} DelimiterSplitNoText(nodes: seq<TextNode>, delimiter: string, textType: TextType)
    requires forall i :: 0 <= i < |nodes| ==> nodes[i].textType != Text
    ensures DelimiterSplit(nodes, delimiter, textType) == Ok(nodes)
    decreases |nodes|
  {
    if nodes != [] {
      DelimiterSplitNoText(nodes[..|nodes| - 1], delimiter, textType);
      assert nodes[..|nodes| - 1] + [nodes[|nodes| - 1]] == nodes;
    }
  }

  /** A plain-text node without the delimiter is kept as it is. */
  lemma SplitOneNoOccurrence(node: TextNode, delimiter: string, textType: TextType)
    requires node.textType == Text
    requires forall i :: !OccursAt(node.text, delimiter, i)
    ensures SplitOne(node, delimiter, textType) == Ok([node])
  {
    FindIs(node.text, delimiter, 0, -1);
  }

  /** A delimiter that opens but never closes is refused. */
  lemma SplitOneUnpaired(node: TextNode, delimiter: string, textType: TextType, s: nat)
    requires node.textType == Text
    requires OccursAt(node.text, delimiter, s)
    requires forall i :: 0 <= i < s ==> !OccursAt(node.text, delimiter, i)
    requires forall i :: s + |delimiter| <= i ==> !OccursAt(node.text, delimiter, i)
    ensures SplitOne(node, delimiter, textType) == Err(InvalidMarkdownSyntax)
  {
    FindIs(node.text, delimiter, 0, s);
    FindIs(node.text, delimiter, s + |delimiter|, -1);
  }

  /** Three delimiters that do not overlap are refused. */
  lemma SplitOneThird(node: TextNode, delimiter: string, textType: TextType, s: nat, e: nat, f: nat)
    requires node.textType == Text
    requires OccursAt(node.text, delimiter, s) && OccursAt(node.text, delimiter, e)
             && OccursAt(node.text, delimiter, f)
    requires s + |delimiter| <= e && e + |delimiter| <= f
    ensures SplitOne(node, delimiter, textType) == Err(WrongNumberOfDelimiters)
  {
    var t := node.text;
    FindAtMost(t, delimiter, 0, s);
    var start := Find(t, delimiter, 0);
    FindAtMost(t, delimiter, start + |delimiter|, e);
    var end := Find(t, delimiter, start + |delimiter|);
    FindAtMost(t, delimiter, end + |delimiter|, f);
    SplitOneExtra(node, delimiter, textType, start, end);
  }

  /** The empty delimiter always counts as too many delimiters. */
  lemma SplitOneEmptyDelimiter(node: TextNode, textType: TextType)
    requires node.textType == Text
    ensures SplitOne(node, [], textType) == Err(WrongNumberOfDelimiters)
  {
    SplitOneThird(node, [], textType, 0, 0, 0);
  }

  /** A single pair splits the text into the part before it, the delimited
      span (of the requested kind, emptied when blank unless it is code) and
      the part after it; the outer parts are dropped when empty, and the
      pieces reassemble, with the delimiters, into the original text. */
  lemma SplitOnePair(node: TextNode, delimiter: string, textType: TextType, s: nat, e: nat)
    requires node.textType == Text && delimiter != []
    requires OccursAt(node.text, delimiter, s) && OccursAt(node.text, delimiter, e)
    requires s + |delimiter| <= e
    requires forall i :: 0 <= i < s ==> !OccursAt(node.text, delimiter, i)
    requires forall i :: s + |delimiter| <= i < e ==> !OccursAt(node.text, delimiter, i)
    requires forall i :: e + |delimiter| <= i ==> !OccursAt(node.text, delimiter, i)
    ensures var t := node.text;
            var before := t[..s];
            var mid := t[s + |delimiter|..e];
            var after := t[e + |delimiter|..];
            && t == before + delimiter + mid + delimiter + after
            && SplitOne(node, delimiter, textType)
               == Ok(Pieces(before, mid, after, textType))
  {
    var t := node.text;
    PairFinds(t, delimiter, s, e);
    SplitOneAt(node, delimiter, textType, s, e);
    Reassemble(t, delimiter, s, e);
  }

  /** The success branch of `SplitOne`, once the three searches are known. */
  lemma SplitOneAt(node: TextNode, delimiter: string, textType: TextType, s: nat, e: nat)
    requires node.textType == Text
    requires s + |delimiter| <= e && e + |delimiter| <= |node.text|
    requires Find(node.text, delimiter, 0) == s
    requires Find(node.text, delimiter, s + |delimiter|) == e
    requires Find(node.text, delimiter, e + |delimiter|) == -1
    ensures SplitOne(node, delimiter, textType)
            == Ok(Pieces(node.text[..s], node.text[s + |delimiter|..e], node.text[e + |delimiter|..], textType))
  {
  }

  lemma PairFinds(t: string, delimiter: string, s: nat, e: nat)
    requires OccursAt(t, delimiter, s) && OccursAt(t, delimiter, e)
    requires s + |delimiter| <= e
    requires forall i :: 0 <= i < s ==> !OccursAt(t, delimiter, i)
    requires forall i :: s + |delimiter| <= i < e ==> !OccursAt(t, delimiter, i)
    requires forall i :: e + |delimiter| <= i ==> !OccursAt(t, delimiter, i)
    ensures Find(t, delimiter, 0) == s
    ensures Find(t, delimiter, s + |delimiter|) == e
    ensures Find(t, delimiter, e + |delimiter|) == -1
  {
    FindIs(t, delimiter, 0, s);
    FindIs(t, delimiter, s + |delimiter|, e);
    FindIs(t, delimiter, e + |delimiter|, -1);
  }

  lemma Reassemble(t: string, delimiter: string, s: nat, e: nat)
    requires OccursAt(t, delimiter, s) && OccursAt(t, delimiter, e)
    requires s + |delimiter| <= e
    ensures t == t[..s] + delimiter + t[s + |delimiter|..e] + delimiter + t[e + |delimiter|..]
  {
    assert t == t[..s] + t[s..s + |delimiter|] + t[s + |delimiter|..e] + t[e..e + |delimiter|] + t[e + |delimiter|..];
  }

  lemma SplitOneNoStart(node: TextNode, delimiter: string, textType: TextType)
    requires node.textType == Text && Find(node.text, delimiter, 0) == -1
    ensures SplitOne(node, delimiter, textType) == Ok([node])
  {
  }

  lemma SplitOneNoEnd(node: TextNode, delimiter: string, textType: TextType, s: nat)
    requires node.textType == Text && Find(node.text, delimiter, 0) == s
    requires Find(node.text, delimiter, s + |delimiter|) == -1
    ensures SplitOne(node, delimiter, textType) == Err(InvalidMarkdownSyntax)
  {
  }

  lemma SplitOneExtra(node: TextNode, delimiter: string, textType: TextType, s: nat, e: nat)
    requires node.textType == Text && Find(node.text, delimiter, 0) == s
    requires Find(node.text, delimiter, s + |delimiter|) == e
    requires Find(node.text, delimiter, e + |delimiter|) != -1
    ensures SplitOne(node, delimiter, textType) == Err(WrongNumberOfDelimiters)
  {
    var t := node.text;
    assert Find(t, delimiter, 0) != -1;
    assert Find(t, delimiter, s + |delimiter|) != -1;
    assert Find(t, delimiter, e + |delimiter|) != -1;
  }

  /** Every span is plain text or of kind `textType`. */
  predicate OnlyKinds(ns: seq<TextNode>, textType: TextType) {
    forall i :: 0 <= i < |ns| ==> ns[i].textType == Text || ns[i].textType == textType
  }

  lemma PiecesKinds(before: string, mid: string, after: string, textType: TextType)
    ensures OnlyKinds(Pieces(before, mid, after, textType), textType)
  {
  }

  /** A node is kept as it is, or it is a plain-text node cut into plain
      text and spans of the pass's kind. */
  lemma SplitOneKinds(node: TextNode, delimiter: string, textType: TextType)
    ensures var r := SplitOne(node, delimiter, textType);
            r.Ok? ==> r.value == [node] || (node.textType == Text && OnlyKinds(r.value, textType))
  {
    if node.textType == Text {
      var t := node.text;
      var length := |delimiter|;
      var start := Find(t, delimiter, 0);
      if start == -1 {
        SplitOneNoStart(node, delimiter, textType);
      } else {
        var end := Find(t, delimiter, start + length);
        if end == -1 {
          SplitOneNoEnd(node, delimiter, textType, start);
        } else if Find(t, delimiter, end + length) != -1 {
          SplitOneExtra(node, delimiter, textType, start, end);
        } else {
          var pieces := Pieces(t[..start], t[start + length..end], t[end + length..], textType);
          assert SplitOne(node, delimiter, textType) == Ok(pieces) by {
            SplitOneAt(node, delimiter, textType, start, end);
          }
          PiecesKinds(t[..start], t[start + length..end], t[end + length..], textType);
        }
      }
    }
  }

  /** The body of the loop of `split_nodes_delimiter`, on one node, as the
      source runs it: two searches, the error checks, then the pieces built
      one by one. */
  method SplitNode(node: TextNode, delimiter: string, textType: TextType)
    returns (r: Result<seq<TextNode>>)
    ensures r == SplitOne(node, delimiter, textType)
  {
    var length := |delimiter|;
    if node.textType != Text {
      return Ok([node]);
    }
    var start := Find(node.text, delimiter, 0);
    var end := if start == -1 then -1 else Find(node.text, delimiter, start + length);
    if start == -1 && end == -1 {
      SplitOneNoStart(node, delimiter, textType);
      r := Ok([node]);
    } else if start != -1 && end == -1 {
      SplitOneNoEnd(node, delimiter, textType, start);
      r := Err(InvalidMarkdownSyntax);
    } else if Find(node.text, delimiter, end + length) != -1 {
      SplitOneExtra(node, delimiter, textType, start, end);
      r := Err(WrongNumberOfDelimiters);
    } else {
      var pieces := BuildPieces(node.text, length, start, end, textType);
      SplitOneAt(node, delimiter, textType, start, end);
      r := Ok(pieces);
    }
  }

  /** The pieces appended one by one in the success branch. */
  method BuildPieces(t: string, length: nat, start: nat, end: nat, textType: TextType)
    returns (pieces: seq<TextNode>)
    requires start + length <= end && end + length <= |t|
    ensures pieces == Pieces(t[..start], t[start + length..end], t[end + length..], textType)
  {
    pieces := [];
    if start > 0 {
      pieces := pieces + [Span(t[..start], Text)];
    }
    assert pieces == Piece(t[..start]);
    var middle := t[start + length..end];
    StripEmpty(middle);
    if textType != Code && Strip(middle) == [] {
      middle := [];
    }
    pieces := pieces + [Span(middle, textType)];
    if end + length < |t| {
      pieces := pieces + [Span(t[end + length..], Text)];
    }
  }

  /** `split_nodes_delimiter` as the source runs it: one pass over the nodes,
      appending each node's pieces, raising at the first malformed node. */
  method SplitNodesDelimiter(oldNodes: seq<TextNode>, delimiter: string, textType: TextType)
    returns (r: Result<seq<TextNode>>)
    ensures r == DelimiterSplit(oldNodes, delimiter, textType)
  {
    var newNodes: seq<TextNode> := [];
    for k := 0 to |oldNodes|
      invariant DelimiterSplit(oldNodes[..k], delimiter, textType) == Ok(newNodes)
    {
      var node := oldNodes[k];
      assert oldNodes[..k + 1] == oldNodes[..k] + [node];
      DelimiterSplitSnoc(oldNodes[..k], node, delimiter, textType);
      var pieces := SplitNode(node, delimiter, textType);
      if pieces.Err? {
        DelimiterSplitPrefixErr(oldNodes, k + 1, delimiter, textType);
        return pieces;
      }
      newNodes := newNodes + pieces.value;
    }
    assert oldNodes[..|oldNodes|] == oldNodes;
    return Ok(newNodes);
  }
}
