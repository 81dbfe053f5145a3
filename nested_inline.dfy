/** The inline layer of the block translators (src/blocknode.py,
    `text_to_children` and `parse_nested_elements`): bold, italic and code
    runs found by the non-greedy patterns `\*\*(.+?)\*\*`, `_(.+?)_` and
    `` `(.+?)` `` become parent nodes over their recursively parsed content, and
    the text between them goes through the inline pipeline. */
module NestedInline {
  import opened Wrappers
  import opened Strings
  import opened HtmlNode
  import opened TextNode
  import opened TextToNodes

  // ---------------------------------------------------------------------
  // text_to_children
  // ---------------------------------------------------------------------

  /** Each span converted to its leaf, in order; the first span that cannot
      be converted (a link or image without url) stops the conversion. */
  function ToLeaves(ns: seq<TextNode>): Result<seq<HtmlNode>>
    decreases |ns|
  {
    if ns == [] then Ok([])
    else
      var init :- ToLeaves(ns[..|ns| - 1]);
      var leaf :- TextNodeToHtmlNode(ns[|ns| - 1]);
      Ok(init + [leaf])
  }

  /** Every span has a leaf. */
  predicate Convertible(ns: seq<TextNode>) {
    forall i :: 0 <= i < |ns| ==> TextNodeToHtmlNode(ns[i]).Ok?
  }

  /** The conversion succeeds exactly when every span converts; it then keeps
      one valid leaf per span, in order. */
  lemma ToLeavesSpec(ns: seq<TextNode>)
    ensures var r := ToLeaves(ns);
            && (r.Ok? <==> Convertible(ns))
            && (r.Err? ==> r.error == MissingUrl)
            && (r.Ok? ==> |r.value| == |ns| && AllValid(r.value)
                          && (forall i :: 0 <= i < |ns| ==> r.value[i] == TextNodeToHtmlNode(ns[i]).value))
  {
    ToLeavesSucceeds(ns);
    if ToLeaves(ns).Ok? {
      ToLeavesValues(ns);
    }
  }

  lemma {:induction false} ToLeavesSucceeds(ns: seq<TextNode>)
    ensures ToLeaves(ns).Ok? <==> Convertible(ns)
    ensures ToLeaves(ns).Err? ==> ToLeaves(ns).error == MissingUrl
    decreases |ns|
  {
    if ns != [] {
      var init := ns[..|ns| - 1];
      ToLeavesSucceeds(init);
      assert forall i :: 0 <= i < |init| ==> init[i] == ns[i];
      if ToLeaves(init).Err? {
        var i :| 0 <= i < |init| && !TextNodeToHtmlNode(init[i]).Ok?;
        assert ns[i] == init[i];
      }
    }
  }

  lemma {:induction false} ToLeavesValues(ns: seq<TextNode>)
    requires ToLeaves(ns).Ok?
    ensures var leaves := ToLeaves(ns).value;
            |leaves| == |ns| && AllValid(leaves)
            && forall i :: 0 <= i < |ns| ==> TextNodeToHtmlNode(ns[i]) == Ok(leaves[i])
    decreases |ns|
  {
    if ns != [] {
      var init := ns[..|ns| - 1];
      var before := ToLeaves(init).value;
      var leaf := TextNodeToHtmlNode(ns[|ns| - 1]).value;
      ToLeavesValues(init);
      assert ToLeaves(ns).value == before + [leaf];
      AllValidAppend(before, [leaf]);
      assert forall i :: 0 <= i < |init| ==> init[i] == ns[i];
    }
  }

  /** A failure in a prefix is the failure of the whole conversion. */
  lemma {:induction false} ToLeavesPrefixErr(ns: seq<TextNode>, k: nat)
    requires k <= |ns| && ToLeaves(ns[..k]).Err?
    ensures ToLeaves(ns) == ToLeaves(ns[..k])
    decreases |ns| - k
  {
    if k < |ns| {
      assert ns[..k + 1][..k] == ns[..k];
      ToLeavesPrefixErr(ns, k + 1);
    } else {
      assert ns[..k] == ns;
    }
  }

  /** `text_to_children(text)`: the inline pipeline, then every span
      converted to its leaf. */
  function Children(text: string): Result<seq<HtmlNode>> {
    var spans :- TextToTextNodes(text);
    ToLeaves(spans)
  }

  /** `text_to_children` as the source runs it: a loop appending one leaf
      per span. */
  method TextToChildren(text: string) returns (r: Result<seq<HtmlNode>>)
    ensures r == Children(text)
  {
    var spans := TextToTextNodes(text);
    if spans.Err? {
      return Err(spans.error);
    }
    var ns := spans.value;
    var childList: seq<HtmlNode> := [];
    for k := 0 to |ns|
      invariant ToLeaves(ns[..k]) == Ok(childList)
    {
      var prefix := ns[..k + 1];
      assert prefix[..k] == ns[..k] && prefix[k] == ns[k];
      var leaf := TextNodeToHtmlNode(ns[k]);
      if leaf.Err? {
        assert ToLeaves(prefix) == Err(leaf.error);
        ToLeavesPrefixErr(ns, k + 1);
        return Err(leaf.error);
      }
      assert ToLeaves(prefix) == Ok(childList + [leaf.value]);
      childList := childList + [leaf.value];
    }
    assert ns[..|ns|] == ns;
    return Ok(childList);
  }

  lemma ChildrenOf(text: string, spans: seq<TextNode>)
    requires TextToTextNodes(text) == Ok(spans)
    ensures Children(text) == ToLeaves(spans)
  {
  }

  /** Plain text without markup is one untagged leaf holding the text. */
  lemma PlainChildren(text: string)
    requires NoMarkup(text)
    ensures Children(text) == Ok([Leaf(None, Some(text), None)])
  {
    var n := [Span(text, Text)];
    assert ToLeaves(n) == Ok([Leaf(None, Some(text), None)]) by {
      assert n[..0] == [];
      assert ToLeaves(n[..0]) == Ok([]);
      var leaf := TextNodeToHtmlNode(n[0]);
      assert leaf == Ok(Leaf(None, Some(text), None));
      assert ToLeaves(n) == Ok(ToLeaves(n[..0]).value + [leaf.value]);
      assert ToLeaves(n[..0]).value + [leaf.value] == [Leaf(None, Some(text), None)];
    }
    assert TextToTextNodes(text) == Ok(n) by { PlainText(text); }
    ChildrenOf(text, n);
  }

  // ---------------------------------------------------------------------
  // The non-greedy search of `d(.+?)d`
  // ---------------------------------------------------------------------

  /** A match of `d(.+?)d`: the opening delimiter at `start`, the closing one
      at `close`; the content lies between them. */
  datatype Match = Match(start: nat, close: nat)

  /** The lazy `(.+?)d` tried with content ending at `k`, then `k + 1`, ...:
      every character taken must not be a newline, and the first `k` where
      `d` occurs is the close. */
  function CloseFrom(t: string, d: string, k: nat): (r: Option<nat>)
    requires 1 <= k <= |t|
    ensures r.Some? ==> k <= r.value && OccursAt(t, d, r.value)
    decreases |t| - k
  {
    if t[k - 1] == '\n' then None
    else if OccursAt(t, d, k) then Some(k)
    else if k == |t| then None
    else CloseFrom(t, d, k + 1)
  }

  /** The close for content starting at `c`: at least one character. */
  function Close(t: string, d: string, c: nat): (r: Option<nat>)
    ensures r.Some? ==> c < r.value && OccursAt(t, d, r.value)
  {
    if c < |t| then CloseFrom(t, d, c + 1) else None
  }

  /** `re.search`: the first start at or after `i` where the delimiter occurs
      and a close follows. */
  function SearchFrom(t: string, d: string, i: nat): (r: Option<Match>)
    ensures r.Some? ==> i <= r.value.start && OccursAt(t, d, r.value.start)
                        && r.value.start + |d| < r.value.close && OccursAt(t, d, r.value.close)
    decreases |t| - i
  {
    if i >= |t| then None
    else if OccursAt(t, d, i) && Close(t, d, i + |d|).Some? then Some(Match(i, Close(t, d, i + |d|).value))
    else SearchFrom(t, d, i + 1)
  }

  /** The content `t[c..k]` is the shortest non-empty run of non-newline
      characters followed by `d`. */
  ghost predicate LazyClose(t: string, d: string, c: nat, k: nat) {
    c < k && OccursAt(t, d, k) && (forall j :: c <= j < k ==> t[j] != '\n')
    && (forall j :: c < j < k ==> !OccursAt(t, d, j))
  }

  /** The pattern `d(.+?)d` matches at `s` with its close at `k`. */
  ghost predicate MatchAt(t: string, d: string, s: nat, k: nat) {
    OccursAt(t, d, s) && LazyClose(t, d, s + |d|, k)
  }

  lemma {:induction false} CloseFromSpec(t: string, d: string, c: nat, k: nat)
    requires c < k <= |t|
    requires forall j :: c <= j < k - 1 ==> t[j] != '\n'
    requires forall j :: c < j < k ==> !OccursAt(t, d, j)
    ensures var r := CloseFrom(t, d, k);
            && (r.Some? ==> LazyClose(t, d, c, r.value))
            && (r.None? ==> forall e :: !LazyClose(t, d, c, e))
    decreases |t| - k
  {
    if t[k - 1] == '\n' {
      forall e: nat | LazyClose(t, d, c, e)
        ensures false
      {
      }
    } else if !OccursAt(t, d, k) {
      if k == |t| {
        forall e: nat | LazyClose(t, d, c, e)
          ensures false
        {
        }
      } else {
        CloseFromSpec(t, d, c, k + 1);
      }
    }
  }

  lemma CloseSpec(t: string, d: string, c: nat)
    ensures var r := Close(t, d, c);
            && (r.Some? ==> LazyClose(t, d, c, r.value))
            && (r.None? ==> forall e :: !LazyClose(t, d, c, e))
  {
    if c < |t| {
      CloseFromSpec(t, d, c, c + 1);
    }
  }

  /** What the search reports is a match. */
  lemma {:induction false} SearchFound(t: string, d: string, i: nat)
    ensures var r := SearchFrom(t, d, i);
            r.Some? ==> MatchAt(t, d, r.value.start, r.value.close)
    decreases |t| - i
  {
    if i < |t| {
      if OccursAt(t, d, i) && Close(t, d, i + |d|).Some? {
        CloseSpec(t, d, i + |d|);
      } else {
        SearchFound(t, d, i + 1);
      }
    }
  }

  /** No start before the one the search reports matches, and when it
      reports nothing no start at all does. */
  lemma {:induction false} SearchLeftmost(t: string, d: string, i: nat)
    requires d != []
    ensures var r := SearchFrom(t, d, i);
            var end := if r.Some? then r.value.start else |t|;
            forall s, k :: i <= s < end ==> !MatchAt(t, d, s, k)
    decreases |t| - i
  {
    if i < |t| && !(OccursAt(t, d, i) && Close(t, d, i + |d|).Some?) {
      assert forall k: nat :: !MatchAt(t, d, i, k) by {
        CloseSpec(t, d, i + |d|);
      }
      SearchLeftmost(t, d, i + 1);
    }
  }

  /** The search finds the leftmost start where the pattern matches, with
      the shortest content; and it finds nothing exactly when the pattern
      matches nowhere at or after `i`. */
  lemma SearchSpec(t: string, d: string, i: nat)
    requires d != []
    ensures var r := SearchFrom(t, d, i);
            && (r.Some? ==> MatchAt(t, d, r.value.start, r.value.close)
                            && forall s, k :: i <= s < r.value.start ==> !MatchAt(t, d, s, k))
            && (r.None? ==> forall s, k :: i <= s ==> !MatchAt(t, d, s, k))
  {
    SearchFound(t, d, i);
    SearchLeftmost(t, d, i);
  }

  /** No match of `d(.+?)d` anywhere in `t`. */
  ghost predicate NoMatch(t: string, d: string) {
    forall s, k :: !MatchAt(t, d, s, k)
  }

  // ---------------------------------------------------------------------
  // parse_nested_elements
  // ---------------------------------------------------------------------

  /** A pattern found by the tokenizer: its delimiter, the tag of the node it
      makes and its match. */
  datatype Found = Found(delim: string, tag: string, m: Match)

  /** The tokenizer's patterns in the order it tries them: a delimiter and
      the tag of the node a match makes. */
  const Patterns: seq<(string, string)> := [("**", "b"), ("_", "i"), ("`", "code")]

  /** The patterns from the `k`-th on: the first one that matches anywhere
      in `t` wins, with its leftmost match. */
  function FirstOf(t: string, k: nat): (r: Option<Found>)
    requires k <= |Patterns|
    ensures r.Some? ==> r.value.delim != [] && r.value.m.start + |r.value.delim| < r.value.m.close
                        && r.value.m.close + |r.value.delim| <= |t|
    decreases |Patterns| - k
  {
    if k == |Patterns| then None
    else
      var m := SearchFrom(t, Patterns[k].0, 0);
      if m.Some? then Some(Found(Patterns[k].0, Patterns[k].1, m.value)) else FirstOf(t, k + 1)
  }

  /** The match the tokenizer takes in `t`, if any. */
  function FirstMatch(t: string): (r: Option<Found>)
    ensures r.Some? ==> r.value.delim != [] && r.value.m.start + |r.value.delim| < r.value.m.close
                        && r.value.m.close + |r.value.delim| <= |t|
  {
    FirstOf(t, 0)
  }

  /** Bold is tried first, then italic, then code: a pattern is chosen only
      when the ones before it match nowhere, its match is the leftmost one
      with the shortest content, and nothing is chosen exactly when no
      pattern matches. */
  lemma FirstMatchSpec(t: string)
    ensures var r := FirstMatch(t);
            && (r.None? <==> NoMatch(t, "**") && NoMatch(t, "_") && NoMatch(t, "`"))
            && (r.Some? ==> && (r.value.delim, r.value.tag) in {("**", "b"), ("_", "i"), ("`", "code")}
                            && MatchAt(t, r.value.delim, r.value.m.start, r.value.m.close)
                            && (forall s: nat, k: nat :: s < r.value.m.start ==> !MatchAt(t, r.value.delim, s, k))
                            && (r.value.delim != "**" ==> NoMatch(t, "**"))
                            && (r.value.delim == "`" ==> NoMatch(t, "_")))
  {
    SearchSpec(t, "**", 0);
    SearchSpec(t, "_", 0);
    SearchSpec(t, "`", 0);
  }

  /** The nodes `done`, then those of `r`; a failure stays a failure. */
  function Then(done: seq<HtmlNode>, r: Result<seq<HtmlNode>>): Result<seq<HtmlNode>> {
    if r.Ok? then Ok(done + r.value) else r
  }

  lemma ThenThen(a: seq<HtmlNode>, b: seq<HtmlNode>, r: Result<seq<HtmlNode>>)
    ensures Then(a, Then(b, r)) == Then(a + b, r)
  {
    if r.Ok? {
      AppendAssoc(a, b, r.value);
    }
  }

  /** `parse_nested_elements(text)`: an empty text is one empty leaf. */
  function ParseNested(text: string): Result<seq<HtmlNode>>
    decreases |text|, 1
  {
    if |text| == 0 then Ok([Leaf(None, Some(""), None)]) else Scan(text)
  }

  /** The tokenizer loop over the text still to read: without a match the
      text goes to the inline pipeline; with one, the text before it does,
      the content becomes a node of the pattern's tag over its own parse, and
      the loop goes on after the closing delimiter. */
  function Scan(t: string): Result<seq<HtmlNode>>
    decreases |t|, 0
  {
    if |t| == 0 then Ok([])
    else
      match FirstMatch(t)
      case None => Children(t)
      case Some(f) =>
        AtMatch(t, f, ParseNested(Content(t, f)), Scan(Rest(t, f)))
  }

  /** The value of `Scan` at the match `f`, given the parse of its content
      and the value of the rest: the text before the match, then the node
      over the content, then the rest; the first failure wins. */
  function AtMatch(t: string, f: Found, inner: Result<seq<HtmlNode>>, rest: Result<seq<HtmlNode>>): Result<seq<HtmlNode>>
    requires f.m.start <= |t|
  {
    var prefix :- PrefixOf(t, f);
    var children :- inner;
    var node :- NewParent(Some(f.tag), Somes(children), None);
    Then(prefix + [node], rest)
  }

  /** The content of the match `f`: the text between its delimiters. */
  function Content(t: string, f: Found): (c: string)
    requires f.delim != [] && f.m.start + |f.delim| <= f.m.close <= |t|
    ensures |c| < |t|
  {
    t[f.m.start + |f.delim|..f.m.close]
  }

  /** The text after the closing delimiter of `f`. */
  function Rest(t: string, f: Found): (r: string)
    requires f.m.start < f.m.close && f.m.close + |f.delim| <= |t|
    ensures |r| < |t|
  {
    t[f.m.close + |f.delim|..]
  }

  /** The text before the match, through the inline pipeline. */
  function PrefixOf(t: string, f: Found): Result<seq<HtmlNode>>
    requires f.m.start <= |t|
  {
    if f.m.start > 0 then Children(t[..f.m.start]) else Ok([])
  }

  /** `Scan` at its first match. */
  lemma ScanAt(t: string, f: Found)
    requires |t| > 0 && FirstMatch(t) == Some(f)
    ensures Scan(t) == AtMatch(t, f, ParseNested(Content(t, f)), Scan(Rest(t, f)))
  {
  }

  lemma ScanPrefixErr(t: string, f: Found)
    requires |t| > 0 && FirstMatch(t) == Some(f) && PrefixOf(t, f).Err?
    ensures Scan(t) == Err(PrefixOf(t, f).error)
  {
    ScanAt(t, f);
  }

  lemma ScanInnerErr(t: string, f: Found, prefix: seq<HtmlNode>)
    requires |t| > 0 && FirstMatch(t) == Some(f) && PrefixOf(t, f) == Ok(prefix)
    requires ParseNested(Content(t, f)).Err?
    ensures Scan(t) == Err(ParseNested(Content(t, f)).error)
  {
    ScanAt(t, f);
  }

  lemma ScanNodeErr(t: string, f: Found, prefix: seq<HtmlNode>, inner: seq<HtmlNode>)
    requires |t| > 0 && FirstMatch(t) == Some(f) && PrefixOf(t, f) == Ok(prefix)
    requires ParseNested(Content(t, f)) == Ok(inner)
    requires NewParent(Some(f.tag), Somes(inner), None).Err?
    ensures Scan(t) == Err(NewParent(Some(f.tag), Somes(inner), None).error)
  {
    ScanAt(t, f);
  }

  lemma ScanMatch(t: string, f: Found, prefix: seq<HtmlNode>, inner: seq<HtmlNode>, node: HtmlNode)
    requires |t| > 0 && FirstMatch(t) == Some(f) && PrefixOf(t, f) == Ok(prefix)
    requires ParseNested(Content(t, f)) == Ok(inner)
    requires NewParent(Some(f.tag), Somes(inner), None) == Ok(node)
    ensures Scan(t) == Then(prefix + [node], Scan(Rest(t, f)))
  {
    ScanAt(t, f);
  }

  /** `parse_nested_elements` as the source runs it: a loop that consumes
      the text match by match, extending `children`. */
  method ParseNestedElements(text: string) returns (r: Result<seq<HtmlNode>>)
    ensures r == ParseNested(text)
    decreases |text|, 1
  {
    if text == [] {
      return Ok([Leaf(None, Some(""), None)]);
    }
    var children: seq<HtmlNode> := [];
    var t := text;
    assert Scan(text) == Then(children, Scan(t)) by {
      if Scan(text).Ok? {
        assert children + Scan(text).value == Scan(text).value;
      }
    }
    while t != []
      invariant |t| <= |text|
      invariant Scan(text) == Then(children, Scan(t))
      decreases |t|
    {
      var found := FirstMatch(t);
      if found.None? {
        var plain := TextToChildren(t);
        return Then(children, plain);
      }
      var f := found.value;
      var nodes := MatchNodes(t, f);
      if nodes.Err? {
        return Err(nodes.error);
      }
      var rest := Rest(t, f);
      ThenThen(children, nodes.value, Scan(rest));
      children := children + nodes.value;
      t := rest;
    }
    assert children + [] == children;
    return Ok(children);
  }

  /** One pass of the loop at a match: the text before it through the
      inline pipeline, then the node of the pattern's tag over the parse of
      the content (a recursive call). */
  method MatchNodes(t: string, f: Found) returns (r: Result<seq<HtmlNode>>)
    requires t != [] && FirstMatch(t) == Some(f)
    ensures r.Ok? ==> Scan(t) == Then(r.value, Scan(Rest(t, f)))
    ensures r.Err? ==> Scan(t) == Err(r.error)
    decreases |t|, 0
  {
    var prefix: seq<HtmlNode> := [];
    if f.m.start > 0 {
      var plain := TextToChildren(t[..f.m.start]);
      if plain.Err? {
        ScanPrefixErr(t, f);
        return Err(plain.error);
      }
      prefix := plain.value;
    }
    var inner := ParseNestedElements(Content(t, f));
    if inner.Err? {
      ScanInnerErr(t, f, prefix);
      return Err(inner.error);
    }
    var node := NewParent(Some(f.tag), Somes(inner.value), None);
    if node.Err? {
      ScanNodeErr(t, f, prefix, inner.value);
      return Err(node.error);
    }
    ScanMatch(t, f, prefix, inner.value, node.value);
    return Ok(prefix + [node.value]);
  }

  /** A delimiter occurs only where its first character does. */
  lemma NoMatchWithout(t: string, d: string)
    requires d != [] && Lacks(t, d[0])
    ensures NoMatch(t, d)
  {
    forall s: nat, k: nat | MatchAt(t, d, s, k)
      ensures false
    {
    }
  }

  /** The empty text is one empty untagged leaf. */
  lemma EmptyNested()
    ensures ParseNested("") == Ok([Leaf(None, Some(""), None)])
  {
  }

  /** Text without markup is one untagged leaf holding it. */
  lemma PlainNested(text: string)
    requires text != [] && NoMarkup(text)
    ensures ParseNested(text) == Ok([Leaf(None, Some(text), None)])
  {
    assert "**"[0] == '*' && "_"[0] == '_' && "`"[0] == '`';
    NoMatchWithout(text, "**");
    NoMatchWithout(text, "_");
    NoMatchWithout(text, "`");
    FirstMatchSpec(text);
    PlainChildren(text);
  }

  /** The lazy close is unique. */
  lemma LazyCloseUnique(t: string, d: string, c: nat, k1: nat, k2: nat)
    requires LazyClose(t, d, c, k1) && LazyClose(t, d, c, k2)
    ensures k1 == k2
  {
  }

  /** In `**w**` the bold pattern matches at the front, closing at the end. */
  lemma BoldMatch(w: string)
    requires w != [] && NoMarkup(w) && HasNoNewline(w)
    ensures FirstMatch("**" + w + "**") == Some(Found("**", "b", Match(0, |w| + 2)))
  {
    var t := "**" + w + "**";
    var e := |w| + 2;
    assert MatchAt(t, "**", 0, e) by {
      assert t[0..2] == "**" && t[e..e + 2] == "**";
      forall j | 2 <= j < e
        ensures t[j] != '\n' && !OccursAt(t, "**", j)
      {
        assert t[j] == w[j - 2];
      }
    }
    var m := SearchFrom(t, "**", 0);
    assert m == Some(Match(0, e)) by {
      SearchSpec(t, "**", 0);
      LazyCloseUnique(t, "**", 2, m.value.close, e);
    }
  }

  /** `**w**` around a word without markup or newline is one bold node over
      the word's leaf. */
  lemma BoldWord(w: string)
    requires w != [] && NoMarkup(w) && HasNoNewline(w)
    ensures ParseNested("**" + w + "**") == Ok([Parent("b", [Leaf(None, Some(w), None)], None)])
  {
    var t := "**" + w + "**";
    var e := |w| + 2;
    assert t[2..e] == w;
    var f := Found("**", "b", Match(0, e));
    BoldMatch(w);
    var leaf := Leaf(None, Some(w), None);
    PlainNested(w);
    PresentSomes([leaf]);
    var node := Parent("b", [leaf], None);
    ScanMatch(t, f, [], [leaf], node);
    assert t[e + 2..] == [];
    assert Scan(t[e + 2..]) == Ok([]);
    assert ([] + [node]) + [] == [node];
    assert ParseNested(t) == Scan(t);
  }
}
