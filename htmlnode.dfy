/** The HTML node tree (src/htmlnode.py): leaf and parent nodes, their
    validating constructors, attribute rendering and serialisation. A node is
    a value: its fields are set once by the constructor and never updated. */
module HtmlNode {
  import opened Wrappers
  import opened Strings

  /** Tags rendered as `<tag ... />`, whose leaves need no value. */
  const SelfClosingTags: set<string> :=
    {"img", "br", "hr", "input", "meta", "link", "base", "area", "col", "embed",
     "source", "track", "wbr"}

  /** One `key: value` entry of a node's `props` dictionary. */
  datatype Attr = Attr(name: string, value: string)

  /** `props` is None or a dictionary, kept as its entries in insertion order.
      `children` of a parent holds the nodes left after its constructor
      dropped the None entries. */
  datatype HtmlNode =
    | Leaf(leafTag: Option<string>, value: Option<string>, props: Option<seq<Attr>>)
    | Parent(tag: string, children: seq<HtmlNode>, props: Option<seq<Attr>>)

  predicate SelfClosing(tag: Option<string>) {
    tag.Some? && tag.value in SelfClosingTags
  }

  /** What the constructors guarantee of every node they build: a leaf has a
      value unless its tag is self-closing, and a parent has at least one child,
      all of them valid in turn. */
  predicate Valid(n: HtmlNode)
    decreases n
  {
    match n
    case Leaf(tag, value, _) => value.Some? || SelfClosing(tag)
    case Parent(_, children, _) =>
      children != [] && forall i :: 0 <= i < |children| ==> Valid(children[i])
  }

  predicate AllValid(ns: seq<HtmlNode>) {
    forall i :: 0 <= i < |ns| ==> Valid(ns[i])
  }

  /** `LeafNode(tag, value, props)` */
  function NewLeaf(tag: Option<string>, value: Option<string>, props: Option<seq<Attr>>): (r: Result<HtmlNode>)
    ensures r.Ok? <==> value.Some? || SelfClosing(tag)
    ensures r.Err? ==> r.error == MissingValue
    ensures r.Ok? ==> Valid(r.value) && r.value.Leaf? && r.value.leafTag == tag
                      && r.value.value == value && r.value.props == props
  {
    if value.None? && !SelfClosing(tag) then Err(MissingValue)
    else Ok(Leaf(tag, value, props))
  }

  /** The entries of `cs` that are not None, in order: the `filter` of the
      parent constructor. */
  function Present(cs: seq<Option<HtmlNode>>): (r: seq<HtmlNode>)
    ensures |r| <= |cs|
    decreases |cs|
  {
    if cs == [] then []
    else Present(cs[..|cs| - 1]) + (if cs[|cs| - 1].Some? then [cs[|cs| - 1].value] else [])
  }

  /** Every node of `ns`, wrapped: a list without None entries. */
  function Somes(ns: seq<HtmlNode>): (r: seq<Option<HtmlNode>>)
    ensures |r| == |ns|
    ensures forall i :: 0 <= i < |ns| ==> r[i] == Some(ns[i])
  {
    seq(|ns|, i requires 0 <= i < |ns| => Some(ns[i]))
  }

  lemma PresentSnoc(cs: seq<Option<HtmlNode>>, c: Option<HtmlNode>)
    ensures Present(cs + [c]) == Present(cs) + (if c.Some? then [c.value] else [])
  {
    assert (cs + [c])[..|cs|] == cs;
  }

  lemma {:induction false} PresentAppend(a: seq<Option<HtmlNode>>, b: seq<Option<HtmlNode>>)
    ensures Present(a + b) == Present(a) + Present(b)
    decreases |b|
  {
    if b == [] {
      assert a + b == a;
    } else {
      var init := b[..|b| - 1];
      var c := b[|b| - 1];
      assert b == init + [c];
      assert a + b == (a + init) + [c];
      PresentSnoc(a + init, c);
      PresentSnoc(init, c);
      PresentAppend(a, init);
    }
  }

  /** Filtering keeps every node, in order, and drops every None. */
  lemma {:induction false} PresentSomes(ns: seq<HtmlNode>)
    ensures Present(Somes(ns)) == ns
    decreases |ns|
  {
    if ns != [] {
      var init := ns[..|ns| - 1];
      assert Somes(ns)[..|ns| - 1] == Somes(init);
      PresentSomes(init);
      assert ns == init + [ns[|ns| - 1]];
    }
  }

  /** A list of only None entries filters down to nothing. */
  lemma {:induction false} PresentNone(cs: seq<Option<HtmlNode>>)
    requires forall i :: 0 <= i < |cs| ==> cs[i].None?
    ensures Present(cs) == []
    decreases |cs|
  {
    if cs != [] {
      PresentNone(cs[..|cs| - 1]);
    }
  }

  /** The filtered children are exactly the present ones, in their order. */
  lemma {:induction false} PresentMembers(cs: seq<Option<HtmlNode>>, n: HtmlNode)
    ensures n in Present(cs) <==> Some(n) in cs
    decreases |cs|
  {
    if cs != [] {
      PresentMembers(cs[..|cs| - 1], n);
      assert cs == cs[..|cs| - 1] + [cs[|cs| - 1]];
    }
  }

  /** `ParentNode(tag, children, props)`: a missing tag, an empty child list
      and a list of only None entries are refused; otherwise the node keeps
      the present children in order. */
  function NewParent(tag: Option<string>, children: seq<Option<HtmlNode>>, props: Option<seq<Attr>>): (r: Result<HtmlNode>)
    ensures r.Ok? <==> tag.Some? && Present(children) != []
    ensures tag.None? ==> r == Err(MissingTag)
    ensures tag.Some? && Present(children) == [] ==> r == Err(NoChildren)
    ensures r.Ok? ==> r.value.Parent? && r.value.tag == tag.value
                      && r.value.children == Present(children) && r.value.props == props
    ensures r.Ok? && AllValid(Present(children)) ==> Valid(r.value)
  {
    if tag.None? then Err(MissingTag)
    else if children == [] then Err(NoChildren)
    else
      var filtered := Present(children);
      if filtered == [] then Err(NoChildren)
      else Ok(Parent(tag.value, filtered, props))
  }

  /** `value.replace('"', "&quot;")` */
  function EscapeQuotes(v: string): string
    decreases |v|
  {
    if v == [] then []
    else (if v[0] == '"' then "&quot;" else [v[0]]) + EscapeQuotes(v[1..])
  }

  /** No double quote is left, and a value without one is unchanged. A
      double quote on its own becomes `&quot;` and any other character stays
      as it is. */
  lemma {:induction false} EscapeQuotesFacts(v: string)
    ensures '"' !in EscapeQuotes(v)
    ensures '"' !in v ==> EscapeQuotes(v) == v
    ensures EscapeQuotes("\"") == "&quot;"
    ensures |v| == 1 && v[0] != '"' ==> EscapeQuotes(v) == v
    decreases |v|
  {
    if v != [] {
      EscapeQuotesFacts(v[1..]);
      assert v == [v[0]] + v[1..];
    }
    assert "\""[1..] == [];
  }

  /** The replacement works character by character: escaping a
      concatenation escapes each part. */
  lemma {:induction false} EscapeQuotesAppend(a: string, b: string)
    ensures EscapeQuotes(a + b) == EscapeQuotes(a) + EscapeQuotes(b)
    decreases |a|
  {
    if a == [] {
      assert a + b == b;
    } else {
      assert (a + b)[0] == a[0];
      assert (a + b)[1..] == a[1..] + b;
      EscapeQuotesAppend(a[1..], b);
      var head := if a[0] == '"' then "&quot;" else [a[0]];
      AppendAssoc(head, EscapeQuotes(a[1..]), EscapeQuotes(b));
    }
  }

  function AttrToHtml(a: Attr): string {
    " " + a.name + "=\"" + EscapeQuotes(a.value) + "\""
  }

  function AttrsToHtml(attrs: seq<Attr>): string
    decreases |attrs|
  {
    if attrs == [] then ""
    else AttrsToHtml(attrs[..|attrs| - 1]) + AttrToHtml(attrs[|attrs| - 1])
  }

  /** `HTMLNode.props_to_html`: ` key="value"` for each entry in order, with
      every double quote of a value escaped; nothing for None or `{}`. */
  function PropsToHtml(props: Option<seq<Attr>>): (r: string)
    ensures props.None? || props == Some([]) ==> r == ""
  {
    match props
    case None => ""
    case Some(attrs) => AttrsToHtml(attrs)
  }

  /** The entries render one after another, in insertion order. */
  lemma AttrsToHtmlSnoc(attrs: seq<Attr>, x: Attr)
    ensures AttrsToHtml(attrs + [x]) == AttrsToHtml(attrs) + AttrToHtml(x)
  {
    assert (attrs + [x])[..|attrs|] == attrs;
  }

  lemma AttrsToHtmlOne(x: Attr)
    ensures AttrsToHtml([x]) == AttrToHtml(x)
  {
    assert [x][..0] == [];
  }

  lemma {:induction false} AttrsToHtmlAppend(a: seq<Attr>, b: seq<Attr>)
    ensures AttrsToHtml(a + b) == AttrsToHtml(a) + AttrsToHtml(b)
    decreases |b|
  {
    if b == [] {
      assert a + b == a;
    } else {
      var init := b[..|b| - 1];
      var x := b[|b| - 1];
      assert b == init + [x];
      assert a + b == (a + init) + [x];
      AttrsToHtmlSnoc(a + init, x);
      AttrsToHtmlSnoc(init, x);
      AttrsToHtmlAppend(a, init);
      AppendAssoc(AttrsToHtml(a), AttrsToHtml(init), AttrToHtml(x));
    }
  }

  /** Each further entry is rendered, as ` name="value"` with the value's
      double quotes escaped, after the ones before it. */
  lemma PropsToHtmlSnoc(attrs: seq<Attr>, a: Attr)
    ensures PropsToHtml(Some(attrs + [a])) == PropsToHtml(Some(attrs)) + AttrToHtml(a)
  {
    AttrsToHtmlSnoc(attrs, a);
  }

  /** A double quote anywhere in a value is written as `&quot;`, and the
      text on either side of it is escaped in turn. */
  lemma PropsToHtmlEscapes(name: string, before: string, after: string)
    ensures PropsToHtml(Some([Attr(name, before + "\"" + after)]))
            == " " + name + "=\"" + EscapeQuotes(before) + "&quot;" + EscapeQuotes(after) + "\""
  {
    AttrsToHtmlOne(Attr(name, before + "\"" + after));
    EscapeQuotesAppend(before + "\"", after);
    EscapeQuotesAppend(before, "\"");
    EscapeQuotesFacts("\"");
  }

  /** The serialisation of a node: `LeafNode.to_html` and `ParentNode.to_html`. */
  function Html(n: HtmlNode): string
    requires Valid(n)
    decreases n
  {
    match n
    case Leaf(tag, value, props) =>
      if tag.None? then value.value
      else if tag.value in SelfClosingTags then "<" + tag.value + PropsToHtml(props) + " />"
      else "<" + tag.value + PropsToHtml(props) + ">" + value.value + "</" + tag.value + ">"
    case Parent(tag, children, props) =>
      "<" + tag + PropsToHtml(props) + ">" + ChildrenHtml(children) + "</" + tag + ">"
  }

  /** The serialisations of `cs`, concatenated in order. */
  function ChildrenHtml(cs: seq<HtmlNode>): string
    requires AllValid(cs)
    decreases cs
  {
    if cs == [] then "" else ChildrenHtml(cs[..|cs| - 1]) + Html(cs[|cs| - 1])
  }

  lemma AllValidAppend(a: seq<HtmlNode>, b: seq<HtmlNode>)
    requires AllValid(a) && AllValid(b)
    ensures AllValid(a + b)
  {
    assert forall i :: |a| <= i < |a + b| ==> (a + b)[i] == b[i - |a|];
  }

  lemma ChildrenHtmlSnoc(cs: seq<HtmlNode>, x: HtmlNode)
    requires AllValid(cs) && Valid(x)
    ensures AllValid(cs + [x]) && ChildrenHtml(cs + [x]) == ChildrenHtml(cs) + Html(x)
  {
    AllValidAppend(cs, [x]);
    assert (cs + [x])[..|cs|] == cs;
  }

  lemma {:induction false} ChildrenHtmlAppend(a: seq<HtmlNode>, b: seq<HtmlNode>)
    requires AllValid(a) && AllValid(b)
    ensures AllValid(a + b) && ChildrenHtml(a + b) == ChildrenHtml(a) + ChildrenHtml(b)
    decreases |b|
  {
    AllValidAppend(a, b);
    if b == [] {
      assert a + b == a;
    } else {
      var init := b[..|b| - 1];
      var x := b[|b| - 1];
      assert b == init + [x];
      assert a + b == (a + init) + [x];
      assert AllValid(init) && Valid(x);
      AllValidAppend(a, init);
      ChildrenHtmlSnoc(a + init, x);
      ChildrenHtmlSnoc(init, x);
      ChildrenHtmlAppend(a, init);
      AppendAssoc(ChildrenHtml(a), ChildrenHtml(init), Html(x));
    }
  }

  /** What `LeafNode.to_html` writes for a leaf built by `LeafNode`: the
      value verbatim without a tag, `<tag props />` for a self-closing tag
      whatever the value, `<tag props>value</tag>` otherwise. */
  lemma LeafHtml(tag: Option<string>, value: Option<string>, props: Option<seq<Attr>>)
    requires NewLeaf(tag, value, props).Ok?
    ensures var h := Html(NewLeaf(tag, value, props).value);
            && (tag.None? ==> value.Some? && h == value.value)
            && (SelfClosing(tag) ==> h == "<" + tag.value + PropsToHtml(props) + " />")
            && (tag.Some? && !SelfClosing(tag) ==>
                  value.Some? && h == "<" + tag.value + PropsToHtml(props) + ">" + value.value + "</" + tag.value + ">")
  {
  }

  /** What `ParentNode.to_html` writes for a parent built by `ParentNode`:
      its tag around the markup of the non-None children, in order. */
  lemma ParentHtml(tag: string, children: seq<Option<HtmlNode>>, props: Option<seq<Attr>>)
    requires AllValid(Present(children)) && NewParent(Some(tag), children, props).Ok?
    ensures Html(NewParent(Some(tag), children, props).value)
            == "<" + tag + PropsToHtml(props) + ">" + ChildrenHtml(Present(children)) + "</" + tag + ">"
  {
  }

  /** `to_html` as the source runs it: a leaf renders itself; a parent
      accumulates its children's serialisations in a loop, each obtained by a
      recursive call, and wraps them in its opening and closing tag. */
  method ToHtml(n: HtmlNode) returns (html: string)
    requires Valid(n)
    ensures html == Html(n)
    decreases n
  {
    match n {
      case Leaf(tag, value, props) =>
        if tag.None? {
          html := value.value;
        } else if tag.value in SelfClosingTags {
          html := "<" + tag.value + PropsToHtml(props) + " />";
        } else if props.Some? && props.value != [] {
          html := "<" + tag.value + PropsToHtml(props) + ">" + value.value + "</" + tag.value + ">";
        } else {
          html := "<" + tag.value + ">" + value.value + "</" + tag.value + ">";
        }
      case Parent(tag, children, props) =>
        var parStr := "";
        for i := 0 to |children|
          invariant parStr == ChildrenHtml(children[..i])
        {
          assert children[..i + 1][..i] == children[..i];
          var childHtml := ToHtml(children[i]);
          parStr := parStr + childHtml;
        }
        assert children[..|children|] == children;
        html := "<" + tag + PropsToHtml(props) + ">" + parStr + "</" + tag + ">";
    }
  }
}
