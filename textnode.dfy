/** Inline text spans (src/textnode.py) and their conversion to leaf nodes. */
module TextNode {
  import opened Wrappers
  import opened HtmlNode

  datatype TextType = Text | Bold | Italic | Code | Link | Image

  /** A span of inline text; `url` is only meaningful for links and images. */
  datatype TextNode = TextNode(text: string, textType: TextType, url: Option<string>)

  /** `TextNode(text, text_type)`: the url defaults to None. */
  function Span(text: string, textType: TextType): (r: TextNode)
    ensures r.text == text && r.textType == textType && r.url == None
  {
    TextNode(text, textType, None)
  }

  /** `TextNode.__eq__`: field-by-field comparison. */
  predicate Equals(a: TextNode, b: TextNode) {
    a.text == b.text && a.textType == b.textType && a.url == b.url
  }

  /** A plain-text span cut out of a longer text, emitted only when non-empty. */
  function Piece(s: string): (r: seq<TextNode>)
    ensures s == [] ==> r == []
    ensures s != [] ==> r == [Span(s, Text)]
  {
    if s == [] then [] else [Span(s, Text)]
  }

  /** Field-by-field equality is exactly equality of the spans. */
  lemma EqualsIsEquality(a: TextNode, b: TextNode)
    ensures Equals(a, b) <==> a == b
  {
  }

  /** `not url`: None and the empty string are both missing. */
  predicate HasUrl(url: Option<string>) {
    url.Some? && url.value != []
  }

  /** The markup each kind of span stands for. */
  function SpanHtml(n: TextNode): string
    requires n.textType in {Link, Image} ==> HasUrl(n.url)
  {
    var t := n.text;
    match n.textType
    case Text => t
    case Bold => "<b>" + t + "</b>"
    case Italic => "<i>" + t + "</i>"
    case Code => "<code>" + t + "</code>"
    case Link => "<a href=\"" + EscapeQuotes(n.url.value) + "\">" + t + "</a>"
    case Image => "<img src=\"" + EscapeQuotes(n.url.value) + "\" alt=\"" + EscapeQuotes(t) + "\" />"
  }

  lemma TaggedHtml(tag: string, t: string)
    requires tag !in SelfClosingTags
    ensures Html(Leaf(Some(tag), Some(t), None)) == "<" + tag + ">" + t + "</" + tag + ">"
  {
  }

  lemma HrefProps(url: string)
    ensures PropsToHtml(Some([Attr("href", url)])) == " href=\"" + EscapeQuotes(url) + "\""
  {
    AttrsToHtmlOne(Attr("href", url));
    NamedAttr("href", url);
    HrefConcat(EscapeQuotes(url));
  }

  lemma TwoProps(a: Attr, b: Attr)
    ensures PropsToHtml(Some([a, b])) == AttrToHtml(a) + AttrToHtml(b)
  {
    AttrsToHtmlOne(a);
    AttrsToHtmlSnoc([a], b);
    assert [a] + [b] == [a, b];
  }

  lemma ImageProps(url: string, t: string)
    ensures PropsToHtml(Some([Attr("src", url), Attr("alt", t)]))
            == " src=\"" + EscapeQuotes(url) + "\"" + " alt=\"" + EscapeQuotes(t) + "\""
  {
    TwoProps(Attr("src", url), Attr("alt", t));
    NamedAttr("src", url);
    NamedAttr("alt", t);
    SrcConcat(EscapeQuotes(url));
    AltConcat(EscapeQuotes(t));
    PropsConcat(EscapeQuotes(url), EscapeQuotes(t));
  }

  lemma NamedAttr(name: string, v: string)
    ensures AttrToHtml(Attr(name, v)) == " " + name + "=\"" + EscapeQuotes(v) + "\""
  {
  }

  lemma HrefConcat(e: string)
    ensures " " + "href" + "=\"" + e + "\"" == " href=\"" + e + "\""
  {
  }

  lemma SrcConcat(e: string)
    ensures " " + "src" + "=\"" + e + "\"" == " src=\"" + e + "\""
  {
  }

  lemma AltConcat(e: string)
    ensures " " + "alt" + "=\"" + e + "\"" == " alt=\"" + e + "\""
  {
  }

  lemma PropsConcat(e: string, f: string)
    ensures (" src=\"" + e + "\"") + (" alt=\"" + f + "\"")
            == " src=\"" + e + "\"" + " alt=\"" + f + "\""
  {
  }

  lemma LinkConcat(e: string, t: string)
    ensures "<" + "a" + (" href=\"" + e + "\"") + ">" + t + "</" + "a" + ">"
            == "<a href=\"" + e + "\">" + t + "</a>"
  {
  }

  lemma ImageConcat(e: string, f: string)
    ensures "<" + "img" + (" src=\"" + e + "\"" + " alt=\"" + f + "\"") + " />"
            == "<img src=\"" + e + "\" alt=\"" + f + "\" />"
  {
  }

  lemma LinkHtml(url: string, t: string)
    ensures Html(Leaf(Some("a"), Some(t), Some([Attr("href", url)])))
            == "<a href=\"" + EscapeQuotes(url) + "\">" + t + "</a>"
  {
    HrefProps(url);
    LinkConcat(EscapeQuotes(url), t);
  }

  lemma ImageHtml(url: string, t: string)
    ensures Html(Leaf(Some("img"), Some(""), Some([Attr("src", url), Attr("alt", t)])))
            == "<img src=\"" + EscapeQuotes(url) + "\" alt=\"" + EscapeQuotes(t) + "\" />"
  {
    ImageProps(url, t);
    ImageConcat(EscapeQuotes(url), EscapeQuotes(t));
  }

  /** `text_node_to_html_node`: plain text becomes an untagged leaf, the
      emphasis kinds leaves tagged b, i and code, a link an `a` leaf with an
      href, an image an empty `img` leaf with src and alt; a link or image
      without a url is refused. */
  function TextNodeToHtmlNode(n: TextNode): (r: Result<HtmlNode>)
    ensures r.Ok? <==> (n.textType in {Link, Image} ==> HasUrl(n.url))
    ensures r.Err? ==> r.error == MissingUrl
    ensures r.Ok? ==> Valid(r.value) && r.value.Leaf?
    ensures n.textType == Text ==> r == Ok(Leaf(None, Some(n.text), None))
    ensures n.textType == Bold ==> r == Ok(Leaf(Some("b"), Some(n.text), None))
    ensures n.textType == Italic ==> r == Ok(Leaf(Some("i"), Some(n.text), None))
    ensures n.textType == Code ==> r == Ok(Leaf(Some("code"), Some(n.text), None))
    ensures n.textType == Link && HasUrl(n.url) ==>
              r == Ok(Leaf(Some("a"), Some(n.text), Some([Attr("href", n.url.value)])))
    ensures n.textType == Image && HasUrl(n.url) ==>
              r == Ok(Leaf(Some("img"), Some(""), Some([Attr("src", n.url.value), Attr("alt", n.text)])))
  {
    match n.textType
    case Text => NewLeaf(None, Some(n.text), None)
    case Bold => NewLeaf(Some("b"), Some(n.text), None)
    case Italic => NewLeaf(Some("i"), Some(n.text), None)
    case Code => NewLeaf(Some("code"), Some(n.text), None)
    case Link =>
      if !HasUrl(n.url) then Err(MissingUrl)
      else NewLeaf(Some("a"), Some(n.text), Some([Attr("href", n.url.value)]))
    case Image =>
      if !HasUrl(n.url) then Err(MissingUrl)
      else NewLeaf(Some("img"), Some(""), Some([Attr("src", n.url.value), Attr("alt", n.text)]))
  }

  /** A converted span renders as the markup its kind stands for. */
  lemma TextNodeHtml(n: TextNode)
    ensures var r := TextNodeToHtmlNode(n);
            r.Ok? ==> Html(r.value) == SpanHtml(n)
  {
    var r := TextNodeToHtmlNode(n);
    if r.Ok? {
      var t := n.text;
      var leaf := r.value;
      var html := SpanHtml(n);
      match n.textType
      case Text =>
        assert leaf == Leaf(None, Some(t), None);
        assert html == t;
      case Bold =>
        assert leaf == Leaf(Some("b"), Some(t), None);
        TaggedHtml("b", t);
        assert html == "<b>" + t + "</b>";
      case Italic =>
        assert leaf == Leaf(Some("i"), Some(t), None);
        TaggedHtml("i", t);
        assert html == "<i>" + t + "</i>";
      case Code =>
        assert leaf == Leaf(Some("code"), Some(t), None);
        TaggedHtml("code", t);
        assert html == "<code>" + t + "</code>";
      case Link =>
        assert leaf == Leaf(Some("a"), Some(t), Some([Attr("href", n.url.value)]));
        LinkHtml(n.url.value, t);
      case Image =>
        assert leaf == Leaf(Some("img"), Some(""), Some([Attr("src", n.url.value), Attr("alt", t)]));
        ImageHtml(n.url.value, t);
    }
  }
}
