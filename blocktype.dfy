/** Block classification (src/blocknode.py, `BlockType`,
    `block_to_block_type`, `_is_ordered_list` and `heading_size`). The
    regular expressions of the classifier are written out as scanners over
    the block's characters. */
module BlockTypes {
  import opened Wrappers
  import opened Strings

  /** `BlockType`; `Empty` is the enum's `EMPTY` member, which the classifier
      never returns. */
  datatype BlockType = Paragraph | Heading | Code | Quote | UnorderedList | OrderedList | Empty

  // ---------------------------------------------------------------------
  // Headings: `^#{1,6}( |$)`
  // ---------------------------------------------------------------------

  /** The number of `#` at the front of `s`. */
  function LeadHashes(s: string): (n: nat)
    ensures n <= |s|
    ensures n == |s| || s[n] != '#'
    decreases |s|
  {
    if s != [] && s[0] == '#' then 1 + LeadHashes(s[1..]) else 0
  }

  /** The front run of `#` is `c` long. */
  lemma {:induction false} LeadHashesIs(s: string, c: nat)
    requires c <= |s|
    requires forall i :: 0 <= i < c ==> s[i] == '#'
    requires c == |s| || s[c] != '#'
    ensures LeadHashes(s) == c
    decreases c
  {
    if c > 0 {
      assert forall i :: 0 <= i < c - 1 ==> s[1..][i] == s[i + 1];
      LeadHashesIs(s[1..], c - 1);
    }
  }

  lemma {:induction false} LeadHashesAll(s: string)
    ensures forall i :: 0 <= i < LeadHashes(s) ==> s[i] == '#'
    decreases |s|
  {
    if s != [] && s[0] == '#' {
      LeadHashesAll(s[1..]);
    }
  }

  /** `heading_size(text)` as the source runs it: count `#` characters from
      the front, stopping at the first other character. */
  method HeadingSize(text: string) returns (count: nat)
    ensures count == LeadHashes(text)
  {
    count := 0;
    for k := 0 to |text|
      invariant count == k
      invariant forall i :: 0 <= i < k ==> text[i] == '#'
    {
      if text[k] == '#' {
        count := count + 1;
      } else {
        LeadHashesIs(text, k);
        return;
      }
    }
    LeadHashesIs(text, |text|);
  }

  /** `$` without MULTILINE matches at `i`: the end of the text, or just
      before a newline that ends it. */
  predicate EndAt(s: string, i: nat) {
    i == |s| || (i == |s| - 1 && s[i] == '\n')
  }

  /** The heading pattern matched with `k` hashes: `k` of them at the front,
      then a space or the end. */
  predicate HeadingWith(s: string, k: nat) {
    1 <= k <= 6 && k <= |s| && (forall i :: 0 <= i < k ==> s[i] == '#')
    && ((k < |s| && s[k] == ' ') || EndAt(s, k))
  }

  /** The heading pattern matches: the whole front run of `#` is one to six
      long and is followed by a space or the end. */
  predicate IsHeading(s: string) {
    var n := LeadHashes(s);
    1 <= n <= 6 && ((n < |s| && s[n] == ' ') || EndAt(s, n))
  }

  /** `#{1,6}` can only end at the end of the front run of `#`, so the
      pattern matches with some count exactly when it matches with the whole
      run. */
  lemma HeadingIff(s: string)
    ensures IsHeading(s) <==> exists k: nat :: HeadingWith(s, k)
  {
    LeadHashesAll(s);
    var n := LeadHashes(s);
    if IsHeading(s) {
      assert HeadingWith(s, n);
    }
    forall k: nat | HeadingWith(s, k)
      ensures IsHeading(s)
    {
      assert k == n;
    }
  }

  // ---------------------------------------------------------------------
  // Code: "^```.*```$" with DOTALL; quote: "^>.*" with DOTALL
  // ---------------------------------------------------------------------

  /** The code pattern: "```" at the front and, at least three characters
      later, "```" at the end or just before a final newline. */
  predicate IsCode(s: string) {
    |s| >= 6 && StartsWith(s, "```")
    && (EndsWith(s, "```") || (|s| >= 7 && EndsWith(s, "```\n")))
  }

  /** The quote pattern: a `>` at the front. */
  predicate IsQuote(s: string) {
    |s| >= 1 && s[0] == '>'
  }

  // ---------------------------------------------------------------------
  // Unordered lists: `^(\s*[-\*](\s+.*)?(\n)?)+$` with DOTALL
  // ---------------------------------------------------------------------

  predicate IsMarker(c: char) {
    c == '-' || c == '*'
  }

  /** The first index at or after `i` that is not whitespace. */
  function SpaceEnd(s: string, i: nat): (j: nat)
    requires i <= |s|
    ensures i <= j <= |s| && (j == |s| || !IsSpace(s[j]))
    ensures forall k :: i <= k < j ==> IsSpace(s[k])
    decreases |s| - i
  {
    if i < |s| && IsSpace(s[i]) then SpaceEnd(s, i + 1) else i
  }

  /** The first index at or after `i` that is not `-` or `*`. */
  function MarkerEnd(s: string, i: nat): (j: nat)
    requires i <= |s|
    ensures i <= j <= |s| && (j == |s| || !IsMarker(s[j]))
    ensures forall k :: i <= k < j ==> IsMarker(s[k])
    decreases |s| - i
  {
    if i < |s| && IsMarker(s[i]) then MarkerEnd(s, i + 1) else i
  }

  /** The repeated group tried from `i`: whitespace, a marker, then either
      whitespace (after which `.*` takes the rest), the end, or a further
      repetition straight after the marker. */
  predicate ItemsFrom(s: string, i: nat)
    requires i <= |s|
    decreases |s| - i
  {
    var j := SpaceEnd(s, i);
    j < |s| && IsMarker(s[j]) && (j + 1 == |s| || IsSpace(s[j + 1]) || ItemsFrom(s, j + 1))
  }

  /** The unordered-list pattern. */
  predicate IsUnordered(s: string) {
    ItemsFrom(s, 0)
  }

  /** Only the front of the block matters: after optional whitespace, a run
      of `-` and `*` followed by whitespace or the end. */
  lemma {:induction false} ItemsFromIff(s: string, i: nat)
    requires i <= |s|
    ensures var j := SpaceEnd(s, i);
            var e := MarkerEnd(s, j);
            ItemsFrom(s, i) <==> j < e && (e == |s| || IsSpace(s[e]))
    decreases |s| - i
  {
    var j := SpaceEnd(s, i);
    if j < |s| && IsMarker(s[j]) && j + 1 < |s| && !IsSpace(s[j + 1]) {
      assert SpaceEnd(s, j + 1) == j + 1;
      ItemsFromIff(s, j + 1);
      assert MarkerEnd(s, j) == MarkerEnd(s, j + 1);
    }
  }

  lemma UnorderedIff(s: string)
    ensures var j := SpaceEnd(s, 0);
            var e := MarkerEnd(s, j);
            IsUnordered(s) <==> j < e && (e == |s| || IsSpace(s[e]))
  {
    ItemsFromIff(s, 0);
  }

  // ---------------------------------------------------------------------
  // Ordered lists
  // ---------------------------------------------------------------------

  /** `_is_ordered_list(block)`: line `i`, counted from one, starts with
      `i. ` for every line. */
  predicate IsOrderedList(s: string) {
    var lines := Lines(s);
    forall i :: 0 <= i < |lines| ==> StartsWith(lines[i], NatToString(i + 1) + ". ")
  }

  /** `_is_ordered_list` as the source runs it, returning at the first line
      out of sequence. */
  method CheckOrderedList(block: string) returns (r: bool)
    ensures r == IsOrderedList(block)
  {
    var lines := Lines(block);
    for i := 0 to |lines|
      invariant forall k :: 0 <= k < i ==> StartsWith(lines[k], NatToString(k + 1) + ". ")
    {
      if !StartsWith(lines[i], NatToString(i + 1) + ". ") {
        return false;
      }
    }
    return true;
  }

  /** An ordered list starts with `1. `. */
  lemma OrderedListStart(s: string)
    requires IsOrderedList(s)
    ensures StartsWith(s, "1. ")
  {
    var lines := Lines(s);
    assert StartsWith(lines[0], NatToString(1) + ". ");
    assert NatToString(1) + ". " == "1. ";
    JoinSplit(s, '\n');
    JoinFront(lines, "\n");
  }

  lemma JoinFront(parts: seq<string>, sep: string)
    requires |parts| >= 1
    ensures StartsWith(Join(parts, sep), parts[0])
  {
    if |parts| > 1 {
      var j := Join(parts, sep);
      assert j == parts[0] + (sep + Join(parts[1..], sep));
    }
  }

  // ---------------------------------------------------------------------
  // The classifier
  // ---------------------------------------------------------------------

  /** `block_to_block_type(block)`: None for a whitespace-only block, else
      the first rule that matches, in the order heading, code, quote,
      unordered list, ordered list, paragraph. */
  function Classify(block: string): (r: Option<BlockType>)
    ensures r != Some(Empty)
  {
    if Strip(block) == [] then None
    else if IsHeading(block) then Some(Heading)
    else if IsCode(block) then Some(Code)
    else if IsQuote(block) then Some(Quote)
    else if IsUnordered(block) then Some(UnorderedList)
    else if IsOrderedList(block) then Some(OrderedList)
    else Some(Paragraph)
  }

  /** None exactly for whitespace-only blocks. */
  lemma ClassifyNone(block: string)
    ensures Classify(block) == None <==> AllSpace(block)
  {
    StripEmpty(block);
  }

  /** The unordered-list pattern in its reduced form: after optional
      whitespace, a run of `-` and `*` followed by whitespace or the end. */
  predicate MarkerRunFront(s: string) {
    var j := SpaceEnd(s, 0);
    var e := MarkerEnd(s, j);
    j < e && (e == |s| || IsSpace(s[e]))
  }

  /** The rule that gives a block its type, each written in a form
      independent of the classifier: `^#{1,6}( |$)` with some count of `#`,
      the code and quote patterns, the reduced list pattern, the ordered-list
      test; a paragraph needs nothing, and no rule gives `EMPTY`. */
  ghost predicate Rule(t: BlockType, s: string) {
    match t
    case Heading => exists k: nat :: HeadingWith(s, k)
    case Code => IsCode(s)
    case Quote => IsQuote(s)
    case UnorderedList => MarkerRunFront(s)
    case OrderedList => IsOrderedList(s)
    case Paragraph => true
    case Empty => false
  }

  /** The position of each rule in the order the classifier tries them. */
  function Rank(t: BlockType): nat {
    match t
    case Heading => 0
    case Code => 1
    case Quote => 2
    case UnorderedList => 3
    case OrderedList => 4
    case Paragraph => 5
    case Empty => 6
  }

  /** A block that is not all whitespace gets the type of the first rule, in
      the order heading, code, quote, unordered list, ordered list,
      paragraph, that holds for it. */
  lemma ClassifyFirstRule(block: string, t: BlockType)
    ensures Classify(block) == Some(t)
            <==> !AllSpace(block) && Rule(t, block) && forall u :: Rank(u) < Rank(t) ==> !Rule(u, block)
  {
    StripEmpty(block);
    HeadingIff(block);
    UnorderedIff(block);
    assert Rule(Heading, block) == IsHeading(block);
    assert Rule(UnorderedList, block) == IsUnordered(block);
    if Classify(block) == Some(t) {
      forall u | Rank(u) < Rank(t)
        ensures !Rule(u, block)
      {
      }
    }
    if !AllSpace(block) && Rule(t, block) && forall u :: Rank(u) < Rank(t) ==> !Rule(u, block) {
      assert Rank(Heading) == 0 && Rank(Code) == 1 && Rank(Quote) == 2;
      assert Rank(UnorderedList) == 3 && Rank(OrderedList) == 4 && Rank(Paragraph) == 5;
    }
  }
}
