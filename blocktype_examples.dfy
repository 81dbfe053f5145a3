/** Classifications the tests of src/test_blocknode2.py expect, worked out
    on the model, for shortened forms of the tests' blocks. */
module BlockTypeExamples {
  import opened Wrappers
  import opened Strings
  import opened BlockTypes

  lemma NotBlank(s: string)
    requires s != [] && !IsSpace(s[0])
    ensures Strip(s) != []
  {
    StripEmpty(s);
  }

  /** One line out of sequence. */
  lemma NotOrderedAt(s: string, lines: seq<string>, i: nat)
    requires Lines(s) == lines
    requires i < |lines| && !StartsWith(lines[i], NatToString(i + 1) + ". ")
    ensures !IsOrderedList(s)
  {
  }

  /** No rule before the paragraph rule holds. */
  lemma IsParagraph(s: string)
    requires Strip(s) != [] && !IsHeading(s) && !IsCode(s) && !IsQuote(s)
    requires !IsUnordered(s) && !IsOrderedList(s)
    ensures Classify(s) == Some(Paragraph)
  {
  }

  /** Two newline-free lines joined by a newline are split back into them. */
  lemma TwoLines(a: string, b: string)
    requires '\n' !in a && '\n' !in b
    ensures Lines(a + "\n" + b) == [a, b]
  {
    var lines := [a, b];
    SplitJoin(lines, '\n');
    assert Join(lines, "\n") == a + "\n" + b;
  }

  lemma NotOrderedOneLine(s: string)
    requires !StartsWith(s, "1. ")
    ensures !IsOrderedList(s)
  {
    if IsOrderedList(s) {
      OrderedListStart(s);
    }
  }

  lemma HashWithoutSpace()
    ensures Classify("#This") == Some(Paragraph)
  {
    var b := "#This";
    assert !IsHeading(b) by { LeadHashesIs(b, 1); }
    assert !IsCode(b) by { assert b[1] != '#'; }
    assert Strip(b) != [] by { NotBlank(b); }
    assert !IsUnordered(b) by { UnorderedIff(b); }
    assert !IsOrderedList(b) by { NotOrderedOneLine(b); }
    IsParagraph(b);
  }

  lemma SixHashes()
    ensures Classify("###### x") == Some(Heading)
  {
    var b := "###### x";
    assert IsHeading(b) by { LeadHashesIs(b, 6); }
    assert Strip(b) != [] by { NotBlank(b); }
  }

  lemma DashWithoutSpace()
    ensures Classify("-Not") == Some(Paragraph)
  {
    var b := "-Not";
    assert !IsHeading(b) by { assert LeadHashes(b) == 0; }
    assert !IsCode(b) by { assert b[0] != '`'; }
    assert Strip(b) != [] by { NotBlank(b); }
    assert !IsUnordered(b) by { UnorderedIff(b); }
    assert !IsOrderedList(b) by { NotOrderedOneLine(b); }
    IsParagraph(b);
  }

  lemma QuoteLine()
    ensures Classify("> q") == Some(Quote)
  {
    var b := "> q";
    assert !IsHeading(b) by { assert LeadHashes(b) == 0; }
    assert !IsCode(b) by { assert b[0] != '`'; }
    assert Strip(b) != [] by { NotBlank(b); }
  }

  lemma CodeFence()
    ensures Classify("```\nx\n```") == Some(Code)
  {
    var b := "```\nx\n```";
    assert !IsHeading(b) by { assert LeadHashes(b) == 0; }
    assert IsCode(b) by { assert b[..3] == "```" && b[|b| - 3..] == "```"; }
    assert Strip(b) != [] by { NotBlank(b); }
  }

  lemma OutOfSequenceNotOrdered()
    ensures !IsOrderedList("1. a\n3. b")
  {
    TwoLines("1. a", "3. b");
    assert "1. a" + "\n" + "3. b" == "1. a\n3. b";
    var lines := ["1. a", "3. b"];
    assert NatToString(2) + ". " == "2. ";
    assert lines[1][..3][0] != "2. "[0];
    NotOrderedAt("1. a\n3. b", lines, 1);
  }

  lemma OutOfSequence()
    ensures Classify("1. a\n3. b") == Some(Paragraph)
  {
    var b := "1. a\n3. b";
    assert !IsHeading(b) by { assert LeadHashes(b) == 0; }
    assert !IsCode(b) by { assert b[0] != '`'; }
    assert Strip(b) != [] by { NotBlank(b); }
    assert !IsUnordered(b) by { UnorderedIff(b); }
    OutOfSequenceNotOrdered();
    IsParagraph(b);
  }

  lemma OrderedPair(s: string, a: string, b: string)
    requires Lines(s) == [a, b]
    requires StartsWith(a, "1. ") && StartsWith(b, "2. ")
    ensures IsOrderedList(s)
  {
    assert NatToString(1) + ". " == "1. ";
    assert NatToString(2) + ". " == "2. ";
  }

  lemma InSequenceOrdered()
    ensures IsOrderedList("1. a\n2. b")
  {
    TwoLines("1. a", "2. b");
    assert "1. a" + "\n" + "2. b" == "1. a\n2. b";
    OrderedPair("1. a\n2. b", "1. a", "2. b");
  }

  lemma InSequence()
    ensures Classify("1. a\n2. b") == Some(OrderedList)
  {
    var b := "1. a\n2. b";
    assert !IsHeading(b) by { assert LeadHashes(b) == 0; }
    assert !IsCode(b) by { assert b[0] != '`'; }
    assert Strip(b) != [] by { NotBlank(b); }
    assert !IsUnordered(b) by { UnorderedIff(b); }
    InSequenceOrdered();
  }

  lemma NumberWithoutSpace()
    ensures Classify("1.Not") == Some(Paragraph)
  {
    var b := "1.Not";
    assert !IsHeading(b) by { assert LeadHashes(b) == 0; }
    assert !IsCode(b) by { assert b[0] != '`'; }
    assert Strip(b) != [] by { NotBlank(b); }
    assert !IsUnordered(b) by { UnorderedIff(b); }
    assert !IsOrderedList(b) by { assert b[..3][2] != "1. "[2]; NotOrderedOneLine(b); }
    IsParagraph(b);
  }

  lemma StartsAtTwo()
    ensures Classify("2. x") == Some(Paragraph)
  {
    var b := "2. x";
    assert !IsHeading(b) by { assert LeadHashes(b) == 0; }
    assert !IsCode(b) by { assert b[0] != '`'; }
    assert Strip(b) != [] by { NotBlank(b); }
    assert !IsUnordered(b) by { UnorderedIff(b); }
    assert !IsOrderedList(b) by { assert b[..3][0] != "1. "[0]; NotOrderedOneLine(b); }
    IsParagraph(b);
  }

  lemma DashItem()
    ensures Classify("- a") == Some(UnorderedList)
  {
    var b := "- a";
    assert !IsHeading(b) by { assert LeadHashes(b) == 0; }
    assert !IsCode(b) by { assert b[0] != '`'; }
    assert Strip(b) != [] by { NotBlank(b); }
    assert IsUnordered(b) by { UnorderedIff(b); assert SpaceEnd(b, 0) == 0; assert MarkerEnd(b, 1) == 1; }
  }
}
