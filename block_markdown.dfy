/** The block segmenter (src/block_markdown.py): the text is cut into lines,
    every line is stripped, whitespace-only lines end the block being read,
    and the lines of a block are joined by a single newline. */
module BlockMarkdown {
  import opened Strings

  /** The state of the loop over the lines: the blocks finished so far and
      the stripped lines of the block being read. */
  datatype Segmenter = Segmenter(blocks: seq<string>, current: seq<string>)

  /** One line: a line with content joins the block being read, stripped; a
      whitespace-only line ends that block, if there is one. */
  function Step(st: Segmenter, line: string): Segmenter {
    if Strip(line) != [] then Segmenter(st.blocks, st.current + [Strip(line)])
    else if st.current != [] then Segmenter(st.blocks + [Join(st.current, "\n")], [])
    else st
  }

  /** The loop over `lines` from state `st`. */
  function Run(st: Segmenter, lines: seq<string>): Segmenter
    decreases |lines|
  {
    if lines == [] then st else Run(Step(st, lines[0]), lines[1..])
  }

  /** After the loop: the block still being read, if any, is finished. */
  function Finish(st: Segmenter): seq<string> {
    if st.current != [] then st.blocks + [Join(st.current, "\n")] else st.blocks
  }

  /** `markdown_to_blocks(markdown)` */
  function Blocks(markdown: string): seq<string> {
    if markdown == [] then [] else Finish(Run(Segmenter([], []), Lines(markdown)))
  }

  lemma RunStep(st: Segmenter, lines: seq<string>, k: nat)
    requires k < |lines|
    ensures Run(st, lines[k..]) == Run(Step(st, lines[k]), lines[k + 1..])
  {
    assert lines[k..][0] == lines[k];
    assert lines[k..][1..] == lines[k + 1..];
  }

  /** `markdown_to_blocks` as the source runs it: one pass over the lines,
      filling and flushing the list of the current block's lines. */
  method MarkdownToBlocks(markdown: string) returns (blocks: seq<string>)
    ensures blocks == Blocks(markdown)
  {
    if markdown == [] {
      return [];
    }
    var lines := Lines(markdown);
    blocks := [];
    var currentBlockLines: seq<string> := [];
    assert lines[0..] == lines;
    for k := 0 to |lines|
      invariant Run(Segmenter(blocks, currentBlockLines), lines[k..]) == Run(Segmenter([], []), lines)
    {
      RunStep(Segmenter(blocks, currentBlockLines), lines, k);
      var line := lines[k];
      if Strip(line) != [] {
        currentBlockLines := currentBlockLines + [Strip(line)];
      } else if currentBlockLines != [] {
        var block := Join(currentBlockLines, "\n");
        blocks := blocks + [block];
        currentBlockLines := [];
      }
    }
    assert lines[|lines|..] == [];
    if currentBlockLines != [] {
      var block := Join(currentBlockLines, "\n");
      blocks := blocks + [block];
    }
  }

  // ---------------------------------------------------------------------
  // The shape of a block
  // ---------------------------------------------------------------------

  /** Every line is non-empty and has no whitespace at either end. */
  predicate AllStripped(lines: seq<string>) {
    forall k :: 0 <= k < |lines| ==> lines[k] != [] && Strip(lines[k]) == lines[k]
  }

  /** A block: non-empty, made of stripped non-empty lines joined by "\n". */
  predicate GoodBlock(b: string) {
    b != [] && AllStripped(Lines(b))
  }

  predicate AllGood(bs: seq<string>) {
    forall i :: 0 <= i < |bs| ==> GoodBlock(bs[i])
  }

  /** What the loop keeps true: finished blocks are good, and the lines of
      the block being read are stripped, non-empty and free of newlines. */
  predicate Sound(st: Segmenter) {
    AllGood(st.blocks) && AllStripped(st.current) && NoSeparator(st.current, '\n')
  }

  /** Stripping a line keeps it free of newlines and cannot be undone twice. */
  lemma StripLine(line: string)
    requires '\n' !in line
    ensures '\n' !in Strip(line)
    ensures Strip(Strip(line)) == Strip(line)
  {
    StripFacts(line);
    var r := Strip(line);
    var a := LeadCount(line);
    assert forall i :: 0 <= i < |r| ==> r[i] == line[a + i];
    StripOfStripped(r);
  }

  /** A join of non-empty parts is non-empty. */
  lemma JoinNonEmpty(parts: seq<string>, sep: string)
    requires |parts| >= 1 && parts[0] != []
    ensures Join(parts, sep) != []
  {
  }

  /** Finishing a block of stripped lines gives a good block. */
  lemma FlushGood(current: seq<string>)
    requires current != [] && AllStripped(current) && NoSeparator(current, '\n')
    ensures GoodBlock(Join(current, "\n")) && Lines(Join(current, "\n")) == current
  {
    SplitJoin(current, '\n');
    JoinNonEmpty(current, "\n");
  }

  lemma AllGoodSnoc(bs: seq<string>, b: string)
    requires AllGood(bs) && GoodBlock(b)
    ensures AllGood(bs + [b])
  {
  }

  lemma StepSound(st: Segmenter, line: string)
    requires Sound(st) && '\n' !in line
    ensures Sound(Step(st, line))
  {
    if Strip(line) != [] {
      StripLine(line);
      assert (st.current + [Strip(line)])[|st.current|] == Strip(line);
    } else if st.current != [] {
      FlushGood(st.current);
      AllGoodSnoc(st.blocks, Join(st.current, "\n"));
    }
  }

  lemma {:induction false} RunSound(st: Segmenter, lines: seq<string>)
    requires Sound(st) && NoSeparator(lines, '\n')
    ensures Sound(Run(st, lines))
    decreases |lines|
  {
    if lines != [] {
      StepSound(st, lines[0]);
      assert NoSeparator(lines[1..], '\n') by {
        assert forall k :: 0 <= k < |lines| - 1 ==> lines[1..][k] == lines[k + 1];
      }
      RunSound(Step(st, lines[0]), lines[1..]);
    }
  }

  /** Every block is non-empty, and each of its lines is stripped and
      non-empty. */
  lemma BlocksGood(markdown: string)
    ensures AllGood(Blocks(markdown))
  {
    if markdown != [] {
      SplitPieces(markdown, '\n');
      RunSound(Segmenter([], []), Lines(markdown));
      var st := Run(Segmenter([], []), Lines(markdown));
      if st.current != [] {
        FlushGood(st.current);
        AllGoodSnoc(st.blocks, Join(st.current, "\n"));
      }
    }
  }

  // ---------------------------------------------------------------------
  // Whitespace-only text
  // ---------------------------------------------------------------------

  /** The lines of a whitespace-only text are whitespace-only. */
  lemma {:induction false} SplitAllSpace(s: string, sep: char)
    requires AllSpace(s)
    ensures forall k :: 0 <= k < |Split(s, sep)| ==> AllSpace(Split(s, sep)[k])
    decreases |s|
  {
    if s != [] {
      SplitAllSpace(s[1..], sep);
    }
  }

  lemma {:induction false} RunBlank(lines: seq<string>)
    requires forall k :: 0 <= k < |lines| ==> AllSpace(lines[k])
    ensures Run(Segmenter([], []), lines) == Segmenter([], [])
    decreases |lines|
  {
    if lines != [] {
      StripEmpty(lines[0]);
      assert forall k :: 0 <= k < |lines| - 1 ==> lines[1..][k] == lines[k + 1];
      RunBlank(lines[1..]);
    }
  }

  /** Whitespace-only text, the empty text included, has no block. */
  lemma BlankMarkdown(markdown: string)
    requires AllSpace(markdown)
    ensures Blocks(markdown) == []
  {
    if markdown != [] {
      SplitAllSpace(markdown, '\n');
      RunBlank(Lines(markdown));
    }
  }

  // ---------------------------------------------------------------------
  // Lines keep their order
  // ---------------------------------------------------------------------

  /** The lines of the blocks, in order. */
  function LinesOf(bs: seq<string>): seq<string>
    decreases |bs|
  {
    if bs == [] then [] else LinesOf(bs[..|bs| - 1]) + Lines(bs[|bs| - 1])
  }

  /** The stripped lines with content, in order. */
  function Kept(lines: seq<string>): seq<string>
    decreases |lines|
  {
    if lines == [] then []
    else (if Strip(lines[0]) != [] then [Strip(lines[0])] else []) + Kept(lines[1..])
  }

  lemma LinesOfSnoc(bs: seq<string>, b: string)
    ensures LinesOf(bs + [b]) == LinesOf(bs) + Lines(b)
  {
    assert (bs + [b])[..|bs|] == bs;
  }

  /** The lines read so far, finished or not, are the kept lines. */
  predicate Keeps(st: Segmenter, kept: seq<string>) {
    LinesOf(st.blocks) + st.current == kept
  }

  lemma StepKeeps(st: Segmenter, line: string, kept: seq<string>)
    requires Sound(st) && Keeps(st, kept)
    ensures Keeps(Step(st, line), kept + (if Strip(line) != [] then [Strip(line)] else []))
  {
    if Strip(line) == [] && st.current != [] {
      FlushGood(st.current);
      LinesOfSnoc(st.blocks, Join(st.current, "\n"));
    }
  }

  lemma {:induction false} RunKeeps(st: Segmenter, lines: seq<string>, kept: seq<string>)
    requires Sound(st) && NoSeparator(lines, '\n') && Keeps(st, kept)
    ensures Keeps(Run(st, lines), kept + Kept(lines))
    decreases |lines|
  {
    if lines == [] {
      assert kept + [] == kept;
    } else {
      var line := lines[0];
      var here := if Strip(line) != [] then [Strip(line)] else [];
      StepKeeps(st, line, kept);
      StepSound(st, line);
      assert NoSeparator(lines[1..], '\n') by {
        assert forall k :: 0 <= k < |lines| - 1 ==> lines[1..][k] == lines[k + 1];
      }
      RunKeeps(Step(st, line), lines[1..], kept + here);
      AppendAssoc(kept, here, Kept(lines[1..]));
    }
  }

  /** The lines of the blocks are the input's lines with content, stripped,
      in input order: nothing is lost, reordered or split. */
  lemma BlocksKeepLines(markdown: string)
    ensures LinesOf(Blocks(markdown)) == Kept(Lines(markdown))
  {
    if markdown == [] {
      assert Lines(markdown) == [[]];
      assert Kept([[]]) == Kept([]) by {
        StripEmpty([]);
      }
    } else {
      SplitPieces(markdown, '\n');
      var lines := Lines(markdown);
      RunKeeps(Segmenter([], []), lines, []);
      RunSound(Segmenter([], []), lines);
      var st := Run(Segmenter([], []), lines);
      assert LinesOf(st.blocks) + st.current == Kept(lines) by {
        assert [] + Kept(lines) == Kept(lines);
      }
      if st.current != [] {
        FlushGood(st.current);
        LinesOfSnoc(st.blocks, Join(st.current, "\n"));
      } else {
        assert LinesOf(st.blocks) + [] == LinesOf(st.blocks);
      }
    }
  }

  // ---------------------------------------------------------------------
  // Segmenting again
  // ---------------------------------------------------------------------

  /** Lines with content are collected into the block being read. */
  lemma {:induction false} RunStripped(st: Segmenter, lines: seq<string>)
    requires AllStripped(lines)
    ensures Run(st, lines) == Segmenter(st.blocks, st.current + lines)
    decreases |lines|
  {
    if lines == [] {
      assert st.current + [] == st.current;
    } else {
      assert AllStripped(lines[1..]) by {
        assert forall k :: 0 <= k < |lines| - 1 ==> lines[1..][k] == lines[k + 1];
      }
      RunStripped(Step(st, lines[0]), lines[1..]);
      AppendAssoc(st.current, [lines[0]], lines[1..]);
      assert [lines[0]] + lines[1..] == lines;
    }
  }

  lemma {:induction false} RunAppend(st: Segmenter, a: seq<string>, b: seq<string>)
    ensures Run(st, a + b) == Run(Run(st, a), b)
    decreases |a|
  {
    if a == [] {
      assert a + b == b;
    } else {
      assert (a + b)[0] == a[0];
      assert (a + b)[1..] == a[1..] + b;
      RunAppend(Step(st, a[0]), a[1..], b);
    }
  }

  /** The lines of `b`, an empty line, then the lines of `rest`. */
  lemma LinesOfPair(b: string, rest: string)
    ensures Lines(b + "\n\n" + rest) == Lines(b) + [[]] + Lines(rest)
  {
    assert b + "\n\n" + rest == b + ['\n'] + ([] + ['\n'] + rest);
    SplitAppend(b, [] + ['\n'] + rest, '\n');
    SplitAppend([], rest, '\n');
  }

  lemma JoinCons(bs: seq<string>, sep: string)
    requires |bs| >= 2
    ensures Join(bs, sep) == bs[0] + sep + Join(bs[1..], sep)
  {
  }

  /** Good blocks joined by blank lines are read back one after the other
      behind the blocks finished before them. */
  lemma {:induction false} RunJoined(acc: seq<string>, bs: seq<string>)
    requires |bs| >= 1 && AllGood(bs)
    ensures Finish(Run(Segmenter(acc, []), Lines(Join(bs, "\n\n")))) == acc + bs
    decreases |bs|
  {
    var b := bs[0];
    assert GoodBlock(b);
    if |bs| == 1 {
      RunLast(acc, b);
    } else {
      var rest := bs[1..];
      assert bs == [b] + rest;
      assert AllGood(rest) by {
        assert forall i :: 0 <= i < |rest| ==> rest[i] == bs[i + 1];
      }
      var tail := Join(rest, "\n\n");
      assert Lines(Join(bs, "\n\n")) == Lines(b) + [[]] + Lines(tail) by {
        JoinCons(bs, "\n\n");
        LinesOfPair(b, tail);
      }
      RunPastBlock(acc, b, Lines(tail));
      RunJoined(acc + [b], rest);
      AppendAssoc(acc, [b], rest);
    }
  }

  /** The last good block is read back when the lines run out. */
  lemma RunLast(acc: seq<string>, b: string)
    requires GoodBlock(b)
    ensures Finish(Run(Segmenter(acc, []), Lines(Join([b], "\n\n")))) == acc + [b]
  {
    JoinSplit(b, '\n');
    RunStripped(Segmenter(acc, []), Lines(b));
    assert [] + Lines(b) == Lines(b);
  }

  /** A good block followed by a blank line is finished and added to the
      blocks, and reading goes on with nothing pending. */
  lemma RunPastBlock(acc: seq<string>, b: string, more: seq<string>)
    requires GoodBlock(b)
    ensures Run(Segmenter(acc, []), Lines(b) + [[]] + more) == Run(Segmenter(acc + [b], []), more)
  {
    JoinSplit(b, '\n');
    var lb := Lines(b);
    RunAppend(Segmenter(acc, []), lb + [[]], more);
    RunAppend(Segmenter(acc, []), lb, [[]]);
    RunStripped(Segmenter(acc, []), lb);
    assert [] + lb == lb;
    assert lb != [] && lb[0] != [];
    StripEmpty([]);
    assert Run(Segmenter(acc, lb), [[]]) == Segmenter(acc + [b], []);
  }

  /** Segmenting the blocks joined by blank lines gives the same blocks. */
  lemma Resegment(markdown: string)
    ensures Blocks(Join(Blocks(markdown), "\n\n")) == Blocks(markdown)
  {
    var bs := Blocks(markdown);
    BlocksGood(markdown);
    if bs != [] {
      assert GoodBlock(bs[0]);
      if |bs| >= 2 {
        JoinCons(bs, "\n\n");
      }
      assert Join(bs, "\n\n") != [];
      RunJoined([], bs);
      assert [] + bs == bs;
    }
  }
}
