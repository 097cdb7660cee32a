/**
 * TaskSorter.sort: the whole pipeline from a markdown document to the
 * document with every group of sibling tasks reordered so that incomplete
 * tasks come before completed ones.
 */
module TaskSorter {
  import opened Blocks
  import opened Lines
  import opened Parser
  import opened Sorting
  import opened Forest
  import opened Serializer
  import opened Seqs

  /** The lines of the output: the input's lines, parsed into a tree, sorted group by group and listed in pre-order. */
  function SortedLines(text: string): seq<string>
  {
    Texts(SortedForest(Parsed(SplitLines(text))))
  }

  /** The document TaskSorter.sort returns: empty for an empty document, otherwise the sorted lines joined with `"\n"`. */
  function SortedText(text: string): string
  {
    if text == "" then "" else Join(SortedLines(text))
  }

  /**
   * TaskSorter.sort: an empty document is returned as it is; otherwise the
   * document is split into lines, parsed into blocks, sorted in place and
   * written out again.
   */
  method Sort(text: string) returns (result: string)
    ensures result == SortedText(text)
  {
    if text == "" {
      return "";
    }
    var lines := SplitLines(text);
    var rootBlocks := ParseBlocks(lines);
    var blocks := new Block[|rootBlocks|](k requires 0 <= k < |rootBlocks| => rootBlocks[k]);
    assert blocks[..] == rootBlocks;
    SortBlocksRecursively(blocks);
    result := StringifyBlocks(blocks[..]);
  }

  // ---------------------------------------------------------------------------
  // Sorting only moves lines
  // ---------------------------------------------------------------------------

  /** A group split around one block has that block's text and the texts of the other blocks. */
  lemma TextsOfSplit(s: seq<Block>, before: seq<Block>, x: Block, after: seq<Block>)
    requires s == before + ([x] + after)
    ensures multiset(TextsOf(s)) == multiset([x.originalText]) + multiset(TextsOf(before + after))
  {
    var front, back := TextsOf(before), TextsOf(after);
    assert TextsOf(s) == front + ([x.originalText] + back) by {
      TextsOfAppend(before, [x] + after);
      TextsOfAppend([x], after);
    }
    assert TextsOf(before + after) == front + back by {
      TextsOfAppend(before, after);
    }
    MultisetSplit(front, x.originalText, back);
  }

  /** Taking the block at `j` out of a group takes its text out of the group's texts. */
  lemma TextsOfRemove(s: seq<Block>, j: nat)
    requires j < |s|
    ensures multiset(TextsOf(s)) == multiset([s[j].originalText]) + multiset(TextsOf(s[..j] + s[j + 1..]))
  {
    SplitAt(s, j);
    TextsOfSplit(s, s[..j], s[j], s[j + 1..]);
  }

  /** Listing a block's text first, or in its place in a permutation of the rest, lists the same texts. */
  lemma TextsOfPermutedStep(a: seq<Block>, b: seq<Block>, j: nat)
    requires a != [] && j < |b| && b[j] == a[0]
    requires multiset(TextsOf(a[1..])) == multiset(TextsOf(b[..j] + b[j + 1..]))
    ensures multiset(TextsOf(a)) == multiset(TextsOf(b))
  {
    TextsOfRemove(b, j);
    assert TextsOf(a) == [a[0].originalText] + TextsOf(a[1..]) by {
      ConsSplit(a);
      TextsOfAppend([a[0]], a[1..]);
    }
  }

  /** Permutations of each other have texts that are permutations of each other. */
  lemma {:induction false} TextsOfPermuted(a: seq<Block>, b: seq<Block>)
    requires multiset(a) == multiset(b)
    ensures multiset(TextsOf(a)) == multiset(TextsOf(b))
    decreases |a|
  {
    if a != [] {
      assert a[0] in multiset(b);
      var j :| 0 <= j < |b| && b[j] == a[0];
      RemoveMatching(a, b, j);
      TextsOfPermuted(a[1..], b[..j] + b[j + 1..]);
      TextsOfPermutedStep(a, b, j);
    }
  }

  /** The output holds exactly the lines of the input, each as often as before, only in another order. */
  lemma SortKeepsLines(text: string)
    ensures multiset(SortedLines(text)) == multiset(SplitLines(text))
    ensures |SortedLines(text)| == |SplitLines(text)|
  {
    var lines := SplitLines(text);
    var parsed := Parsed(lines);
    SortedForestFlatten(parsed);
    TextsOfPermuted(Flatten(SortedForest(parsed)), Flatten(parsed));
    ParsedTexts(lines);
    assert |SortedLines(text)| == |multiset(SortedLines(text))|;
  }

  // ---------------------------------------------------------------------------
  // Documents that are already sorted
  // ---------------------------------------------------------------------------

  /** A document whose every group is already in order comes back with only its `"\r\n"` separators turned into `"\n"`. */
  lemma SortKeepsSortedText(text: string)
    requires ForestInOrder(Parsed(SplitLines(text)))
    ensures SortedText(text) == Normalized(text)
  {
    var lines := SplitLines(text);
    SortedForestKeepsInOrder(Parsed(lines));
    ParsedTexts(lines);
    JoinSplitLines(text);
  }

  /** Without `"\r\n"` separators, a document already in order comes back unchanged. */
  lemma SortKeepsSortedPlainText(text: string)
    requires ForestInOrder(Parsed(SplitLines(text))) && NoCrLf(text)
    ensures SortedText(text) == text
  {
    SortKeepsSortedText(text);
    NormalizedWithoutCrLf(text);
  }

  /** Sorting keeps every child strictly deeper than its parent, as the parser built it. */
  lemma {:induction false} SortedForestWellNested(forest: seq<Block>)
    requires WellNested(forest)
    ensures WellNested(SortedForest(forest))
    decreases forest
  {
    var r := SortedForest(forest);
    forall k | 0 <= k < |r|
      ensures forall c :: c in r[k].children ==> Level(c) > Level(r[k])
      ensures WellNested(r[k].children)
    {
      SortedForestAt(forest, k);
      var b := InsertionSort(forest)[k];
      var j :| 0 <= j < |forest| && forest[j] == b;
      SortedForestWellNested(b.children);
      forall c | c in r[k].children ensures Level(c) > Level(r[k]) {
        var i :| 0 <= i < |r[k].children| && r[k].children[i] == c;
        SortedForestAt(b.children, i);
      }
    }
  }

  /** The tree the output is written from is well nested. */
  lemma SortedParseWellNested(text: string)
    ensures WellNested(SortedForest(Parsed(SplitLines(text))))
  {
    ParsedWellNested(SplitLines(text));
    SortedForestWellNested(Parsed(SplitLines(text)));
  }

  /** The lines of the output come from a tree whose every group is in order, and that tree is left alone by a second sort. */
  lemma SortedLinesInOrder(text: string)
    ensures ForestInOrder(SortedForest(Parsed(SplitLines(text))))
    ensures SortedForest(SortedForest(Parsed(SplitLines(text)))) == SortedForest(Parsed(SplitLines(text)))
  {
    SortedForestInOrder(Parsed(SplitLines(text)));
    SortedForestIdempotent(Parsed(SplitLines(text)));
  }
}
