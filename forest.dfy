/**
 * TaskSorter.sortBlocksRecursively: every sibling group of the block tree
 * is sorted, the top level first and then, block by block, the groups of
 * children below it.
 */
module Forest {
  import opened Blocks
  import opened Sorting
  import opened Seqs

  /** The forest after TaskSorter.sortBlocksRecursively: its top level sorted, then each block's children sorted in turn. */
  function SortedForest(forest: seq<Block>): (r: seq<Block>)
    ensures |r| == |forest|
    decreases forest, 1
  {
    var level := InsertionSort(forest);
    SortLevelPermutes(forest);
    SortLevelLength(forest);
    seq(|level|, k requires 0 <= k < |level| => assert level[k] in multiset(forest); SortedTree(level[k]))
  }

  /** A block with the groups of children below it sorted. */
  function SortedTree(b: Block): Block
    decreases b, 0
  {
    b.(children := SortedForest(b.children))
  }

  /** The top level of the sorted forest is the sorted group, each block with its children sorted. */
  lemma SortedForestAt(forest: seq<Block>, k: nat)
    requires k < |forest|
    ensures |InsertionSort(forest)| == |forest|
    ensures SortedForest(forest)[k] == SortedTree(InsertionSort(forest)[k])
    ensures InsertionSort(forest)[k] in forest
  {
    SortLevelPermutes(forest);
    assert InsertionSort(forest)[k] in multiset(forest);
  }

  /**
   * TaskSorter.sortBlocksRecursively: sorts the group in place, then the
   * children of each block in turn.
   */
  method SortBlocksRecursively(blocks: array<Block>)
    modifies blocks
    ensures blocks[..] == SortedForest(old(blocks[..]))
    decreases blocks[..], 1
  {
    ghost var input := blocks[..];
    ghost var target := SortedForest(input);
    SortLevel(blocks);
    ghost var level := blocks[..];
    for i := 0 to blocks.Length
      invariant blocks[..i] == target[..i]
      invariant blocks[i..] == level[i..]
    {
      SortedForestAt(input, i);
      assert blocks[i] == level[i];
      var sorted := SortTree(blocks[i]);
      blocks[i] := sorted;
      assert blocks[..i + 1] == target[..i + 1];
    }
    assert blocks[..] == blocks[..blocks.Length] && target == target[..blocks.Length];
  }

  /**
   * The body of the loop in TaskSorter.sortBlocksRecursively: a block with
   * children has them copied into an array of their own, sorted there and
   * stored back; a block without children is left alone.
   */
  method SortTree(block: Block) returns (sorted: Block)
    ensures sorted == SortedTree(block)
    decreases block, 0
  {
    if |block.children| > 0 {
      var children := new Block[|block.children|](k requires 0 <= k < |block.children| => block.children[k]);
      assert children[..] == block.children;
      SortBlocksRecursively(children);
      sorted := block.(children := children[..]);
    } else {
      sorted := block;
    }
  }

  // ---------------------------------------------------------------------------
  // What the sorted tree looks like
  // ---------------------------------------------------------------------------

  /** Every sibling group of the forest is in order. */
  predicate ForestInOrder(forest: seq<Block>)
  {
    && InOrder(forest)
    && forall k :: 0 <= k < |forest| ==> ForestInOrder(forest[k].children)
  }

  /** After TaskSorter.sortBlocksRecursively no group has a completed task directly before an incomplete one. */
  lemma {:induction false} SortedForestInOrder(forest: seq<Block>)
    ensures ForestInOrder(SortedForest(forest))
    decreases forest
  {
    var level := InsertionSort(forest);
    var r := SortedForest(forest);
    SortLevelInOrder(forest);
    SortLevelPermutes(forest);
    forall k | 0 <= k < |r| ensures ForestInOrder(r[k].children) {
      SortedForestAt(forest, k);
      SortedForestInOrder(level[k].children);
    }
    forall k | 0 < k < |r| ensures !(IsDone(r[k - 1]) && IsOpen(r[k])) {
      SortedForestAt(forest, k - 1);
      SortedForestAt(forest, k);
    }
  }

  /** A forest whose every group is in order is left exactly as it is. */
  lemma {:induction false} SortedForestKeepsInOrder(forest: seq<Block>)
    requires ForestInOrder(forest)
    ensures SortedForest(forest) == forest
    decreases forest
  {
    SortLevelKeepsInOrder(forest);
    var r := SortedForest(forest);
    forall k | 0 <= k < |r| ensures r[k] == forest[k] {
      SortedForestAt(forest, k);
      SortedForestKeepsInOrder(forest[k].children);
    }
  }

  /** Sorting the tree a second time changes nothing. */
  lemma SortedForestIdempotent(forest: seq<Block>)
    ensures SortedForest(SortedForest(forest)) == SortedForest(forest)
  {
    SortedForestInOrder(forest);
    SortedForestKeepsInOrder(SortedForest(forest));
  }

  // ---------------------------------------------------------------------------
  // Sorting only rearranges lines
  // ---------------------------------------------------------------------------

  /** Taking the block at `j` out of a group takes its listing out of the group's listing. */
  lemma FlattenRemove(s: seq<Block>, j: nat)
    requires j < |s|
    ensures multiset(Flatten(s)) == multiset(Flatten([s[j]])) + multiset(Flatten(s[..j] + s[j + 1..]))
  {
    var before, after := s[..j], s[j + 1..];
    SplitAt(s, j);
    assert Flatten(s) == Flatten(before) + (Flatten([s[j]]) + Flatten(after)) by {
      FlattenAppend(before, [s[j]] + after);
      FlattenAppend([s[j]], after);
    }
    FlattenAppend(before, after);
  }

  /** Removing the same block from two permutations of each other leaves permutations of each other. */
  lemma RemoveMatching(a: seq<Block>, b: seq<Block>, j: nat)
    requires multiset(a) == multiset(b) && a != [] && j < |b| && b[j] == a[0]
    ensures multiset(a[1..]) == multiset(b[..j] + b[j + 1..])
  {
    var x := a[0];
    assert b == b[..j] + [x] + b[j + 1..];
    assert a == [x] + a[1..];
    var ma, mb := multiset(a[1..]), multiset(b[..j] + b[j + 1..]);
    assert multiset(a) == multiset{x} + ma;
    assert multiset(b) == multiset(b[..j]) + multiset{x} + multiset(b[j + 1..]);
    assert mb == multiset(b[..j]) + multiset(b[j + 1..]);
    forall y ensures ma[y] == mb[y] {
      assert multiset(a)[y] == multiset{x}[y] + ma[y];
      assert multiset(b)[y] == multiset(b[..j])[y] + multiset{x}[y] + multiset(b[j + 1..])[y];
    }
  }

  /** Listing a block first, or in its place in a permutation of the rest, lists the same blocks. */
  lemma PermutedFlattenStep(a: seq<Block>, b: seq<Block>, j: nat)
    requires a != [] && j < |b| && b[j] == a[0]
    requires multiset(Flatten(a[1..])) == multiset(Flatten(b[..j] + b[j + 1..]))
    ensures multiset(Flatten(a)) == multiset(Flatten(b))
  {
    var x := [a[0]];
    assert multiset(Flatten(b)) == multiset(Flatten(x)) + multiset(Flatten(b[..j] + b[j + 1..])) by {
      FlattenRemove(b, j);
    }
    assert multiset(Flatten(a)) == multiset(Flatten(x)) + multiset(Flatten(a[1..])) by {
      FlattenAppend(x, a[1..]);
      ConsSplit(a);
    }
  }

  /** Groups that are permutations of each other list the same blocks. */
  lemma {:induction false} PermutedFlatten(a: seq<Block>, b: seq<Block>)
    requires multiset(a) == multiset(b)
    ensures multiset(Flatten(a)) == multiset(Flatten(b))
    decreases |a|
  {
    if a != [] {
      assert a[0] in multiset(b);
      var j :| 0 <= j < |b| && b[j] == a[0];
      RemoveMatching(a, b, j);
      PermutedFlatten(a[1..], b[..j] + b[j + 1..]);
      PermutedFlattenStep(a, b, j);
    }
  }

  /** Sorting a group keeps the blocks listed below it. */
  lemma SortLevelFlatten(s: seq<Block>)
    ensures multiset(Flatten(InsertionSort(s))) == multiset(Flatten(s))
  {
    SortLevelPermutes(s);
    PermutedFlatten(InsertionSort(s), s);
  }

  /** Sorting the tree lists the same blocks, each with its children removed, as often as before. */
  lemma {:induction false} SortedForestFlatten(forest: seq<Block>)
    ensures multiset(Flatten(SortedForest(forest))) == multiset(Flatten(forest))
    decreases forest, 1
  {
    var level := InsertionSort(forest);
    SortLevelPermutes(forest);
    assert |level| == |forest| by {
      assert |multiset(level)| == |multiset(forest)|;
    }
    forall k | 0 <= k < |level| ensures level[k] in forest && SortedForest(forest)[k] == SortedTree(level[k]) {
      SortedForestAt(forest, k);
    }
    SortedTreesFlatten(forest, level, SortedForest(forest));
    SortLevelFlatten(forest);
  }

  lemma {:induction false} SortedTreesFlatten(forest: seq<Block>, level: seq<Block>, r: seq<Block>)
    requires |r| == |level|
    requires forall k :: 0 <= k < |level| ==> level[k] in forest && r[k] == SortedTree(level[k])
    ensures multiset(Flatten(r)) == multiset(Flatten(level))
    decreases forest, 0, |level|
  {
    if level != [] {
      assert level[0] in forest;
      SortedForestFlatten(level[0].children);
      SortedTreesFlatten(forest, level[1..], r[1..]);
      assert Head(r[0]) == Head(level[0]);
    }
  }
}
