/**
 * TaskSorter.parseBlocks: building the indentation tree of a document in
 * one pass over its lines, with an explicit stack of open ancestors.
 */
module Parser {
  import opened Blocks
  import opened Seqs

  /**
   * Where one more line goes in a forest that is being built: the new block
   * descends along the last block of each level for as long as that block is
   * strictly shallower, and is appended at the first level where it is not.
   */
  function Insert(forest: seq<Block>, b: Block): seq<Block>
  {
    if forest == [] || Level(forest[|forest| - 1]) >= Level(b) then forest + [b]
    else
      var last := forest[|forest| - 1];
      forest[..|forest| - 1] + [last.(children := Insert(last.children, b))]
  }

  /** The forest of a document's lines: each line, in order, inserted into the forest of the lines before it. */
  function Parsed(lines: seq<string>): seq<Block>
  {
    if lines == [] then []
    else Insert(Parsed(lines[..|lines| - 1]), NewBlock(lines[|lines| - 1], |lines| - 1))
  }

  /** Every block of the forest is strictly shallower than each of its children. */
  predicate WellNested(forest: seq<Block>)
  {
    forall k :: 0 <= k < |forest| ==>
      && (forall c :: c in forest[k].children ==> Level(c) > Level(forest[k]))
      && WellNested(forest[k].children)
  }

  /** Every root of the forest is strictly deeper than `level`. */
  predicate DeeperThan(forest: seq<Block>, level: int)
  {
    forall k :: 0 <= k < |forest| ==> Level(forest[k]) > level
  }

  lemma FlattenSingle(b: Block)
    ensures Flatten([b]) == [Head(b)] + Flatten(b.children)
  {
    assert [b][1..] == [];
  }

  /** A childless block inserted into a forest comes last in its pre-order listing. */
  lemma {:induction false} FlattenInsert(forest: seq<Block>, b: Block)
    requires b.children == []
    ensures Flatten(Insert(forest, b)) == Flatten(forest) + [b]
  {
    if forest == [] || Level(forest[|forest| - 1]) >= Level(b) {
      FlattenAppend(forest, [b]);
      FlattenSingle(b);
    } else {
      var init, last := forest[..|forest| - 1], forest[|forest| - 1];
      var last' := last.(children := Insert(last.children, b));
      SnocSplit(forest);
      assert Flatten(Insert(forest, b)) == Flatten(init) + ([Head(last)] + Flatten(Insert(last.children, b))) by {
        FlattenAppend(init, [last']);
        FlattenSingle(last');
      }
      assert Flatten(forest) == Flatten(init) + ([Head(last)] + Flatten(last.children)) by {
        FlattenAppend(init, [last]);
        FlattenSingle(last);
      }
      FlattenInsert(last.children, b);
      Regroup(Flatten(init), [Head(last)], Flatten(last.children), [b]);
      Assoc([Head(last)], Flatten(last.children), [b]);
    }
  }

  /** A listing of the blocks of all lines but the last, followed by the last line's block, lists the blocks of all lines. */
  lemma ListingStep(lines: seq<string>, before: seq<Block>, after: seq<Block>)
    requires lines != []
    requires |before| == |lines| - 1
    requires forall i :: 0 <= i < |before| ==> before[i] == NewBlock(lines[..|lines| - 1][i], i)
    requires after == before + [NewBlock(lines[|lines| - 1], |lines| - 1)]
    ensures |after| == |lines|
    ensures forall i :: 0 <= i < |lines| ==> after[i] == NewBlock(lines[i], i)
  {
    forall i | 0 <= i < |lines| ensures after[i] == NewBlock(lines[i], i) {
      if i < |lines| - 1 {
        assert after[i] == before[i] && lines[..|lines| - 1][i] == lines[i];
      }
    }
  }

  /** The tree builder makes exactly one block per line: the pre-order listing is the lines, in order, each with its own line number. */
  lemma {:induction false} ParsedListsLines(lines: seq<string>)
    ensures |Flatten(Parsed(lines))| == |lines|
    ensures forall i :: 0 <= i < |lines| ==> Flatten(Parsed(lines))[i] == NewBlock(lines[i], i)
  {
    if lines != [] {
      var init, b := lines[..|lines| - 1], NewBlock(lines[|lines| - 1], |lines| - 1);
      ParsedListsLines(init);
      FlattenInsert(Parsed(init), b);
      ListingStep(lines, Flatten(Parsed(init)), Flatten(Parsed(lines)));
    }
  }

  /** In particular the lines of the parsed forest, in pre-order, are the input lines. */
  lemma ParsedTexts(lines: seq<string>)
    ensures Texts(Parsed(lines)) == lines
  {
    ParsedListsLines(lines);
  }

  /** Inserting a block deeper than `level` keeps every root deeper than `level`. */
  lemma {:induction false} InsertDeeperThan(forest: seq<Block>, b: Block, level: int)
    requires DeeperThan(forest, level) && Level(b) > level
    ensures DeeperThan(Insert(forest, b), level)
  {
  }

  /** Inserting a childless block keeps the forest well nested. */
  lemma {:induction false} InsertWellNested(forest: seq<Block>, b: Block)
    requires WellNested(forest) && b.children == []
    ensures WellNested(Insert(forest, b))
  {
    if !(forest == [] || Level(forest[|forest| - 1]) >= Level(b)) {
      var last := forest[|forest| - 1];
      InsertWellNested(last.children, b);
      assert DeeperThan(last.children, Level(last));
      InsertDeeperThan(last.children, b, Level(last));
      var r := Insert(forest, b);
      assert r[|r| - 1] == last.(children := Insert(last.children, b));
      forall k | 0 <= k < |r|
        ensures (forall c :: c in r[k].children ==> Level(c) > Level(r[k])) && WellNested(r[k].children)
      {
        if k < |r| - 1 {
          assert r[k] == forest[k];
        }
      }
    }
  }

  /** Every child in the parsed forest is strictly deeper than its parent. */
  lemma {:induction false} ParsedWellNested(lines: seq<string>)
    ensures WellNested(Parsed(lines))
  {
    if lines != [] {
      ParsedWellNested(lines[..|lines| - 1]);
      InsertWellNested(Parsed(lines[..|lines| - 1]), NewBlock(lines[|lines| - 1], |lines| - 1));
    }
  }

  // ---------------------------------------------------------------------------
  // Which line becomes whose child
  // ---------------------------------------------------------------------------

  /** The level a line's block has. */
  function LineLevel(line: string): nat
  {
    IndentWidth(Indentation(line))
  }

  /** `LineLevel` is the level of the line's block, the one the tree builder compares. */
  lemma LineLevelOfBlock(line: string, i: int)
    ensures LineLevel(line) == Level(NewBlock(line, i))
  {
  }

  /** The index of the last of the first `j` lines that is strictly shallower than `level`, or None when no such line is. */
  function LastShallower(lines: seq<string>, j: nat, level: nat): Option<int>
    requires j <= |lines|
  {
    if j == 0 then None
    else if LineLevel(lines[j - 1]) < level then Some(j - 1)
    else LastShallower(lines, j - 1, level)
  }

  /** The parent of line `j` by the source's rule: the last earlier line strictly shallower than line `j`; None makes it a root. */
  function ParentLine(lines: seq<string>, j: nat): Option<int>
    requires j < |lines|
  {
    LastShallower(lines, j, LineLevel(lines[j]))
  }

  /** `LastShallower` names `p` exactly when line `p` comes before `j`, is strictly shallower than `level`, and every line between is at least that deep. */
  lemma {:induction false} LastShallowerIs(lines: seq<string>, j: nat, level: nat, p: int)
    requires j <= |lines|
    ensures LastShallower(lines, j, level) == Some(p) <==>
      && 0 <= p < j && LineLevel(lines[p]) < level
      && forall m :: p < m < j ==> LineLevel(lines[m]) >= level
  {
    if j > 0 && LineLevel(lines[j - 1]) >= level {
      LastShallowerIs(lines, j - 1, level, p);
    }
  }

  /** `LastShallower` finds nothing exactly when each of the first `j` lines is at least as deep as `level`. */
  lemma {:induction false} LastShallowerNone(lines: seq<string>, j: nat, level: nat)
    requires j <= |lines|
    ensures LastShallower(lines, j, level).None? <==> forall m :: 0 <= m < j ==> LineLevel(lines[m]) >= level
  {
    if j > 0 && LineLevel(lines[j - 1]) >= level {
      LastShallowerNone(lines, j - 1, level);
    }
  }

  /** `LastShallower` looks only at the first `j` lines. */
  lemma {:induction false} LastShallowerPrefix(lines: seq<string>, k: nat, j: nat, level: nat)
    requires j <= k <= |lines|
    ensures LastShallower(lines[..k], j, level) == LastShallower(lines, j, level)
  {
    if j > 0 {
      assert lines[..k][j - 1] == lines[j - 1];
      LastShallowerPrefix(lines, k, j - 1, level);
    }
  }

  /** The line number of the block under which `Insert` puts a new block of level `level`, or None when it becomes a root. */
  function AttachPoint(forest: seq<Block>, level: nat): Option<int>
  {
    if forest == [] || Level(forest[|forest| - 1]) >= level then None
    else
      var last := forest[|forest| - 1];
      var below := AttachPoint(last.children, level);
      if below.None? then Some(last.lineNumber) else below
  }

  /** The line numbers of the roots of a forest. */
  function RootLines(forest: seq<Block>): set<int>
  {
    if forest == [] then {} else RootLines(forest[..|forest| - 1]) + {forest[|forest| - 1].lineNumber}
  }

  /** The pairs (parent's line number, child's line number) of a forest, at every depth. */
  function Edges(forest: seq<Block>): set<(int, int)>
  {
    if forest == [] then {}
    else
      var last := forest[|forest| - 1];
      Edges(forest[..|forest| - 1]) + (set r | r in RootLines(last.children) :: (last.lineNumber, r)) + Edges(last.children)
  }

  /** The edge that attaching a block with line number `child` at `point` adds. */
  function NewEdge(point: Option<int>, child: int): set<(int, int)>
  {
    if point.Some? then {(point.value, child)} else {}
  }

  /** Inserting a block adds its line number to the roots exactly when it is attached as a root. */
  lemma RootLinesInsert(forest: seq<Block>, b: Block)
    ensures RootLines(Insert(forest, b)) == RootLines(forest) + (if AttachPoint(forest, Level(b)).None? then {b.lineNumber} else {})
  {
    var r := Insert(forest, b);
    if forest == [] || Level(forest[|forest| - 1]) >= Level(b) {
      assert r[..|r| - 1] == forest;
    } else {
      assert r[..|r| - 1] == forest[..|forest| - 1];
      SnocSplit(forest);
    }
  }

  /** Inserting a childless block adds exactly the edge from its attach point to it. */
  lemma {:induction false} InsertEdges(forest: seq<Block>, b: Block)
    requires b.children == []
    ensures Edges(Insert(forest, b)) == Edges(forest) + NewEdge(AttachPoint(forest, Level(b)), b.lineNumber)
  {
    var r := Insert(forest, b);
    if forest == [] || Level(forest[|forest| - 1]) >= Level(b) {
      assert r[..|r| - 1] == forest;
      assert RootLines(b.children) == {};
    } else {
      var last := forest[|forest| - 1];
      var kids := Insert(last.children, b);
      assert r[..|r| - 1] == forest[..|forest| - 1];
      InsertEdges(last.children, b);
      RootLinesInsert(last.children, b);
      SnocSplit(forest);
    }
  }

  /** A new line strictly deeper than the block just inserted is attached under that block. */
  lemma {:induction false} AttachBelowInserted(forest: seq<Block>, b: Block, level: nat)
    requires b.children == [] && Level(b) < level
    ensures AttachPoint(Insert(forest, b), level) == Some(b.lineNumber)
  {
    if !(forest == [] || Level(forest[|forest| - 1]) >= Level(b)) {
      AttachBelowInserted(forest[|forest| - 1].children, b, level);
    }
  }

  /** A new line at most as deep as the block just inserted is attached where it would have been before that block. */
  lemma {:induction false} AttachPastInserted(forest: seq<Block>, b: Block, level: nat)
    requires Level(b) >= level
    ensures AttachPoint(Insert(forest, b), level) == AttachPoint(forest, level)
  {
    if !(forest == [] || Level(forest[|forest| - 1]) >= Level(b)) {
      AttachPastInserted(forest[|forest| - 1].children, b, level);
    }
  }

  /** In the forest of some lines, a new line of level `level` is attached under the last line strictly shallower than it. */
  lemma {:induction false} AttachParsed(lines: seq<string>, level: nat)
    ensures AttachPoint(Parsed(lines), level) == LastShallower(lines, |lines|, level)
  {
    if lines != [] {
      var init := lines[..|lines| - 1];
      var b := NewBlock(lines[|lines| - 1], |lines| - 1);
      if LineLevel(lines[|lines| - 1]) < level {
        AttachBelowInserted(Parsed(init), b, level);
      } else {
        AttachParsed(init, level);
        LastShallowerPrefix(lines, |lines| - 1, |lines| - 1, level);
        AttachPastInserted(Parsed(init), b, level);
      }
    }
  }

  /** Every line keeps the parent it had among the lines before a new last line. */
  lemma ParentLinePrefix(lines: seq<string>, c: nat)
    requires c < |lines| - 1
    ensures ParentLine(lines, c) == ParentLine(lines[..|lines| - 1], c)
  {
    LastShallowerPrefix(lines, |lines| - 1, c, LineLevel(lines[c]));
  }

  /** One more line adds to the edges exactly the edge to its own parent, if it has one. */
  lemma EdgesStep(lines: seq<string>, before: set<(int, int)>, after: set<(int, int)>)
    requires lines != []
    requires forall e :: e in before <==> 0 <= e.1 < |lines| - 1 && ParentLine(lines[..|lines| - 1], e.1) == Some(e.0)
    requires after == before + NewEdge(ParentLine(lines, |lines| - 1), |lines| - 1)
    ensures forall e :: e in after <==> 0 <= e.1 < |lines| && ParentLine(lines, e.1) == Some(e.0)
  {
    forall e ensures e in after <==> 0 <= e.1 < |lines| && ParentLine(lines, e.1) == Some(e.0) {
      if 0 <= e.1 < |lines| - 1 {
        ParentLinePrefix(lines, e.1);
      }
    }
  }

  /** One more line is added to the roots exactly when it has no parent. */
  lemma RootsStep(lines: seq<string>, before: set<int>, after: set<int>)
    requires lines != []
    requires forall r :: r in before <==> 0 <= r < |lines| - 1 && ParentLine(lines[..|lines| - 1], r).None?
    requires after == before + (if ParentLine(lines, |lines| - 1).None? then {|lines| - 1} else {})
    ensures forall r :: r in after <==> 0 <= r < |lines| && ParentLine(lines, r).None?
  {
    forall r ensures r in after <==> 0 <= r < |lines| && ParentLine(lines, r).None? {
      if 0 <= r < |lines| - 1 {
        ParentLinePrefix(lines, r);
      }
    }
  }

  /**
   * The parsed forest links each line to the parent `ParentLine` names: its
   * edges are exactly the pairs (parent, line), and its roots are exactly the
   * lines without one.
   */
  lemma {:induction false} ParsedParents(lines: seq<string>)
    ensures forall e :: e in Edges(Parsed(lines)) <==> 0 <= e.1 < |lines| && ParentLine(lines, e.1) == Some(e.0)
    ensures forall r :: r in RootLines(Parsed(lines)) <==> 0 <= r < |lines| && ParentLine(lines, r).None?
  {
    if lines != [] {
      var n := |lines| - 1;
      var init := lines[..n];
      var b := NewBlock(lines[n], n);
      var forest := Parsed(init);
      var point := ParentLine(lines, n);
      assert Parsed(lines) == Insert(forest, b);
      assert AttachPoint(forest, Level(b)) == point by {
        assert Level(b) == LineLevel(lines[n]);
        AttachParsed(init, Level(b));
        LastShallowerPrefix(lines, n, n, Level(b));
      }
      ParsedParents(init);
      InsertEdges(forest, b);
      EdgesStep(lines, Edges(forest), Edges(Parsed(lines)));
      RootLinesInsert(forest, b);
      RootsStep(lines, RootLines(forest), RootLines(Parsed(lines)));
    }
  }

  /**
   * The parent rule of the tree builder: line `p` is the parent of line `c`
   * exactly when `p` comes before `c`, is strictly shallower, and every line
   * between them is at least as deep as `c`.
   */
  lemma ParentRule(lines: seq<string>, p: int, c: int)
    ensures (p, c) in Edges(Parsed(lines)) <==>
      && 0 <= p < c < |lines| && LineLevel(lines[p]) < LineLevel(lines[c])
      && forall m :: p < m < c ==> LineLevel(lines[m]) >= LineLevel(lines[c])
  {
    ParsedParents(lines);
    if 0 <= c < |lines| {
      LastShallowerIs(lines, c, LineLevel(lines[c]), p);
    }
  }

  /** A line is a root of the parsed forest exactly when every line before it is at least as deep. */
  lemma RootRule(lines: seq<string>, c: int)
    ensures c in RootLines(Parsed(lines)) <==>
      0 <= c < |lines| && forall m :: 0 <= m < c ==> LineLevel(lines[m]) >= LineLevel(lines[c])
  {
    ParsedParents(lines);
    if 0 <= c < |lines| {
      LastShallowerNone(lines, c, LineLevel(lines[c]));
    }
  }

  // ---------------------------------------------------------------------------
  // The stack of open ancestors
  // ---------------------------------------------------------------------------

  /** An entry of the ancestor stack: a block whose children are not all known yet, and its level. */
  datatype Frame = Frame(block: Block, level: nat)

  /** The open ancestors, innermost last, each holding the next as its last child. */
  function Nest(stack: seq<Frame>): (b: Block)
    requires |stack| > 0
    ensures b.indentation == stack[0].block.indentation
    decreases |stack|
  {
    if |stack| == 1 then stack[0].block
    else stack[0].block.(children := stack[0].block.children + [Nest(stack[1..])])
  }

  /**
   * The forest the tree builder has built so far: the finished roots, then the
   * outermost open ancestor holding all the others.
   */
  function Close(roots: seq<Block>, stack: seq<Frame>): seq<Block>
  {
    if stack == [] then roots else roots + [Nest(stack)]
  }

  /** The stack invariant: each frame records its block's level, and the levels strictly increase upwards. */
  predicate StackValid(stack: seq<Frame>)
  {
    && (forall k :: 0 <= k < |stack| ==> stack[k].level == Level(stack[k].block))
    && (forall k, l :: 0 <= k < l < |stack| ==> stack[k].level < stack[l].level)
  }

  /**
   * The block that goes last where a new line of level `level` is attached
   * (among the roots when the stack is empty, otherwise among the children of
   * the innermost frame) is at least as deep as the new line, or there is none.
   */
  predicate Attachable(roots: seq<Block>, stack: seq<Frame>, level: nat)
  {
    if stack == [] then roots == [] || Level(roots[|roots| - 1]) >= level
    else
      var kids := stack[|stack| - 1].block.children;
      kids == [] || Level(kids[|kids| - 1]) >= level
  }

  /** Every frame of a valid stack is at most as deep as its innermost frame. */
  lemma BelowTop(stack: seq<Frame>, level: nat)
    requires StackValid(stack)
    requires stack != [] ==> stack[|stack| - 1].level < level
    ensures forall k :: 0 <= k < |stack| ==> stack[k].level < level
  {
    forall k | 0 <= k < |stack| ensures stack[k].level < level {
      if k < |stack| - 1 {
        assert stack[k].level < stack[|stack| - 1].level;
      }
    }
  }

  /**
   * Pops the innermost open ancestor: it becomes the last child of the frame
   * below it, or a root when there is none.
   */
  function Pop(roots: seq<Block>, stack: seq<Frame>): (r: (seq<Block>, seq<Frame>))
    requires |stack| > 0
    ensures |r.1| == |stack| - 1
    ensures Close(r.0, r.1) == Close(roots, stack)
  {
    var top := stack[|stack| - 1];
    var below := stack[..|stack| - 1];
    if below == [] then (roots + [top.block], [])
    else
      var parent := below[|below| - 1];
      NestPop(below[..|below| - 1], parent, top);
      assert below[..|below| - 1] + [parent, top] == stack;
      (roots, below[..|below| - 1] + [parent.(block := parent.block.(children := parent.block.children + [top.block]))])
  }

  /**
   * Popping a frame at least as deep as `level` keeps the stack valid and
   * leaves a block at least as deep as `level` last among the roots or among
   * the children of the new innermost frame.
   */
  lemma PopKeepsStack(roots: seq<Block>, stack: seq<Frame>, level: nat)
    requires |stack| > 0 && StackValid(stack) && stack[|stack| - 1].level >= level
    ensures StackValid(Pop(roots, stack).1) && Attachable(Pop(roots, stack).0, Pop(roots, stack).1, level)
  {
    var (roots', stack') := Pop(roots, stack);
    if stack' != [] {
      assert stack'[..|stack'| - 1] == stack[..|stack'| - 1];
      assert forall k :: 0 <= k < |stack'| ==> stack'[k].block.indentation == stack[k].block.indentation && stack'[k].level == stack[k].level by {
        forall k | 0 <= k < |stack'|
          ensures stack'[k].block.indentation == stack[k].block.indentation && stack'[k].level == stack[k].level
        {
          if k < |stack'| - 1 {
            assert stack'[k] == stack'[..|stack'| - 1][k];
          }
        }
      }
    }
  }

  /** Pushing a frame deeper than every frame on a valid stack keeps it valid. */
  lemma PushKeepsStack(stack: seq<Frame>, b: Block)
    requires StackValid(stack)
    requires forall k :: 0 <= k < |stack| ==> stack[k].level < Level(b)
    ensures StackValid(stack + [Frame(b, Level(b))])
  {
  }

  /** Attaching the innermost frame to the one below it does not change the nested block. */
  lemma {:induction false} NestPop(s: seq<Frame>, parent: Frame, top: Frame)
    ensures Nest(s + [parent, top]) == Nest(s + [parent.(block := parent.block.(children := parent.block.children + [top.block]))])
    decreases |s|
  {
    if s != [] {
      assert (s + [parent, top])[1..] == s[1..] + [parent, top];
      assert (s + [parent.(block := parent.block.(children := parent.block.children + [top.block]))])[1..]
          == s[1..] + [parent.(block := parent.block.(children := parent.block.children + [top.block]))];
      NestPop(s[1..], parent, top);
    } else {
      assert [parent, top][1..] == [top];
    }
  }

  /**
   * Pushing a new childless frame on a stack whose levels are all smaller is
   * inserting its block into the nested block, provided the last child of the
   * innermost frame is not shallower than the new block.
   */
  lemma {:induction false} NestPush(stack: seq<Frame>, b: Block)
    requires |stack| > 0 && StackValid(stack) && b.children == []
    requires forall k :: 0 <= k < |stack| ==> stack[k].level < Level(b)
    requires var kids := stack[|stack| - 1].block.children; kids == [] || Level(kids[|kids| - 1]) >= Level(b)
    ensures Nest(stack + [Frame(b, Level(b))]) == Nest(stack).(children := Insert(Nest(stack).children, b))
    decreases |stack|
  {
    var f := Frame(b, Level(b));
    if |stack| == 1 {
      assert (stack + [f])[1..] == [f];
    } else {
      assert (stack + [f])[1..] == stack[1..] + [f];
      NestPush(stack[1..], b);
      var kids := stack[0].block.children + [Nest(stack[1..])];
      assert kids[..|kids| - 1] == stack[0].block.children;
    }
  }

  /** Pushing a frame on the stack is inserting its block into the forest built so far. */
  lemma ClosePush(roots: seq<Block>, stack: seq<Frame>, b: Block)
    requires StackValid(stack) && b.children == []
    requires forall k :: 0 <= k < |stack| ==> stack[k].level < Level(b)
    requires Attachable(roots, stack, Level(b))
    ensures Close(roots, stack + [Frame(b, Level(b))]) == Insert(Close(roots, stack), b)
  {
    if stack != [] {
      NestPush(stack, b);
      var forest := roots + [Nest(stack)];
      assert forest[..|forest| - 1] == roots;
    }
  }

  /**
   * The parent search of TaskSorter.parseBlocks: pops every open ancestor
   * that is at least as deep as the new line.  Afterwards every frame left is
   * strictly shallower, and what was popped last is at least as deep.
   */
  method PopDeeper(roots: seq<Block>, stack: seq<Frame>, indentLevel: nat) returns (roots': seq<Block>, stack': seq<Frame>)
    requires StackValid(stack) && Attachable(roots, stack, indentLevel)
    ensures StackValid(stack') && Attachable(roots', stack', indentLevel)
    ensures Close(roots', stack') == Close(roots, stack)
    ensures forall k :: 0 <= k < |stack'| ==> stack'[k].level < indentLevel
  {
    roots', stack' := roots, stack;
    while |stack'| > 0 && stack'[|stack'| - 1].level >= indentLevel
      invariant StackValid(stack') && Attachable(roots', stack', indentLevel)
      invariant Close(roots', stack') == Close(roots, stack)
      decreases |stack'|
    {
      PopKeepsStack(roots', stack', indentLevel);
      var popped := Pop(roots', stack');
      roots', stack' := popped.0, popped.1;
    }
    BelowTop(stack', indentLevel);
  }

  /** The innermost frame has no children yet, and there are no finished roots while the stack is empty. */
  predicate JustPushed(roots: seq<Block>, stack: seq<Frame>)
  {
    if stack == [] then roots == [] else stack[|stack| - 1].block.children == []
  }

  /** One line of TaskSorter.parseBlocks after its parent has been found: pushing its frame extends the forest by that line. */
  lemma PushLine(roots: seq<Block>, stack: seq<Frame>, lines: seq<string>, i: nat)
    requires i < |lines|
    requires StackValid(stack) && Attachable(roots, stack, Level(NewBlock(lines[i], i)))
    requires forall k :: 0 <= k < |stack| ==> stack[k].level < Level(NewBlock(lines[i], i))
    requires Close(roots, stack) == Parsed(lines[..i])
    ensures var b := NewBlock(lines[i], i);
      && StackValid(stack + [Frame(b, Level(b))])
      && JustPushed(roots, stack + [Frame(b, Level(b))])
      && Close(roots, stack + [Frame(b, Level(b))]) == Parsed(lines[..i + 1])
  {
    var b := NewBlock(lines[i], i);
    ClosePush(roots, stack, b);
    PushKeepsStack(stack, b);
    PrefixStep(lines, i);
  }

  /** Pops every frame that is left, attaching each to the one below it: the finished forest. */
  method PopAll(roots: seq<Block>, stack: seq<Frame>) returns (forest: seq<Block>)
    requires StackValid(stack)
    ensures forest == Close(roots, stack)
  {
    var stack' := stack;
    forest := roots;
    while |stack'| > 0
      invariant StackValid(stack')
      invariant Close(forest, stack') == Close(roots, stack)
      decreases |stack'|
    {
      PopKeepsStack(forest, stack', 0);
      var popped := Pop(forest, stack');
      forest, stack' := popped.0, popped.1;
    }
  }

  /**
   * TaskSorter.parseBlocks.  A block is attached to its parent's child list
   * when its frame is popped rather than when it is pushed, because blocks
   * are values here; `Close(roots, stack)` is the forest as it stands after
   * each line, and at the end every frame left is popped.
   */
  method ParseBlocks(lines: seq<string>) returns (roots: seq<Block>)
    ensures roots == Parsed(lines)
  {
    roots := [];
    var stack: seq<Frame> := [];
    for i := 0 to |lines|
      invariant StackValid(stack) && JustPushed(roots, stack)
      invariant Close(roots, stack) == Parsed(lines[..i])
    {
      var block := NewBlock(lines[i], i);
      var indentLevel := GetIndentLevel(block.indentation);

      // Find the parent
      assert Attachable(roots, stack, indentLevel);
      roots, stack := PopDeeper(roots, stack, indentLevel);

      PushLine(roots, stack, lines, i);
      stack := stack + [Frame(block, indentLevel)];
    }
    assert lines[..|lines|] == lines;
    roots := PopAll(roots, stack);
  }
}
