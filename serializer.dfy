/**
 * TaskSorter.stringifyBlocks: writing a block tree back out as text, one
 * line per block in pre-order, with a newline between neighbouring lines.
 */
module Serializer {
  import opened Blocks
  import opened Lines

  /** A forest lists at least one line exactly when it has at least one block. */
  lemma FlattenEmpty(forest: seq<Block>)
    ensures Flatten(forest) == [] <==> forest == []
  {
  }

  /** One block is written as its own line, then the lines below it. */
  lemma {:induction false} JoinSingle(b: Block)
    ensures Join(Texts([b])) == b.originalText + (if b.children == [] then "" else "\n" + Join(Texts(b.children)))
  {
    assert [b] == [b] + [];
    TextsAppend([b], []);
    assert Flatten([b]) == [Head(b)] + Flatten(b.children) by {
      assert [b][1..] == [];
    }
    TextsOfAppend([Head(b)], Flatten(b.children));
    var rest := Texts(b.children);
    FlattenEmpty(b.children);
    assert Texts([b]) == [b.originalText] + rest;
    if b.children != [] {
      JoinAppend([b.originalText], rest);
    }
  }

  /** Writing one more block after a non-empty group puts a newline between them. */
  lemma JoinSnoc(blocks: seq<Block>, i: nat)
    requires 0 < i < |blocks|
    ensures Join(Texts(blocks[..i + 1])) == Join(Texts(blocks[..i])) + "\n" + Join(Texts([blocks[i]]))
  {
    assert blocks[..i + 1] == blocks[..i] + [blocks[i]];
    TextsAppend(blocks[..i], [blocks[i]]);
    FlattenEmpty(blocks[..i]);
    FlattenEmpty([blocks[i]]);
    JoinAppend(Texts(blocks[..i]), Texts([blocks[i]]));
  }

  /** The text written for the first `i` blocks of a group, with the newline that follows them when more blocks come. */
  function Written(blocks: seq<Block>, i: nat): string
    requires i <= |blocks|
  {
    Join(Texts(blocks[..i])) + (if 0 < i < |blocks| then "\n" else "")
  }

  /** Writing block `i` after the first `i` blocks, and a newline when it is not the last, writes the first `i + 1` blocks. */
  lemma WrittenStep(blocks: seq<Block>, i: nat)
    requires i < |blocks|
    ensures Written(blocks, i) + Join(Texts([blocks[i]])) + (if i < |blocks| - 1 then "\n" else "") == Written(blocks, i + 1)
  {
    if i == 0 {
      assert blocks[..1] == [blocks[0]];
    } else {
      JoinSnoc(blocks, i);
    }
  }

  /**
   * TaskSorter.stringifyBlocks: each block's text, followed by a newline
   * and its children written out when it has any, with a newline after
   * every block but the last.
   */
  method StringifyBlocks(blocks: seq<Block>) returns (result: string)
    ensures result == Join(Texts(blocks))
    decreases blocks
  {
    result := "";
    for i := 0 to |blocks|
      invariant result == Written(blocks, i)
    {
      var block := blocks[i];
      ghost var before := result;
      result := result + block.originalText;
      if |block.children| > 0 {
        var inner := StringifyBlocks(block.children);
        result := result + "\n" + inner;
      }
      assert result == before + Join(Texts([block])) by {
        JoinSingle(block);
      }
      if i < |blocks| - 1 {
        result := result + "\n";
      }
      WrittenStep(blocks, i);
    }
    assert blocks[..|blocks|] == blocks;
  }
}
