/**
 * One line of a Markdown document: its classification as a checkbox task
 * and its indentation, and the tree of blocks nested below it.
 */
module Blocks {

  datatype Option<T> = None | Some(value: T)

  /** A line of the document together with the blocks indented below it. */
  datatype Block = Block(
    originalText: string,
    indentation: string,
    isTask: bool,
    isCompleted: bool,
    lineNumber: int,
    children: seq<Block>)

  /**
   * The regular-expression class `\s` of ECMAScript: the WhiteSpace code
   * points (tab, vertical tab, form feed, space, no-break space, the byte
   * order mark and the space separators) and the LineTerminator code points.
   */
  predicate IsWhitespace(c: char)
  {
    c == '\t' || c == '\n' || c == '\U{B}' || c == '\U{C}' || c == '\r' || c == ' '
    || c == '\U{A0}' || c == '\U{1680}' || ('\U{2000}' <= c <= '\U{200A}')
    || c == '\U{2028}' || c == '\U{2029}' || c == '\U{202F}' || c == '\U{205F}'
    || c == '\U{3000}' || c == '\U{FEFF}'
  }

  /** The characters that `.` does not match in a regular expression without the `s` flag. */
  predicate IsLineTerminator(c: char)
  {
    c == '\n' || c == '\r' || c == '\U{2028}' || c == '\U{2029}'
  }

  /**
   * What `(.)` matches in a regular expression without the `u` flag: one
   * UTF-16 code unit that is not a line terminator.  A code point outside the
   * Basic Multilingual Plane takes two code units, so it is never matched.
   */
  predicate IsStatusChar(c: char)
  {
    !IsLineTerminator(c) && c < '\U{10000}'
  }

  /** The end of the longest run of whitespace in `s` that starts at `i`. */
  function WhitespaceEnd(s: string, i: nat): (j: nat)
    requires i <= |s|
    ensures i <= j <= |s|
    ensures forall k :: i <= k < j ==> IsWhitespace(s[k])
    ensures j == |s| || !IsWhitespace(s[j])
    decreases |s| - i
  {
    if i < |s| && IsWhitespace(s[i]) then WhitespaceEnd(s, i + 1) else i
  }

  /** A maximal run of whitespace is determined by where it starts. */
  lemma WhitespaceEndUnique(s: string, i: nat, j: nat)
    requires i <= j <= |s|
    requires forall k :: i <= k < j ==> IsWhitespace(s[k])
    requires j == |s| || !IsWhitespace(s[j])
    ensures WhitespaceEnd(s, i) == j
  {
  }

  /** The match of `^\s*`: the leading whitespace of a line (TaskBlock.getIndentation). */
  function Indentation(text: string): (indent: string)
    ensures indent <= text
    ensures forall k :: 0 <= k < |indent| ==> IsWhitespace(indent[k])
    ensures |indent| == |text| || !IsWhitespace(text[|indent|])
  {
    text[..WhitespaceEnd(text, 0)]
  }

  /**
   * The match of `^\s*[-*]\s+\[(.)\]` against a line: the status character
   * captured between the brackets, or None when the line is not a task.
   * Both `\s*` and `\s+` are followed by a character that is not whitespace,
   * so each of them matches its longest run and the match never backtracks.
   */
  function TaskStatus(text: string): Option<char>
  {
    var m := WhitespaceEnd(text, 0);
    if m < |text| && (text[m] == '-' || text[m] == '*') then
      var b := WhitespaceEnd(text, m + 1);
      if m + 1 < b && b + 2 < |text| && text[b] == '[' && IsStatusChar(text[b + 1]) && text[b + 2] == ']'
      then Some(text[b + 1])
      else None
    else None
  }

  /**
   * `text` decomposes as: whitespace `text[..m]`, a bullet `-` or `*` at `m`,
   * one or more whitespace characters `text[m+1..b]`, then `[`, a status
   * character and `]` at `b`, `b+1`, `b+2`; anything may follow.
   */
  ghost predicate TaskShape(text: string, m: nat, b: nat)
  {
    && m + 1 < b && b + 2 < |text|
    && (forall k :: 0 <= k < m ==> IsWhitespace(text[k]))
    && (text[m] == '-' || text[m] == '*')
    && (forall k :: m + 1 <= k < b ==> IsWhitespace(text[k]))
    && text[b] == '[' && IsStatusChar(text[b + 1]) && text[b + 2] == ']'
  }

  /** TaskStatus recognises exactly the lines that have the task shape, and captures its status character. */
  lemma TaskStatusMatchesShape(text: string)
    ensures TaskStatus(text).Some? <==> exists m, b :: TaskShape(text, m, b)
    ensures forall m, b :: TaskShape(text, m, b) ==> TaskStatus(text) == Some(text[b + 1])
  {
    var m := WhitespaceEnd(text, 0);
    if m < |text| && (text[m] == '-' || text[m] == '*') {
      var b := WhitespaceEnd(text, m + 1);
      if TaskStatus(text).Some? {
        assert TaskShape(text, m, b);
      }
    }
    forall m': nat, b': nat | TaskShape(text, m', b')
      ensures TaskStatus(text) == Some(text[b' + 1])
    {
      WhitespaceEndUnique(text, 0, m');
      WhitespaceEndUnique(text, m' + 1, b');
    }
  }

  /** The TaskBlock constructor: classifies one line of the document. */
  function NewBlock(text: string, lineNumber: int): (b: Block)
    ensures b.originalText == text && b.lineNumber == lineNumber && b.children == []
    ensures b.indentation == Indentation(text)
    ensures b.isTask <==> exists m, n :: TaskShape(text, m, n)
    ensures b.isCompleted <==> exists m, n :: TaskShape(text, m, n) && text[n + 1] != ' '
  {
    TaskStatusMatchesShape(text);
    var status := TaskStatus(text);
    Block(text, Indentation(text), status.Some?, status.Some? && status.value != ' ', lineNumber, [])
  }

  /** Non-task lines are never completed. */
  lemma CompletedIsTask(text: string, lineNumber: int)
    ensures NewBlock(text, lineNumber).isCompleted ==> NewBlock(text, lineNumber).isTask
  {
  }

  /** The width of one indentation character: 4 for a tab, 1 for anything else. */
  function CharWidth(c: char): nat
  {
    if c == '\t' then 4 else 1
  }

  /** The indentation width of a whitespace prefix, accumulated from the left. */
  function IndentWidth(indent: string): nat
  {
    if indent == [] then 0 else IndentWidth(indent[..|indent| - 1]) + CharWidth(indent[|indent| - 1])
  }

  /** TaskSorter.getIndentLevel: 4 per tab and 1 per other character. */
  method GetIndentLevel(indent: string) returns (level: nat)
    ensures level == IndentWidth(indent)
  {
    level := 0;
    for i := 0 to |indent|
      invariant level == IndentWidth(indent[..i])
    {
      assert indent[..i + 1][..i] == indent[..i];
      if indent[i] == '\t' {
        level := level + 4;
      } else {
        level := level + 1;
      }
    }
    assert indent[..|indent|] == indent;
  }

  /** The width is the number of characters plus three for every tab. */
  lemma {:induction false} IndentWidthCounts(indent: string)
    ensures IndentWidth(indent) == |indent| + 3 * multiset(indent)['\t']
  {
    if indent != [] {
      var init, last := indent[..|indent| - 1], indent[|indent| - 1];
      assert indent == init + [last];
      IndentWidthCounts(init);
    }
  }

  /** The indentation level of a block. */
  function Level(b: Block): nat
  {
    IndentWidth(b.indentation)
  }

  /** A line has level 0 exactly when it does not start with whitespace. */
  lemma LevelZero(text: string, lineNumber: int)
    ensures Level(NewBlock(text, lineNumber)) == 0 <==> text == [] || !IsWhitespace(text[0])
  {
    var indent := Indentation(text);
    IndentWidthCounts(indent);
    if indent != [] {
      assert indent[0] == text[0];
    }
  }

  /** The block itself, without the blocks nested below it. */
  function Head(b: Block): Block
  {
    b.(children := [])
  }

  /** The pre-order listing of a forest: each block, then its children's listing, then the next sibling. */
  function Flatten(forest: seq<Block>): seq<Block>
  {
    if forest == [] then [] else [Head(forest[0])] + Flatten(forest[0].children) + Flatten(forest[1..])
  }

  lemma {:induction false} FlattenAppend(a: seq<Block>, b: seq<Block>)
    ensures Flatten(a + b) == Flatten(a) + Flatten(b)
  {
    if a != [] {
      assert (a + b)[0] == a[0] && (a + b)[1..] == a[1..] + b;
      FlattenAppend(a[1..], b);
      calc {
        Flatten(a + b);
        [Head(a[0])] + Flatten(a[0].children) + Flatten(a[1..] + b);
        [Head(a[0])] + Flatten(a[0].children) + (Flatten(a[1..]) + Flatten(b));
        Flatten(a) + Flatten(b);
      }
    } else {
      assert a + b == b;
    }
  }

  /** The texts of a sequence of blocks, in order. */
  function TextsOf(blocks: seq<Block>): (texts: seq<string>)
    ensures |texts| == |blocks|
    ensures forall k :: 0 <= k < |blocks| ==> texts[k] == blocks[k].originalText
  {
    seq(|blocks|, k requires 0 <= k < |blocks| => blocks[k].originalText)
  }

  /** The lines of a forest, in pre-order. */
  function Texts(forest: seq<Block>): seq<string>
  {
    TextsOf(Flatten(forest))
  }

  lemma TextsOfAppend(a: seq<Block>, b: seq<Block>)
    ensures TextsOf(a + b) == TextsOf(a) + TextsOf(b)
  {
  }

  lemma TextsAppend(a: seq<Block>, b: seq<Block>)
    ensures Texts(a + b) == Texts(a) + Texts(b)
  {
    FlattenAppend(a, b);
    TextsOfAppend(Flatten(a), Flatten(b));
  }
}
