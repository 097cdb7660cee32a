/**
 * Splitting a document into lines on the regular expression `\r?\n`, and
 * joining lines back with `"\n"`.
 */
module Lines {
  import opened Seqs

  /**
   * `text.split(/\r?\n/)`: the pieces between the separators `"\r\n"` and
   * `"\n"`, scanning from the left; a text without separators is one piece.
   */
  function SplitLines(text: string): (lines: seq<string>)
    ensures |lines| >= 1
    ensures forall k :: 0 <= k < |lines| ==> '\n' !in lines[k]
    decreases |text|
  {
    if text == [] then [""]
    else if text[0] == '\n' then [""] + SplitLines(text[1..])
    else if text[0] == '\r' && |text| > 1 && text[1] == '\n' then [""] + SplitLines(text[2..])
    else
      var rest := SplitLines(text[1..]);
      [[text[0]] + rest[0]] + rest[1..]
  }

  /** `lines.join("\n")`: the lines with one newline between neighbours and none at either end. */
  function Join(lines: seq<string>): string
  {
    if |lines| == 0 then ""
    else if |lines| == 1 then lines[0]
    else lines[0] + "\n" + Join(lines[1..])
  }

  /** The text with every `"\r\n"` separator, scanned from the left, replaced by `"\n"`. */
  function Normalized(text: string): string
    decreases |text|
  {
    if text == [] then []
    else if text[0] == '\r' && |text| > 1 && text[1] == '\n' then "\n" + Normalized(text[2..])
    else [text[0]] + Normalized(text[1..])
  }

  /** No `"\r\n"` occurs in the text. */
  predicate NoCrLf(text: string)
  {
    forall k :: 0 < k < |text| ==> !(text[k - 1] == '\r' && text[k] == '\n')
  }

  /** Joining two non-empty runs of lines puts exactly one newline between them. */
  lemma {:induction false} JoinAppend(a: seq<string>, b: seq<string>)
    requires |a| > 0 && |b| > 0
    ensures Join(a + b) == Join(a) + "\n" + Join(b)
  {
    if |a| == 1 {
      assert (a + b)[1..] == b;
    } else {
      assert (a + b)[1..] == a[1..] + b;
      JoinAppend(a[1..], b);
    }
  }

  /** A first line in front of at least one more line is followed by a newline. */
  lemma JoinCons(first: string, rest: seq<string>)
    requires |rest| > 0
    ensures Join([first] + rest) == first + "\n" + Join(rest)
  {
    var l := [first] + rest;
    assert l[0] == first && l[1..] == rest;
  }

  /** Prepending a character to the first line prepends it to the joined text. */
  lemma PrependFirst(c: char, lines: seq<string>)
    requires |lines| > 0
    ensures Join([[c] + lines[0]] + lines[1..]) == [c] + Join(lines)
  {
    if |lines| == 1 {
      assert [[c] + lines[0]] + lines[1..] == [[c] + lines[0]];
    } else {
      var first, rest := lines[0], lines[1..];
      JoinCons([c] + first, rest);
      assert lines == [first] + rest;
      JoinCons(first, rest);
      Regroup([c], first, "\n", Join(rest));
    }
  }

  /** Joining the split lines gives back the text, with `"\r\n"` separators turned into `"\n"`. */
  lemma {:induction false} JoinSplitLines(text: string)
    ensures Join(SplitLines(text)) == Normalized(text)
    decreases |text|
  {
    if text == [] {
    } else if text[0] == '\n' {
      JoinSplitLines(text[1..]);
      JoinAppend([""], SplitLines(text[1..]));
    } else if text[0] == '\r' && |text| > 1 && text[1] == '\n' {
      JoinSplitLines(text[2..]);
      JoinAppend([""], SplitLines(text[2..]));
    } else {
      JoinSplitLines(text[1..]);
      PrependFirst(text[0], SplitLines(text[1..]));
    }
  }

  /** Without `"\r\n"` nothing is normalised. */
  lemma {:induction false} NormalizedWithoutCrLf(text: string)
    requires NoCrLf(text)
    ensures Normalized(text) == text
    decreases |text|
  {
    if text != [] {
      assert !(text[0] == '\r' && |text| > 1 && text[1] == '\n');
      assert NoCrLf(text[1..]) by {
        forall k | 0 < k < |text[1..]| ensures !(text[1..][k - 1] == '\r' && text[1..][k] == '\n') {
          assert text[1..][k - 1] == text[k] && text[1..][k] == text[k + 1];
        }
      }
      NormalizedWithoutCrLf(text[1..]);
    }
  }

  /** A text without `"\r\n"` is exactly the join of its split lines. */
  lemma JoinSplitLinesPlain(text: string)
    requires NoCrLf(text)
    ensures Join(SplitLines(text)) == text
  {
    JoinSplitLines(text);
    NormalizedWithoutCrLf(text);
  }
}
