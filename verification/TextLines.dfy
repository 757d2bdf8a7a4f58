/**
 What the lines of a text are, said without any way to compute them: every text is a list of lines,
 each ended by a line feed with or without a carriage return before it, and an unended rest.
 */
module TextLines {
  // A line and whether a carriage return stands before its line feed.
  type Ended = (string, bool)

  function Written(lines: seq<Ended>): string {
    if lines == [] then "" else lines[0].0 + (if lines[0].1 then "\r\n" else "\n") + Written(lines[1..])
  }

  function Firsts(lines: seq<Ended>): seq<string> {
    seq(|lines|, k requires 0 <= k < |lines| => lines[k].0)
  }

  // No line holds a line feed, and one that ends in a carriage return is ended by another and a line feed.
  predicate Plain(lines: seq<Ended>) {
    forall k | 0 <= k < |lines| ::
      '\n' !in lines[k].0 && (lines[k].0 != "" && lines[k].0[|lines[k].0| - 1] == '\r' ==> lines[k].1)
  }

  predicate IsText(text: string, lines: seq<Ended>, rest: string) {
    Plain(lines) && '\n' !in rest && text == Written(lines) + rest
  }

  lemma WrittenFirst(lines: seq<Ended>, rest: string)
    requires Plain(lines) && lines != []
    ensures Plain([lines[0]]) && Plain(lines[1..]) && '\n' !in lines[0].0
    ensures Written(lines) + rest == lines[0].0 + (if lines[0].1 then "\r\n" else "\n") + (Written(lines[1..]) + rest)
    ensures Firsts(lines) == [lines[0].0] + Firsts(lines[1..])
  {
  }

  /** Every text is written in such a way. */
  lemma {:induction false} EveryText(text: string) returns (lines: seq<Ended>, rest: string)
    ensures IsText(text, lines, rest)
    decreases |text|
  {
    if '\n' !in text {
      lines, rest := [], text;
      assert Written([]) + text == text;
    } else {
      var i := FirstFeed(text);
      var more: seq<Ended>;
      more, rest := EveryText(text[i + 1..]);
      var ended := i > 0 && text[i - 1] == '\r';
      var line := (if ended then text[..i - 1] else text[..i], ended);
      lines := [line] + more;
      assert Plain(lines) by {
        forall k | 0 <= k < |lines|
          ensures '\n' !in lines[k].0 && (lines[k].0 != "" && lines[k].0[|lines[k].0| - 1] == '\r' ==> lines[k].1)
        {
          if k > 0 { assert lines[k] == more[k - 1]; }
        }
      }
      assert lines[1..] == more;
      assert text[..i] + "\n" == line.0 + (if ended then "\r\n" else "\n");
      assert text == text[..i] + "\n" + text[i + 1..];
      assert Written(lines) + rest == line.0 + (if ended then "\r\n" else "\n") + (Written(more) + rest);
    }
  }

  lemma FirstFeed(text: string) returns (i: nat)
    requires '\n' in text
    ensures i < |text| && text[i] == '\n' && '\n' !in text[..i]
  {
    i := 0;
    while text[i] != '\n'
      invariant i < |text| && '\n' !in text[..i] && '\n' in text[i..]
      decreases |text| - i
    {
      i := i + 1;
    }
  }

  predicate EndsInFeed(text: string) {
    text != "" && text[|text| - 1] == '\n'
  }

  lemma {:induction false} WrittenEnds(lines: seq<Ended>)
    ensures lines != [] ==> EndsInFeed(Written(lines))
  {
    if lines != [] { WrittenEnds(lines[1..]); }
  }

  // The texts have the same lines, each ended in either of the two ways.
  ghost predicate SameLines(left: string, right: string) {
    exists leftLines, rightLines, rest ::
      IsText(left, leftLines, rest) && IsText(right, rightLines, rest) && Firsts(leftLines) == Firsts(rightLines)
  }
}
