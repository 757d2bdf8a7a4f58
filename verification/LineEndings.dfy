/**
 The lines that the review pane finds in a text (line-diff.ts) are the lines it is written with,
 whichever way they are ended.
 */
module LineEndings {
  import opened LineDiff
  import opened TextLines

  // ---------------------------------------------------------------- the lines of a text

  lemma {:induction false} NormalizeRest(rest: string)
    requires '\n' !in rest
    ensures Normalize(rest) == rest
  {
    if |rest| >= 2 { NormalizeRest(rest[1..]); }
  }

  lemma NormalizeFeed(more: string)
    ensures Normalize("\n" + more) == "\n" + Normalize(more)
    ensures Normalize("\r\n" + more) == "\n" + Normalize(more)
  {
    assert ("\n" + more)[1..] == more && ("\r\n" + more)[2..] == more;
  }

  lemma NormalizeOne(c: char, more: string)
    requires more != "" && (c == '\r' ==> more[0] != '\n')
    ensures Normalize([c] + more) == [c] + Normalize(more)
  {
    assert ([c] + more)[1..] == more;
  }

  lemma HeadFirst(line: string, more: string)
    requires line != ""
    ensures line + more == [line[0]] + (line[1..] + more)
  {
  }

  lemma {:induction false} NormalizeUntil(line: string, more: string)
    requires '\n' !in line && more != "" && (line != "" && line[|line| - 1] == '\r' ==> more[0] != '\n')
    ensures Normalize(line + more) == line + Normalize(more)
  {
    if line == "" {
      assert line + more == more;
    } else {
      hide Normalize;
      NormalizeUntil(line[1..], more);
      NormalizeOne(line[0], line[1..] + more);
      HeadFirst(line, more);
      HeadFirst(line, Normalize(more));
    }
  }

  lemma NormalizeLine(line: Ended, more: string)
    requires Plain([line])
    ensures Normalize(line.0 + (if line.1 then "\r\n" else "\n") + more) == line.0 + "\n" + Normalize(more)
  {
    assert [line][0] == line;
    var ending := (if line.1 then "\r\n" else "\n") + more;
    NormalizeFeed(more);
    NormalizeUntil(line.0, ending);
    hide Normalize;
    assert line.0 + (if line.1 then "\r\n" else "\n") + more == line.0 + ending;
  }

  lemma {:induction false} SplitLine(line: string, more: string)
    requires '\n' !in line
    ensures Split(line + "\n" + more) == [line] + Split(more)
  {
    var text := line + "\n" + more;
    if line == "" {
      assert text[1..] == more;
    } else {
      SplitLine(line[1..], more);
      assert text[1..] == line[1..] + "\n" + more;
      assert [line[0]] + line[1..] == line;
    }
  }

  lemma {:induction false} SplitRest(rest: string)
    requires '\n' !in rest
    ensures Split(rest) == [rest]
  {
    if rest != "" {
      SplitRest(rest[1..]);
      assert [rest[0]] + rest[1..] == rest;
    }
  }

  lemma {:induction false} NormalizedText(lines: seq<Ended>, rest: string)
    requires Plain(lines) && '\n' !in rest
    ensures Split(Normalize(Written(lines) + rest)) == Firsts(lines) + [rest]
    ensures Normalize(Written(lines) + rest) == "" <==> lines == [] && rest == ""
    ensures lines != [] || rest != "" ==>
              var text := Normalize(Written(lines) + rest); text[|text| - 1] == '\n' <==> rest == ""
  {
    if lines == [] {
      assert Written(lines) + rest == rest;
      NormalizeRest(rest);
      SplitRest(rest);
    } else {
      hide Normalize, Split, Written, Plain, Firsts;
      WrittenFirst(lines, rest);
      NormalizeLine(lines[0], Written(lines[1..]) + rest);
      NormalizedText(lines[1..], rest);
      SplitLine(lines[0].0, Normalize(Written(lines[1..]) + rest));
    }
  }

  /** The lines found in a text are exactly those it is written with, whichever way each is ended. */
  lemma LinesOfText(text: string, lines: seq<Ended>, rest: string)
    requires IsText(text, lines, rest)
    ensures SourceLines(text) == SourceText(Firsts(lines) + if rest == "" then [] else [rest], lines != [] && rest == "")
  {
    NormalizedText(lines, rest);
    NormalizeEmpty(text);
    assert (Firsts(lines) + [rest])[..|lines|] == Firsts(lines);
    if text == "" { assert lines == []; }
  }

  lemma TrailingFeed(text: string)
    ensures SourceLines(text).trailingNewline <==> EndsInFeed(text)
  {
    var lines, rest := EveryText(text);
    LinesOfText(text, lines, rest);
    WrittenEnds(lines);
    if rest != "" { assert text[|text| - 1] == rest[|rest| - 1]; }
  }

  /** Two texts are split alike exactly when they differ in the ends of their lines only. */
  lemma SplitAlike(left: string, right: string)
    ensures SourceLines(left) == SourceLines(right) <==> SameLines(left, right)
  {
    if SameLines(left, right) {
      var leftLines, rightLines, rest :|
        IsText(left, leftLines, rest) && IsText(right, rightLines, rest) && Firsts(leftLines) == Firsts(rightLines);
      LinesOfText(left, leftLines, rest);
      LinesOfText(right, rightLines, rest);
      assert |Firsts(leftLines)| == |leftLines|;
    }
    if SourceLines(left) == SourceLines(right) {
      var leftLines, leftRest := EveryText(left);
      var rightLines, rightRest := EveryText(right);
      LinesOfText(left, leftLines, leftRest);
      LinesOfText(right, rightLines, rightRest);
      SameParts(leftLines, leftRest, rightLines, rightRest);
    }
  }

  lemma SameParts(leftLines: seq<Ended>, leftRest: string, rightLines: seq<Ended>, rightRest: string)
    requires Firsts(leftLines) + (if leftRest == "" then [] else [leftRest]) == Firsts(rightLines) + (if rightRest == "" then [] else [rightRest])
    requires (leftLines != [] && leftRest == "") == (rightLines != [] && rightRest == "")
    ensures Firsts(leftLines) == Firsts(rightLines) && leftRest == rightRest
  {
    var left := Firsts(leftLines) + (if leftRest == "" then [] else [leftRest]);
    var right := Firsts(rightLines) + (if rightRest == "" then [] else [rightRest]);
    if leftRest == "" {
      assert left == Firsts(leftLines);
      if leftLines == [] { assert right == []; }
      assert rightRest == "" && right == Firsts(rightLines);
    } else {
      assert |left| == |leftLines| + 1;
      assert rightRest != "";
      assert left[|left| - 1] == leftRest && right[|right| - 1] == rightRest;
      assert left[..|left| - 1] == Firsts(leftLines) && right[..|right| - 1] == Firsts(rightLines);
    }
  }

  lemma {:induction false} KeepsPlainText(text: string)
    requires forall k | 0 <= k < |text| - 1 :: !(text[k] == '\r' && text[k + 1] == '\n')
    ensures Normalize(text) == text
  {
    if |text| >= 2 { KeepsPlainText(text[1..]); }
  }

  /** Without a carriage return before a line feed, the lines and the final line feed are the text. */
  lemma TextOfLines(text: string)
    requires forall k | 0 <= k < |text| - 1 :: !(text[k] == '\r' && text[k + 1] == '\n')
    ensures TextOf(SourceLines(text)) == text
  {
    KeepsPlainText(text);
    SourceLinesRoundTrip(text);
  }
}
