/**
 The parser for newline-delimited JSON (ndjson.ts): chunks of text are pushed as they arrive,
 complete lines are parsed at once, and the unfinished last line waits for more. Parsing one
 payload is a parameter; the decoding of bytes is not represented, chunks are decoded text.
 */
module NdjsonSpec {
  import opened TextLines

  // The outcome of parsing one payload: an event, or the text of an error.
  datatype Parsed<E> = Event(event: E) | Malformed(message: string)

  datatype Output<E> = Output(events: seq<E>, errors: seq<string>)

  function Append<E>(first: Output<E>, second: Output<E>): Output<E> {
    Output(first.events + second.events, first.errors + second.errors)
  }

  // ---------------------------------------------------------------- lines

  function FirstNewline(text: string): (i: nat)
    ensures i <= |text| && (i < |text| ==> text[i] == '\n')
    ensures forall k | 0 <= k < i :: text[k] != '\n'
  {
    if text == "" || text[0] == '\n' then 0 else FirstNewline(text[1..]) + 1
  }

  function WithoutCarriageReturn(line: string): string {
    if line != "" && line[|line| - 1] == '\r' then line[..|line| - 1] else line
  }

  // split(/\r?\n/)
  function Split(text: string): (lines: seq<string>)
    ensures lines != []
    decreases |text|
  {
    var i := FirstNewline(text);
    if i == |text| then [text] else [WithoutCarriageReturn(text[..i])] + Split(text[i + 1..])
  }

  // ---------------------------------------------------------------- one line

  predicate Whitespace(c: char) {
    c in [' ', '\t', '\n', '\r', '\U{0B}', '\U{0C}', '\U{A0}', '\U{1680}', '\U{2028}', '\U{2029}', '\U{202F}', '\U{205F}', '\U{3000}', '\U{FEFF}']
    || '\U{2000}' <= c <= '\U{200A}'
  }

  function TrimStart(s: string): string {
    if s != "" && Whitespace(s[0]) then TrimStart(s[1..]) else s
  }

  function TrimEnd(s: string): string {
    if s != "" && Whitespace(s[|s| - 1]) then TrimEnd(s[..|s| - 1]) else s
  }

  function Trim(s: string): string {
    TrimEnd(TrimStart(s))
  }

  function Line<E>(raw: string, done: E, parse: string -> Parsed<E>): Output<E> {
    var line := Trim(raw);
    if line == "" then Output([], [])
    else
      var payload := if |line| >= 5 && line[..5] == "data:" then Trim(line[5..]) else line;
      if payload == "[DONE]" then Output([done], [])
      else
        match parse(payload)
        case Event(event) => Output([event], [])
        case Malformed(message) => Output([], ["Malformed router event: " + message])
  }

  function Lines<E>(lines: seq<string>, done: E, parse: string -> Parsed<E>): Output<E> {
    if lines == [] then Output([], [])
    else Append(Lines(lines[..|lines| - 1], done, parse), Line(lines[|lines| - 1], done, parse))
  }

  // ---------------------------------------------------------------- pushing

  function Init(lines: seq<string>): seq<string>
    requires lines != []
  {
    lines[..|lines| - 1]
  }

  function Last(lines: seq<string>): string
    requires lines != []
  {
    lines[|lines| - 1]
  }

  // What the chunks give before the finish, and what is left waiting.
  function Pushed<E>(chunks: seq<string>, done: E, parse: string -> Parsed<E>): (Output<E>, string) {
    if chunks == [] then (Output([], []), "")
    else
      var (output, remainder) := Pushed(chunks[..|chunks| - 1], done, parse);
      var lines := Split(remainder + chunks[|chunks| - 1]);
      (Append(output, Lines(Init(lines), done, parse)), Last(lines))
  }

  function Finished<E>(chunks: seq<string>, done: E, parse: string -> Parsed<E>): Output<E> {
    var (output, remainder) := Pushed(chunks, done, parse);
    Append(output, Lines(Split(remainder), done, parse))
  }

  function Concat(chunks: seq<string>): string {
    if chunks == [] then "" else Concat(chunks[..|chunks| - 1]) + chunks[|chunks| - 1]
  }

  // ---------------------------------------------------------------- chunk independence

  lemma FirstNewlineKept(text: string, more: string)
    requires FirstNewline(text) < |text|
    ensures FirstNewline(text + more) == FirstNewline(text)
  {
    var i, j := FirstNewline(text), FirstNewline(text + more);
    assert (text + more)[i] == '\n';
    if j < i { assert (text + more)[j] == text[j]; }
  }

  lemma SplitCut(text: string)
    ensures var i := FirstNewline(text);
            Split(text) == if i == |text| then [text] else [WithoutCarriageReturn(text[..i])] + Split(text[i + 1..])
  {
    hide FirstNewline, WithoutCarriageReturn;
  }

  lemma InitOfCons(head: string, rest: seq<string>)
    requires rest != []
    ensures Init([head] + rest) == [head] + Init(rest) && Last([head] + rest) == Last(rest)
  {
  }

  /** Text that was cut off can be picked up again from its last line, also between a carriage
      return and its newline. */
  lemma {:induction false} SplitResumes(text: string, more: string)
    ensures Split(text + more) == Init(Split(text)) + Split(Last(Split(text)) + more)
    decreases |text|
  {
    hide Split, WithoutCarriageReturn;
    var i := FirstNewline(text);
    SplitCut(text);
    if i == |text| {
      assert Init([text]) == [];
    } else {
      FirstNewlineKept(text, more);
      SplitCut(text + more);
      SplitResumes(text[i + 1..], more);
      assert (text + more)[..i] == text[..i] && (text + more)[i + 1..] == text[i + 1..] + more;
      InitOfCons(WithoutCarriageReturn(text[..i]), Split(text[i + 1..]));
    }
  }

  lemma {:induction false} LastHasNoNewline(text: string)
    ensures Split(Last(Split(text))) == [Last(Split(text))]
    decreases |text|
  {
    var i := FirstNewline(text);
    if i < |text| { LastHasNoNewline(text[i + 1..]); }
  }

  lemma AppendAssociates<E>(a: Output<E>, b: Output<E>, c: Output<E>)
    ensures Append(Append(a, b), c) == Append(a, Append(b, c))
    ensures Append(a, Output([], [])) == a
  {
  }

  lemma {:induction false} LinesAppend<E>(first: seq<string>, second: seq<string>, done: E, parse: string -> Parsed<E>)
    ensures Lines(first + second, done, parse) == Append(Lines(first, done, parse), Lines(second, done, parse))
  {
    hide Line, Append;
    AppendAssociates(Lines(first, done, parse), Output([], []), Output([], []));
    if second == [] {
      assert first + second == first;
    } else {
      var n := |second| - 1;
      LinesAppend(first, second[..n], done, parse);
      assert (first + second)[..|first| + n] == first + second[..n];
      assert (first + second)[|first| + n] == second[n];
      AppendAssociates(Lines(first, done, parse), Lines(second[..n], done, parse), Line(second[n], done, parse));
    }
  }

  lemma {:induction false} PushedWhole<E>(chunks: seq<string>, done: E, parse: string -> Parsed<E>)
    ensures var lines := Split(Concat(chunks));
            Pushed(chunks, done, parse) == (Lines(Init(lines), done, parse), Last(lines))
  {
    if chunks == [] {
      assert Split("") == [""];
    } else {
      var before, chunk := chunks[..|chunks| - 1], chunks[|chunks| - 1];
      PushedWhole(before, done, parse);
      SplitResumes(Concat(before), chunk);
      var earlier := Split(Concat(before));
      var lines := Split(Last(earlier) + chunk);
      assert Init(Init(earlier) + lines) == Init(earlier) + Init(lines);
      LinesAppend(Init(earlier), Init(lines), done, parse);
    }
  }

  /** However the text is cut into chunks, the events and the errors are those of its lines. */
  lemma FinishedWhole<E>(chunks: seq<string>, done: E, parse: string -> Parsed<E>)
    ensures Finished(chunks, done, parse) == Lines(Split(Concat(chunks)), done, parse)
  {
    PushedWhole(chunks, done, parse);
    hide Split, Line, Concat;
    var lines := Split(Concat(chunks));
    LastHasNoNewline(Concat(chunks));
    LinesAppend(Init(lines), [Last(lines)], done, parse);
    assert Init(lines) + [Last(lines)] == lines;
  }

  lemma TrimNothing()
    ensures Trim("") == ""
  {
  }

  // ---------------------------------------------------------------- what becomes of a line

  ghost predicate AllWhite(s: string) {
    forall k | 0 <= k < |s| :: Whitespace(s[k])
  }

  lemma WhiteMore(left: string, right: string)
    requires AllWhite(left) && AllWhite(right)
    ensures AllWhite(left + right)
  {
    hide Whitespace;
  }

  lemma {:induction false} TrimStartExactly(s: string) returns (white: string)
    ensures AllWhite(white) && white + TrimStart(s) == s
    ensures TrimStart(s) == "" || !Whitespace(TrimStart(s)[0])
  {
    hide Whitespace;
    white := "";
    if s != "" && Whitespace(s[0]) {
      var more := TrimStartExactly(s[1..]);
      WhiteMore([s[0]], more);
      white := [s[0]] + more;
      hide AllWhite;
      assert white + TrimStart(s) == [s[0]] + (more + TrimStart(s[1..]));
    }
  }

  lemma {:induction false} TrimEndExactly(s: string) returns (white: string)
    ensures AllWhite(white) && TrimEnd(s) + white == s
    ensures TrimEnd(s) == "" || !Whitespace(TrimEnd(s)[|TrimEnd(s)| - 1])
  {
    hide Whitespace;
    white := "";
    if s != "" && Whitespace(s[|s| - 1]) {
      var more := TrimEndExactly(s[..|s| - 1]);
      WhiteMore(more, [s[|s| - 1]]);
      white := more + [s[|s| - 1]];
      hide AllWhite;
      assert TrimEnd(s) + white == (TrimEnd(s[..|s| - 1]) + more) + [s[|s| - 1]];
    }
  }

  /** Trimming takes white space off both ends, and all of it. */
  lemma TrimExactly(s: string) returns (before: string, after: string)
    ensures AllWhite(before) && AllWhite(after) && before + Trim(s) + after == s
    ensures Trim(s) == "" || (!Whitespace(Trim(s)[0]) && !Whitespace(Trim(s)[|Trim(s)| - 1]))
  {
    hide TrimStart, TrimEnd, AllWhite, Whitespace;
    before := TrimStartExactly(s);
    after := TrimEndExactly(TrimStart(s));
    assert before + (Trim(s) + after) == before + Trim(s) + after;
    if Trim(s) != "" { assert TrimStart(s)[0] == Trim(s)[0]; }
  }

  // The payload of a line: what is left of it without white space and without a data prefix.
  ghost predicate IsPayload(payload: string, raw: string) {
    || (payload == Trim(raw) && !("data:" <= Trim(raw)))
    || ("data:" <= Trim(raw) && payload == Trim(Trim(raw)[5..]))
  }

  /** A blank line gives nothing. Any other gives one event or one error and not both: the end mark its
      event, a payload that parses its event, and any other payload the parser's message. */
  lemma LineGivesOne<E>(raw: string, payload: string, done: E, parse: string -> Parsed<E>)
    requires IsPayload(payload, raw)
    ensures var output := Line(raw, done, parse);
            if Trim(raw) == "" then output == Output([], [])
            else if payload == "[DONE]" then output == Output([done], [])
            else
              match parse(payload)
              case Event(event) => output == Output([event], [])
              case Malformed(message) => output == Output([], ["Malformed router event: " + message])
  {
    hide Trim;
    var line := Trim(raw);
    assert "data:" <= line <==> |line| >= 5 && line[..5] == "data:";
  }

  function Marked(lines: seq<string>): nat {
    if lines == [] then 0 else Marked(lines[..|lines| - 1]) + if Trim(lines[|lines| - 1]) == "" then 0 else 1
  }

  lemma {:induction false} LinesCounted<E>(lines: seq<string>, done: E, parse: string -> Parsed<E>)
    ensures |Lines(lines, done, parse).events| + |Lines(lines, done, parse).errors| == Marked(lines)
  {
    hide Trim;
    if lines != [] { LinesCounted(lines[..|lines| - 1], done, parse); }
  }

  /** Of a whole stream there are as many events and errors together as lines that are not blank. */
  lemma NothingDropped<E>(chunks: seq<string>, done: E, parse: string -> Parsed<E>)
    ensures var output := Finished(chunks, done, parse);
            |output.events| + |output.errors| == Marked(Split(Concat(chunks)))
  {
    FinishedWhole(chunks, done, parse);
    LinesCounted(Split(Concat(chunks)), done, parse);
  }

  // ---------------------------------------------------------------- where lines end

  lemma {:induction false} FirstNewlineAt(line: string, more: string)
    requires '\n' !in line
    ensures FirstNewline(line + more) == |line| + FirstNewline(more)
  {
    if line == "" {
      assert line + more == more;
    } else {
      FirstNewlineAt(line[1..], more);
      assert (line + more)[1..] == line[1..] + more;
    }
  }

  lemma SplitAtFeed(body: string, more: string)
    requires '\n' !in body
    ensures Split(body + ("\n" + more)) == [WithoutCarriageReturn(body)] + Split(more)
  {
    hide WithoutCarriageReturn;
    var text := body + ("\n" + more);
    FirstNewlineAt(body, "\n" + more);
    assert text[..|body|] == body && text[|body| + 1..] == more;
  }

  lemma SplitFirst(line: Ended, more: string)
    requires Plain([line])
    ensures Split(line.0 + (if line.1 then "\r\n" else "\n") + more) == [line.0] + Split(more)
  {
    assert [line][0] == line;
    var body := line.0 + (if line.1 then "\r" else "");
    assert line.0 + (if line.1 then "\r\n" else "\n") + more == body + ("\n" + more);
    assert WithoutCarriageReturn(body) == line.0;
    SplitAtFeed(body, more);
  }

  /** The lines parsed are those the text is written with, whichever way each is ended. */
  lemma {:induction false} SplitExactly(lines: seq<Ended>, rest: string)
    requires Plain(lines) && '\n' !in rest
    ensures Split(Written(lines) + rest) == Firsts(lines) + [rest]
  {
    if lines == [] {
      assert Written(lines) + rest == rest;
      FirstNewlineAt(rest, "");
      assert rest + "" == rest;
    } else {
      hide Split, Plain, Written, Firsts;
      WrittenFirst(lines, rest);
      SplitFirst(lines[0], Written(lines[1..]) + rest);
      SplitExactly(lines[1..], rest);
    }
  }

  /** Two ways of cutting the same text give the same events and the same errors. */
  lemma ChunkIndependent<E>(left: seq<string>, right: seq<string>, done: E, parse: string -> Parsed<E>)
    requires Concat(left) == Concat(right)
    ensures Finished(left, done, parse) == Finished(right, done, parse)
  {
    FinishedWhole(left, done, parse);
    FinishedWhole(right, done, parse);
  }
}

/** The NdjsonParser class. The error for a trailing remainder is never reported, because a flush
    has emptied the remainder before it looks at it. */
module Ndjson {
  import opened NdjsonSpec

  class NdjsonParser<E> {
    const done: E
    const parse: string -> Parsed<E>
    var remainder: string

    constructor (done: E, parse: string -> Parsed<E>)
      ensures this.done == done && this.parse == parse && remainder == ""
    {
      this.done, this.parse, remainder := done, parse, "";
    }

    method Push(chunk: string) returns (output: Output<E>)
      modifies this
      ensures output == Lines(Init(Split(old(remainder) + chunk)), done, parse)
      ensures remainder == Last(Split(old(remainder) + chunk))
    {
      remainder := remainder + chunk;
      output := Drain(false);
    }

    method Finish() returns (output: Output<E>)
      modifies this
      ensures output == Lines(Split(old(remainder)), done, parse)
      ensures remainder == ""
    {
      output := Drain(true);
    }

    // The body of the loop over the lines.
    method ParseLine(rawLine: string) returns (output: Output<E>)
      ensures output == Line(rawLine, done, parse)
    {
      var line := Trim(rawLine);
      if line == "" {
        return Output([], []);
      }
      var payload := if |line| >= 5 && line[..5] == "data:" then Trim(line[5..]) else line;
      if payload == "[DONE]" {
        return Output([done], []);
      }
      match parse(payload) {
        case Event(event) => return Output([event], []);
        case Malformed(message) => return Output([], ["Malformed router event: " + message]);
      }
    }

    method Drain(flush: bool) returns (output: Output<E>)
      modifies this
      ensures var lines := Split(old(remainder));
              if flush then output == Lines(lines, done, parse) && remainder == ""
              else output == Lines(Init(lines), done, parse) && remainder == Last(lines)
    {
      hide Line, Split, Trim;
      var lines := Split(remainder);
      if flush {
        remainder := "";
      } else {
        remainder := Last(lines);
        lines := Init(lines);
      }
      ghost var kept := remainder;
      var events: seq<E>, errors: seq<string> := [], [];
      for k := 0 to |lines|
        invariant remainder == kept
        invariant Output(events, errors) == Lines(lines[..k], done, parse)
      {
        assert lines[..k + 1][..k] == lines[..k];
        var more := ParseLine(lines[k]);
        events := events + more.events;
        errors := errors + more.errors;
      }
      assert lines[..|lines|] == lines;
      TrimNothing();
      if flush && Trim(remainder) != "" {
        errors := errors + ["Malformed trailing router event."];
      }
      output := Output(events, errors);
    }

    // A whole stream, chunk by chunk.
    method ParseStream(chunks: seq<string>) returns (output: Output<E>)
      requires remainder == ""
      modifies this
      ensures output == Finished(chunks, done, parse)
      ensures output == Lines(Split(Concat(chunks)), done, parse)
    {
      output := Output([], []);
      for k := 0 to |chunks|
        invariant (output, remainder) == Pushed(chunks[..k], done, parse)
      {
        assert chunks[..k + 1][..k] == chunks[..k];
        var more := Push(chunks[k]);
        output := Append(output, more);
      }
      assert chunks[..|chunks|] == chunks;
      var last := Finish();
      output := Append(output, last);
      FinishedWhole(chunks, done, parse);
    }
  }
}
