/**
 The shell text of a sandboxed command (platform.ts), and how a POSIX shell reads it back: the
 quoting rules of sections 2.2.1 (escape character) and 2.2.2 (single-quotes) and the token
 recognition of section 2.3 of the POSIX.1-2017 Shell Command Language.
 */
module ShellCommand {
  import opened Common

  // replaceAll("'", "'\\''")
  function EscapeQuotes(part: string): string {
    if part == "" then ""
    else (if part[0] == '\'' then "'\\''" else [part[0]]) + EscapeQuotes(part[1..])
  }

  function PosixQuote(part: string): string {
    "'" + EscapeQuotes(part) + "'"
  }

  function PowershellQuote(part: string): string {
    "'" + DoubleQuotes(part) + "'"
  }

  function DoubleQuotes(part: string): string {
    if part == "" then ""
    else (if part[0] == '\'' then "''" else [part[0]]) + DoubleQuotes(part[1..])
  }

  function Join(parts: seq<string>): string {
    if parts == [] then ""
    else if |parts| == 1 then parts[0]
    else parts[0] + " " + Join(parts[1..])
  }

  function Map(parts: seq<string>, quote: string -> string): seq<string> {
    seq(|parts|, k requires 0 <= k < |parts| => quote(parts[k]))
  }

  function SerializeSandboxCommand(argv: seq<string>, windows: bool): string {
    if windows then "& " + Join(Map(argv, PowershellQuote)) else Join(Map(argv, PosixQuote))
  }

  // ---------------------------------------------------------------- reading it back

  // Characters that, unquoted, are operators or start an expansion, a comment or a pattern.
  // Text with one of them unquoted is not a plain list of words.
  const SPECIAL := ['|', '&', ';', '<', '>', '(', ')', '$', '`', '"', '\n', '*', '?', '[', ']', '#', '~', '=', '%', '!', '{', '}']

  function Cons(word: string, words: Option<seq<string>>): Option<seq<string>> {
    match words
    case None => None
    case Some(rest) => Some([word] + rest)
  }

  // The words of a text, outside of quotes. word is the token under way, if there is one.
  function Words(text: string, word: Option<string>): Option<seq<string>>
    decreases |text|
  {
    if text == "" then Some(if word.Some? then [word.value] else [])
    else
      var soFar := if word.Some? then word.value else "";
      var c := text[0];
      if c == ' ' || c == '\t' then
        if word.Some? then Cons(word.value, Words(text[1..], None)) else Words(text[1..], None)
      else if c == '\'' then Quoted(text[1..], soFar)
      else if c == '\\' then
        if |text| == 1 then None
        else if text[1] == '\n' then Words(text[2..], word)
        else Words(text[2..], Some(soFar + [text[1]]))
      else if c in SPECIAL then None
      else Words(text[1..], Some(soFar + [c]))
  }

  // Inside single-quotes every character stands for itself up to the closing quote.
  function Quoted(text: string, soFar: string): Option<seq<string>>
    decreases |text|
  {
    if text == "" then None
    else if text[0] == '\'' then Words(text[1..], Some(soFar))
    else Quoted(text[1..], soFar + [text[0]])
  }

  lemma {:induction false} QuotedBody(part: string, soFar: string, rest: string)
    ensures Quoted(EscapeQuotes(part) + "'" + rest, soFar) == Words(rest, Some(soFar + part))
  {
    if part == "" {
      assert EscapeQuotes(part) + "'" + rest == "'" + rest && ("'" + rest)[1..] == rest;
      assert soFar + part == soFar;
    } else {
      var tail := EscapeQuotes(part[1..]) + "'" + rest;
      QuotedBody(part[1..], soFar + [part[0]], rest);
      assert soFar + [part[0]] + part[1..] == soFar + part;
      if part[0] == '\'' {
        assert EscapeQuotes(part) + "'" + rest == "'\\''" + tail;
        QuoteInside(soFar, tail);
      } else {
        assert EscapeQuotes(part) + "'" + rest == [part[0]] + tail;
        assert ([part[0]] + tail)[1..] == tail;
      }
    }
  }

  // Closing the quotes, an escaped quote, and opening them again adds one quote to the word.
  lemma QuoteInside(soFar: string, tail: string)
    ensures Quoted("'\\''" + tail, soFar) == Quoted(tail, soFar + "'")
  {
    var text := "'\\''" + tail;
    assert text[1..] == "\\''" + tail;
    assert ("\\''" + tail)[2..] == "'" + tail;
    assert ("'" + tail)[1..] == tail;
    assert soFar + ['\''] == soFar + "'";
    assert Quoted(text, soFar) == Words("\\''" + tail, Some(soFar));
    assert Words("\\''" + tail, Some(soFar)) == Words("'" + tail, Some(soFar + "'"));
  }

  lemma QuotedWord(part: string, rest: string)
    ensures Words(PosixQuote(part) + rest, None) == Words(rest, Some(part))
  {
    var text := PosixQuote(part) + rest;
    assert text[1..] == EscapeQuotes(part) + "'" + rest;
    QuotedBody(part, "", rest);
    assert "" + part == part;
  }

  /** Whatever the arguments contain, quotes and nothing at all included, a POSIX shell reads the
      serialised command back as exactly the same arguments. */
  lemma {:induction false} ReadsBack(argv: seq<string>)
    ensures Words(SerializeSandboxCommand(argv, false), None) == Some(argv)
  {
    var quoted := Map(argv, PosixQuote);
    if |argv| == 1 {
      QuotedWord(argv[0], "");
      assert Join(quoted) == PosixQuote(argv[0]) + "";
      assert [argv[0]] == argv;
    } else if |argv| > 1 {
      ReadsBack(argv[1..]);
      assert quoted[1..] == Map(argv[1..], PosixQuote);
      var rest := Join(quoted[1..]);
      QuotedWord(argv[0], " " + rest);
      assert Join(quoted) == PosixQuote(argv[0]) + (" " + rest);
      assert (" " + rest)[1..] == rest;
      assert [argv[0]] + argv[1..] == argv;
    }
  }
}
