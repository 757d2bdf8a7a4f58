/**
 Globs (workspace.ts): the translation of a glob to a regular expression, the regular expressions
 it emits, and what both accept. Strings are sequences of Unicode scalar values.
 */
module GlobRegex {
  import opened Common

  const MAX_GLOB_LENGTH := 256

  // ---------------------------------------------------------------- globs

  // LineTerminator of section 12.3 of ECMA-262: what the dot does not match.
  predicate LineTerminator(c: char) {
    c == '\n' || c == '\r' || c == '\U{2028}' || c == '\U{2029}'
  }

  predicate NotTerminator(c: char) {
    !LineTerminator(c)
  }

  // A direct recursive matcher: two stars stand for any run of characters the class wide admits,
  // one star for any run without a slash, a question mark for one character other than a slash.
  predicate Matches(glob: string, s: string, wide: char -> bool)
    decreases |glob|, |s|
  {
    if glob == "" then s == ""
    else if |glob| >= 2 && glob[0] == '*' && glob[1] == '*' then
      Matches(glob[2..], s, wide) || (s != "" && wide(s[0]) && Matches(glob, s[1..], wide))
    else if glob[0] == '*' then
      Matches(glob[1..], s, wide) || (s != "" && s[0] != '/' && Matches(glob, s[1..], wide))
    else if glob[0] == '?' then
      s != "" && s[0] != '/' && Matches(glob[1..], s[1..], wide)
    else
      s != "" && s[0] == glob[0] && Matches(glob[1..], s[1..], wide)
  }

  // ---------------------------------------------------------------- regular expressions

  datatype CharClass = Literal(c: char) | Dot | NoneOf(chars: seq<char>)

  datatype Term = Start | End | One(atom: CharClass) | Star(atom: CharClass) | Plus(atom: CharClass) | Optional(atom: CharClass)

  predicate InClass(atom: CharClass, c: char) {
    match atom
    case Literal(d) => c == d
    case Dot => !LineTerminator(c)
    case NoneOf(chars) => c !in chars
  }

  // Whether the terms match s from position i to some end.
  predicate MatchesAt(terms: seq<Term>, s: string, i: nat)
    requires i <= |s|
    decreases |terms|, |s| - i
  {
    if terms == [] then true
    else
      var rest := terms[1..];
      match terms[0]
      case Start => i == 0 && MatchesAt(rest, s, i)
      case End => i == |s| && MatchesAt(rest, s, i)
      case One(atom) => i < |s| && InClass(atom, s[i]) && MatchesAt(rest, s, i + 1)
      case Star(atom) => MatchesAt(rest, s, i) || (i < |s| && InClass(atom, s[i]) && MatchesAt(terms, s, i + 1))
      case Plus(atom) => i < |s| && InClass(atom, s[i]) && (MatchesAt(rest, s, i + 1) || MatchesAt(terms, s, i + 1))
      case Optional(atom) => MatchesAt(rest, s, i) || (i < |s| && InClass(atom, s[i]) && MatchesAt(rest, s, i + 1))
  }

  // RegExp.test: a match may begin anywhere.
  predicate Test(terms: seq<Term>, s: string) {
    exists i | 0 <= i <= |s| :: MatchesAt(terms, s, i)
  }

  // SyntaxCharacter of section 22.2.1
  const SYNTAX_CHARACTERS := ['^', '$', '\\', '.', '*', '+', '?', '(', ')', '[', ']', '{', '}', '|']

  predicate SyntaxCharacter(c: char) {
    c in SYNTAX_CHARACTERS
  }

  // A class of the form [^...] with plain members, from behind its "[^".
  function ParseClass(source: string, members: seq<char>): Option<(CharClass, string)> {
    if source == "" || source[0] == '\\' || source[0] == '-' || source[0] == '[' then None
    else if source[0] == ']' then Some((NoneOf(members), source[1..]))
    else ParseClass(source[1..], members + [source[0]])
  }

  lemma {:induction false} ParseClassShortens(source: string, members: seq<char>)
    requires ParseClass(source, members).Some?
    ensures |ParseClass(source, members).value.1| < |source|
  {
    if source[0] != ']' { ParseClassShortens(source[1..], members + [source[0]]); }
  }

  // Atom of section 22.2.1: a pattern character, the dot, an escaped syntax character, or a
  // negated class. Anything else is outside of the fragment described here.
  function ParseAtom(source: string): (r: Option<(CharClass, string)>)
    ensures r.Some? ==> |r.value.1| < |source|
  {
    if source == "" then None
    else if source[0] == '.' then Some((Dot, source[1..]))
    else if source[0] == '\\' then
      if |source| >= 2 && SyntaxCharacter(source[1]) then Some((Literal(source[1]), source[2..])) else None
    else if |source| >= 2 && source[0] == '[' && source[1] == '^' then
      if ParseClass(source[2..], []).Some? then ParseClassShortens(source[2..], []); ParseClass(source[2..], []) else None
    else if SyntaxCharacter(source[0]) then None
    else Some((Literal(source[0]), source[1..]))
  }

  // Term: an assertion, or an atom with an optional quantifier.
  function ParseTerm(source: string): (r: Option<(Term, string)>)
    ensures r.Some? ==> |r.value.1| < |source|
  {
    if source == "" then None
    else if source[0] == '^' then Some((Start, source[1..]))
    else if source[0] == '$' then Some((End, source[1..]))
    else
      match ParseAtom(source)
      case None => None
      case Some((atom, rest)) =>
        if rest != "" && rest[0] == '*' then Some((Star(atom), rest[1..]))
        else if rest != "" && rest[0] == '+' then Some((Plus(atom), rest[1..]))
        else if rest != "" && rest[0] == '?' then Some((Optional(atom), rest[1..]))
        else Some((One(atom), rest))
  }

  function Parse(source: string): Option<seq<Term>>
    decreases |source|
  {
    if source == "" then Some([])
    else
      match ParseTerm(source)
      case None => None
      case Some((term, rest)) =>
        match Parse(rest)
        case None => None
        case Some(terms) => Some([term] + terms)
  }

  // ---------------------------------------------------------------- the translation

  function Escape(c: char): string {
    if c in ['\\', '^', '$', '.', '[', ']', '{', '}', '(', ')', '+', '|'] then ['\\', c] else [c]
  }

  // What the loop appends for the rest of a glob.
  function Translate(glob: string): string {
    if glob == "" then ""
    else if |glob| >= 2 && glob[0] == '*' && glob[1] == '*' then ".*" + Translate(glob[2..])
    else if glob[0] == '*' then "[^/]*" + Translate(glob[1..])
    else if glob[0] == '?' then "[^/]" + Translate(glob[1..])
    else Escape(glob[0]) + Translate(glob[1..])
  }

  // The terms the emitted source means.
  function Terms(glob: string): seq<Term> {
    if glob == "" then [End]
    else if |glob| >= 2 && glob[0] == '*' && glob[1] == '*' then [Star(Dot)] + Terms(glob[2..])
    else if glob[0] == '*' then [Star(NoneOf(['/']))] + Terms(glob[1..])
    else if glob[0] == '?' then [One(NoneOf(['/']))] + Terms(glob[1..])
    else [One(Literal(glob[0]))] + Terms(glob[1..])
  }

  // What is emitted for a glob never begins like a quantifier.
  lemma TranslateStart(glob: string)
    ensures Translate(glob) + "$" != "" && (Translate(glob) + "$")[0] !in ['*', '+', '?']
  {
  }

  lemma ParseStarDot(rest: string)
    ensures ParseTerm(".*" + rest) == Some((Star(Dot), rest))
  {
    assert (".*" + rest)[1..] == "*" + rest && ("*" + rest)[1..] == rest;
  }

  lemma ParseNotSlash(rest: string)
    ensures ParseAtom("[^/]" + rest) == Some((NoneOf(['/']), rest))
  {
    var source := "[^/]" + rest;
    assert source[2..] == "/]" + rest && ("/]" + rest)[1..] == "]" + rest && ("]" + rest)[1..] == rest;
    assert [] + ['/'] == ['/'];
    assert ParseClass("]" + rest, ['/']) == Some((NoneOf(['/']), rest));
    assert ParseClass("/]" + rest, []) == ParseClass("]" + rest, ['/']);
  }

  lemma ParseEscaped(c: char, rest: string)
    requires c != '*' && c != '?'
    ensures ParseAtom(Escape(c) + rest) == Some((Literal(c), rest))
    ensures Escape(c)[0] != '^' && Escape(c)[0] != '$'
  {
    var source := Escape(c) + rest;
    if |Escape(c)| == 2 {
      assert source[0] == '\\' && source[1] == c && source[2..] == rest;
    } else {
      assert source[0] == c && source[1..] == rest;
    }
  }

  lemma ParseStep(source: string, term: Term, rest: string)
    requires source != "" && ParseTerm(source) == Some((term, rest)) && Parse(rest).Some?
    ensures Parse(source) == Some([term] + Parse(rest).value)
  {
  }

  lemma StarTerm(rest: string)
    ensures ParseTerm("[^/]*" + rest) == Some((Star(NoneOf(['/'])), rest))
  {
    assert "[^/]*" + rest == "[^/]" + ("*" + rest) && ("*" + rest)[1..] == rest;
    ParseNotSlash("*" + rest);
    hide ParseAtom;
  }

  lemma QuestionTerm(rest: string)
    requires rest != "" && rest[0] !in ['*', '+', '?']
    ensures ParseTerm("[^/]" + rest) == Some((One(NoneOf(['/'])), rest))
  {
    ParseNotSlash(rest);
    hide ParseAtom;
  }

  lemma LiteralTerm(c: char, rest: string)
    requires c != '*' && c != '?' && rest != "" && rest[0] !in ['*', '+', '?']
    ensures ParseTerm(Escape(c) + rest) == Some((One(Literal(c)), rest))
  {
    ParseEscaped(c, rest);
    hide ParseAtom;
    assert (Escape(c) + rest)[0] == Escape(c)[0];
  }

  lemma {:induction false} ParseTranslated(glob: string)
    ensures Parse(Translate(glob) + "$") == Some(Terms(glob))
  {
    if glob == "" {
      assert Parse("") == Some([]) && "$"[1..] == "" && "" + "$" == "$";
      ParseStep("$", End, "");
      assert [End] + [] == Terms(glob);
      return;
    }
    hide ParseTerm, Parse;
    if |glob| >= 2 && glob[0] == '*' && glob[1] == '*' {
      var rest := Translate(glob[2..]) + "$";
      ParseTranslated(glob[2..]);
      ParseStarDot(rest);
      assert Translate(glob) + "$" == ".*" + rest;
      ParseStep(".*" + rest, Star(Dot), rest);
    } else {
      var rest := Translate(glob[1..]) + "$";
      TranslateStart(glob[1..]);
      ParseTranslated(glob[1..]);
      if glob[0] == '*' {
        StarTerm(rest);
        assert Translate(glob) + "$" == "[^/]*" + rest;
        ParseStep("[^/]*" + rest, Star(NoneOf(['/'])), rest);
      } else if glob[0] == '?' {
        QuestionTerm(rest);
        assert Translate(glob) + "$" == "[^/]" + rest;
        ParseStep("[^/]" + rest, One(NoneOf(['/'])), rest);
      } else {
        LiteralTerm(glob[0], rest);
        assert Translate(glob) + "$" == Escape(glob[0]) + rest;
        ParseStep(Escape(glob[0]) + rest, One(Literal(glob[0])), rest);
      }
    }
  }

  /** The emitted source parses, whatever syntax characters the glob is made of, to a start
      assertion and the terms of the glob. */
  lemma SourceParses(glob: string)
    ensures Parse("^" + Translate(glob) + "$") == Some([Start] + Terms(glob))
  {
    var source := "^" + Translate(glob) + "$";
    assert source == "^" + (Translate(glob) + "$") && source[1..] == Translate(glob) + "$";
    ParseTranslated(glob);
  }

  lemma {:induction false} TermsMatch(glob: string, s: string, i: nat)
    requires i <= |s|
    ensures MatchesAt(Terms(glob), s, i) <==> Matches(glob, s[i..], NotTerminator)
    decreases |glob|, |s| - i
  {
    if i < |s| { assert s[i..][1..] == s[i + 1..]; }
    if glob == "" {
    } else if |glob| >= 2 && glob[0] == '*' && glob[1] == '*' {
      TermsMatch(glob[2..], s, i);
      if i < |s| { TermsMatch(glob, s, i + 1); }
    } else if glob[0] == '*' {
      TermsMatch(glob[1..], s, i);
      if i < |s| { TermsMatch(glob, s, i + 1); }
    } else if i < |s| {
      TermsMatch(glob[1..], s, i + 1);
    }
  }

  /** The emitted expression accepts a string exactly when the direct matcher does, with two stars
      standing for any run of characters other than line terminators. */
  lemma SourceAccepts(glob: string, s: string)
    ensures Test([Start] + Terms(glob), s) <==> Matches(glob, s, NotTerminator)
  {
    var terms := [Start] + Terms(glob);
    assert terms[1..] == Terms(glob) && s[0..] == s;
    TermsMatch(glob, s, 0);
    if Matches(glob, s, NotTerminator) { assert MatchesAt(terms, s, 0); }
  }

  predicate Anything(c: char) {
    true
  }

  lemma {:induction false} SameWithoutTerminators(glob: string, s: string)
    requires forall k | 0 <= k < |s| :: !LineTerminator(s[k])
    ensures Matches(glob, s, NotTerminator) <==> Matches(glob, s, Anything)
    decreases |glob|, |s|
  {
    if glob == "" {
    } else if |glob| >= 2 && glob[0] == '*' && glob[1] == '*' {
      SameWithoutTerminators(glob[2..], s);
      if s != "" { SameWithoutTerminators(glob, s[1..]); }
    } else if glob[0] == '*' {
      SameWithoutTerminators(glob[1..], s);
      if s != "" { SameWithoutTerminators(glob, s[1..]); }
    } else if s != "" {
      SameWithoutTerminators(glob[1..], s[1..]);
    }
  }

  lemma {:induction false} TwoStars(s: string, wide: char -> bool)
    ensures Matches("**", s, wide) <==> forall k | 0 <= k < |s| :: wide(s[k])
  {
    assert "**"[2..] == "";
    if s != "" {
      TwoStars(s[1..], wide);
      assert forall k | 0 < k < |s| :: s[k] == s[1..][k - 1];
    }
  }

  /** Two stars were to stand for any run of characters. The expression treats a string so, for
      every glob, exactly when the string contains no line terminator. */
  lemma TwoStarsExact(s: string)
    ensures (forall glob: string :: Matches(glob, s, NotTerminator) <==> Matches(glob, s, Anything))
            <==> (forall k | 0 <= k < |s| :: !LineTerminator(s[k]))
  {
    if forall k | 0 <= k < |s| :: !LineTerminator(s[k]) {
      forall glob: string ensures Matches(glob, s, NotTerminator) <==> Matches(glob, s, Anything) {
        SameWithoutTerminators(glob, s);
      }
    } else {
      TwoStars(s, NotTerminator);
      TwoStars(s, Anything);
    }
  }

  // A glob with two stars among its pieces.
  predicate HasTwoStars(glob: string) {
    if glob == "" then false
    else if |glob| >= 2 && glob[0] == '*' && glob[1] == '*' then true
    else HasTwoStars(glob[1..])
  }

  lemma {:induction false} SameWithoutTwoStars(glob: string, s: string)
    requires !HasTwoStars(glob)
    ensures Matches(glob, s, NotTerminator) <==> Matches(glob, s, Anything)
    decreases |glob|, |s|
  {
    if glob != "" {
      if s != "" { SameWithoutTwoStars(glob[1..], s[1..]); }
      if glob[0] == '*' {
        SameWithoutTwoStars(glob[1..], s);
        if s != "" { SameWithoutTwoStars(glob, s[1..]); }
      }
    }
  }

  // How often a line feed stands before a slash.
  function Breaks(s: string): nat {
    if |s| < 2 then 0 else (if s[0] == '\n' && s[1] == '/' then 1 else 0) + Breaks(s[1..])
  }

  // Each piece of a glob reaches over at most one of them, and two stars over none.
  lemma {:induction false} FewBreaks(glob: string, s: string)
    requires Matches(glob, s, NotTerminator)
    ensures Breaks(s) <= |glob|
    decreases |glob|, |s|
  {
    if glob == "" {
    } else if |glob| >= 2 && glob[0] == '*' && glob[1] == '*' {
      if Matches(glob[2..], s, NotTerminator) { FewBreaks(glob[2..], s); } else { FewBreaks(glob, s[1..]); }
    } else if glob[0] == '*' {
      if Matches(glob[1..], s, NotTerminator) {
        FewBreaks(glob[1..], s);
      } else if |s| >= 2 && s[0] == '\n' && s[1] == '/' {
        assert Matches(glob[1..], s[1..], NotTerminator);
        FewBreaks(glob[1..], s[1..]);
      } else {
        FewBreaks(glob, s[1..]);
      }
    } else {
      FewBreaks(glob[1..], s[1..]);
    }
  }

  function Pump(n: nat): string {
    if n == 0 then "" else "\n/" + Pump(n - 1)
  }

  // A string for the glob in which two stars stand for n line feeds before slashes.
  function Instance(glob: string, n: nat): string {
    if glob == "" then ""
    else if |glob| >= 2 && glob[0] == '*' && glob[1] == '*' then Pump(n) + Instance(glob[2..], n)
    else if glob[0] == '*' then Instance(glob[1..], n)
    else if glob[0] == '?' then "x" + Instance(glob[1..], n)
    else [glob[0]] + Instance(glob[1..], n)
  }

  lemma {:induction false} TwoStarsTake(glob: string, more: string, rest: string)
    requires |glob| >= 2 && glob[0] == '*' && glob[1] == '*' && Matches(glob[2..], rest, Anything)
    ensures Matches(glob, more + rest, Anything)
  {
    if more == "" {
      assert more + rest == rest;
    } else {
      TwoStarsTake(glob, more[1..], rest);
      assert (more + rest)[1..] == more[1..] + rest;
    }
  }

  lemma {:induction false} InstanceMatches(glob: string, n: nat)
    ensures Matches(glob, Instance(glob, n), Anything)
  {
    if glob == "" {
    } else if |glob| >= 2 && glob[0] == '*' && glob[1] == '*' {
      InstanceMatches(glob[2..], n);
      TwoStarsTake(glob, Pump(n), Instance(glob[2..], n));
    } else {
      InstanceMatches(glob[1..], n);
    }
  }

  lemma {:induction false} BreaksAdd(left: string, right: string)
    ensures Breaks(left + right) >= Breaks(left) + Breaks(right)
  {
    if left == "" {
      assert left + right == right;
    } else {
      BreaksAdd(left[1..], right);
      assert (left + right)[1..] == left[1..] + right;
    }
  }

  lemma {:induction false} PumpBreaks(n: nat)
    ensures Breaks(Pump(n)) >= n
  {
    if n > 0 {
      PumpBreaks(n - 1);
      BreaksAdd("\n/", Pump(n - 1));
      assert Breaks("\n/") == 1;
    }
  }

  lemma {:induction false} InstanceBreaks(glob: string, n: nat)
    requires HasTwoStars(glob)
    ensures Breaks(Instance(glob, n)) >= n
  {
    if |glob| >= 2 && glob[0] == '*' && glob[1] == '*' {
      PumpBreaks(n);
      BreaksAdd(Pump(n), Instance(glob[2..], n));
    } else {
      InstanceBreaks(glob[1..], n);
      if glob[0] == '?' { BreaksAdd("x", Instance(glob[1..], n)); }
      else if glob[0] != '*' { BreaksAdd([glob[0]], Instance(glob[1..], n)); }
    }
  }

  lemma MeantButNotMatched(glob: string) returns (s: string)
    requires HasTwoStars(glob)
    ensures Matches(glob, s, Anything) && !Matches(glob, s, NotTerminator)
  {
    s := Instance(glob, |glob| + 1);
    InstanceMatches(glob, |glob| + 1);
    InstanceBreaks(glob, |glob| + 1);
    if Matches(glob, s, NotTerminator) { FewBreaks(glob, s); }
  }

  /** The expression treats a glob as meant, for every string, exactly when the glob has no two
      stars. */
  lemma GlobMeantExactly(glob: string)
    ensures (forall s: string :: Matches(glob, s, NotTerminator) <==> Matches(glob, s, Anything)) <==> !HasTwoStars(glob)
  {
    hide Matches, HasTwoStars;
    if HasTwoStars(glob) {
      var s := MeantButNotMatched(glob);
      assert Matches(glob, s, NotTerminator) != Matches(glob, s, Anything);
    } else {
      forall s: string ensures Matches(glob, s, NotTerminator) <==> Matches(glob, s, Anything) { SameWithoutTwoStars(glob, s); }
    }
  }

  /** For example, two stars were to match a line feed, and do not. */
  lemma LineFeedExample()
    ensures Matches("**", "\n", Anything) && !Test([Start] + Terms("**"), "\n")
  {
    TwoStars("\n", Anything);
    TwoStars("\n", NotTerminator);
    SourceAccepts("**", "\n");
    assert "\n"[0] == '\n';
  }

  // ---------------------------------------------------------------- the method

  predicate Acceptable(value: string) {
    |value| <= MAX_GLOB_LENGTH && '\0' !in value
  }

  // None for an absent or empty glob, which filters nothing; an error for an unacceptable one.
  method GlobSource(value: Option<string>) returns (r: Result<Option<string>, string>)
    ensures r.Err? <==> value.Some? && value.value != "" && !Acceptable(value.value)
    ensures r.Ok? && r.value.None? <==> value.None? || value.value == ""
    ensures r.Ok? && r.value.Some? ==>
              && Parse(r.value.value).Some?
              && forall s :: Test(Parse(r.value.value).value, s) <==> Matches(value.value, s, NotTerminator)
  {
    if value.None? || value.value == "" {
      return Ok(None);
    }
    var glob := value.value;
    if |glob| > MAX_GLOB_LENGTH || '\0' in glob {
      return Err("glob must be at most 256 characters.");
    }
    var source := "^";
    var index := 0;
    EmitStart(glob);
    hide Parse, Test, Matches, Emitted, Terms, Escape;
    while index < |glob|
      invariant index <= |glob| && Emitted(source, glob, index)
    {
      var character := glob[index];
      EmitNext(source, glob, index);
      if character == '*' {
        if index + 1 < |glob| && glob[index + 1] == '*' {
          source := source + ".*";
          index := index + 1;
        } else {
          source := source + "[^/]*";
        }
      } else if character == '?' {
        source := source + "[^/]";
      } else {
        source := source + Escape(character);
      }
      index := index + 1;
    }
    EmitEnd(source, glob);
    SourceParses(glob);
    forall s ensures Test([Start] + Terms(glob), s) <==> Matches(glob, s, NotTerminator) {
      SourceAccepts(glob, s);
    }
    return Ok(Some(source + "$"));
  }

  // The source so far, completed by what the rest of the glob stands for, is the whole translation.
  ghost predicate Emitted(source: string, glob: string, index: nat) {
    index <= |glob| && source + Translate(glob[index..]) == "^" + Translate(glob)
  }

  lemma EmitStart(glob: string)
    ensures Emitted("^", glob, 0)
  {
    assert glob[0..] == glob;
  }

  lemma EmitEnd(source: string, glob: string)
    requires Emitted(source, glob, |glob|)
    ensures source == "^" + Translate(glob)
  {
    assert glob[|glob|..] == "" && Translate("") == "" && source + "" == source;
  }

  lemma EmitPiece(source: string, piece: string, glob: string, index: nat, next: nat)
    requires Emitted(source, glob, index) && index <= next <= |glob|
    requires Translate(glob[index..]) == piece + Translate(glob[next..])
    ensures Emitted(source + piece, glob, next)
  {
    hide Translate;
    assert (source + piece) + Translate(glob[next..]) == source + (piece + Translate(glob[next..]));
  }

  lemma EmitNext(source: string, glob: string, index: nat)
    requires index < |glob| && Emitted(source, glob, index)
    ensures if index + 1 < |glob| && glob[index] == '*' && glob[index + 1] == '*' then Emitted(source + ".*", glob, index + 2)
            else if glob[index] == '*' then Emitted(source + "[^/]*", glob, index + 1)
            else if glob[index] == '?' then Emitted(source + "[^/]", glob, index + 1)
            else Emitted(source + Escape(glob[index]), glob, index + 1)
  {
    TranslateAt(glob, index);
    hide Emitted, Translate;
    if index + 1 < |glob| && glob[index] == '*' && glob[index + 1] == '*' {
      EmitPiece(source, ".*", glob, index, index + 2);
    } else if glob[index] == '*' {
      EmitPiece(source, "[^/]*", glob, index, index + 1);
    } else if glob[index] == '?' {
      EmitPiece(source, "[^/]", glob, index, index + 1);
    } else {
      EmitPiece(source, Escape(glob[index]), glob, index, index + 1);
    }
  }

  lemma TranslateAt(glob: string, index: nat)
    requires index < |glob|
    ensures Translate(glob[index..])
            == if index + 1 < |glob| && glob[index] == '*' && glob[index + 1] == '*' then ".*" + Translate(glob[index + 2..])
               else if glob[index] == '*' then "[^/]*" + Translate(glob[index + 1..])
               else if glob[index] == '?' then "[^/]" + Translate(glob[index + 1..])
               else Escape(glob[index]) + Translate(glob[index + 1..])
  {
    var rest := glob[index..];
    assert rest[1..] == glob[index + 1..];
    if |rest| >= 2 { assert rest[2..] == glob[index + 2..]; }
  }
}
