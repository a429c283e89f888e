/** Shell-safe command strings (src/commands/connect.ts), read back by the POSIX token recognition rules. */
module ShellQuote {
  import opened Common

  // ----- the printer -----

  /** The character class of the source's shell-safe pattern. */
  predicate IsSafe(c: char) {
    || 'A' <= c <= 'Z' || 'a' <= c <= 'z' || '0' <= c <= '9'
    || c == '_' || c == '.' || c == ':' || c == '/' || c == '@' || c == '-'
  }

  predicate AllSafe(s: string) {
    forall i :: 0 <= i < |s| ==> IsSafe(s[i])
  }

  predicate IsSafeWord(s: string) {
    s != [] && AllSafe(s)
  }

  /** Every single quote becomes: close, escaped quote, reopen. */
  function EscapeQuotes(s: string): string {
    if s == [] then []
    else (if s[0] == '\'' then "'\\''" else [s[0]]) + EscapeQuotes(s[1..])
  }

  function Quote(arg: string): string {
    if IsSafeWord(arg) then arg else "'" + EscapeQuotes(arg) + "'"
  }

  function JoinQuoted(argv: seq<string>): string {
    if argv == [] then []
    else if |argv| == 1 then Quote(argv[0])
    else Quote(argv[0]) + " " + JoinQuoted(argv[1..])
  }

  function CmdString(binary: string, argv: seq<string>): string {
    binary + " " + JoinQuoted(argv)
  }

  function ClaudeMcpAddArgv(name: string, url: string, headerToken: string): seq<string> {
    ["mcp", "add", name, "-t", "http", url, "-H", "Authorization: Bearer " + headerToken]
  }

  // ----- the reader -----

  /**
   * Characters that, unquoted, the shell does not take literally: operators, expansions, quotes,
   * patterns and the rest of the list in section 2.2 of the POSIX.1-2017 Shell Command Language,
   * with the reserved words `{`, `}` and `!`.
   */
  predicate IsSpecial(c: char) {
    || c == '|' || c == '&' || c == ';' || c == '<' || c == '>' || c == '(' || c == ')'
    || c == '$' || c == '`' || c == '"' || c == '*' || c == '?' || c == '[' || c == '#'
    || c == '~' || c == '=' || c == '%' || c == '{' || c == '}' || c == '!' || c == '\n'
  }

  /**
   * The words of a line that is one simple command of literal words, by sections 2.2.1 (backslash),
   * 2.2.2 (single quotes) and 2.3 (token recognition); None when the line is anything else.
   * `word` is the token being built, if any.
   */
  function Lex(s: string, word: Option<string>): Option<seq<string>>
    decreases |s|
  {
    if s == [] then
      if word.Some? then Some([word.value]) else Some([])
    else if s[0] == '\0' then None
    else if s[0] == ' ' || s[0] == '\t' then
      var rest := Lex(s[1..], None);
      if word.Some? && rest.Some? then Some([word.value] + rest.value) else rest
    else if s[0] == '\'' then LexQuoted(s[1..], Built(word))
    else if s[0] == '\\' then
      if |s| == 1 || s[1] == '\0' then None
      else if s[1] == '\n' then Lex(s[2..], word)
      else Lex(s[2..], Some(Built(word) + [s[1]]))
    else if IsSpecial(s[0]) then None
    else Lex(s[1..], Some(Built(word) + [s[0]]))
  }

  /** Inside single quotes everything up to the closing quote is literal. */
  function LexQuoted(s: string, word: string): Option<seq<string>>
    decreases |s|
  {
    if s == [] || s[0] == '\0' then None
    else if s[0] == '\'' then Lex(s[1..], Some(word))
    else LexQuoted(s[1..], word + [s[0]])
  }

  function Built(word: Option<string>): string {
    if word.Some? then word.value else []
  }

  // ----- round trip -----

  lemma LexSafe(c: char, rest: string, word: Option<string>)
    requires IsSafe(c)
    ensures Lex([c] + rest, word) == Lex(rest, Some(Built(word) + [c]))
  {
  }

  lemma LexOpen(rest: string, word: Option<string>)
    ensures Lex("'" + rest, word) == LexQuoted(rest, Built(word))
  {
  }

  lemma LexEscaped(rest: string, word: Option<string>)
    ensures Lex("\\'" + rest, word) == Lex(rest, Some(Built(word) + "'"))
  {
  }

  lemma LexBlank(rest: string, word: string)
    requires Lex(rest, None).Some?
    ensures Lex(" " + rest, Some(word)) == Some([word] + Lex(rest, None).value)
  {
  }

  lemma SafeStep(arg: string, rest: string, word: Option<string>)
    requires arg != [] && IsSafe(arg[0])
    ensures Lex(arg + rest, word) == Lex(arg[1..] + rest, Some(Built(word) + [arg[0]]))
  {
    LexSafe(arg[0], arg[1..] + rest, word);
    assert arg + rest == [arg[0]] + (arg[1..] + rest);
  }

  lemma OneMoreCharacter(word: string, arg: string)
    requires arg != []
    ensures word + [arg[0]] + arg[1..] == word + arg
  {
  }

  lemma {:induction false} SafeRestLexes(arg: string, rest: string, word: string)
    requires AllSafe(arg)
    ensures Lex(arg + rest, Some(word)) == Lex(rest, Some(word + arg))
    decreases |arg|
  {
    if arg == [] {
      assert arg + rest == rest && word + arg == word;
    } else {
      SafeStep(arg, rest, Some(word));
      SafeRestLexes(arg[1..], rest, word + [arg[0]]);
      OneMoreCharacter(word, arg);
    }
  }

  lemma SafeLexes(arg: string, rest: string, word: Option<string>)
    requires IsSafeWord(arg)
    ensures Lex(arg + rest, word) == Lex(rest, Some(Built(word) + arg))
  {
    SafeStep(arg, rest, word);
    SafeRestLexes(arg[1..], rest, Built(word) + [arg[0]]);
    OneMoreCharacter(Built(word), arg);
  }

  lemma {:induction false} QuotedLexes(arg: string, rest: string, word: string)
    requires '\0' !in arg
    ensures LexQuoted(EscapeQuotes(arg) + ("'" + rest), word) == Lex(rest, Some(word + arg))
  {
    if arg == [] {
      assert EscapeQuotes(arg) + ("'" + rest) == "'" + rest;
      assert ("'" + rest)[1..] == rest && word + arg == word;
    } else {
      var c, tail := arg[0], EscapeQuotes(arg[1..]) + ("'" + rest);
      assert word + [c] + arg[1..] == word + arg;
      QuotedLexes(arg[1..], rest, word + [c]);
      if c == '\'' {
        QuoteInsideLexes(tail, word);
        assert EscapeQuotes(arg) + ("'" + rest) == "'\\''" + tail;
      } else {
        assert EscapeQuotes(arg) + ("'" + rest) == [c] + tail;
        assert ([c] + tail)[1..] == tail;
      }
    }
  }

  /** Close, escaped quote, reopen: one literal quote. */
  lemma QuoteInsideLexes(tail: string, word: string)
    ensures LexQuoted("'\\''" + tail, word) == LexQuoted(tail, word + "'")
  {
    assert ("'\\''" + tail)[1..] == "\\'" + ("'" + tail);
    LexEscaped("'" + tail, Some(word));
    LexOpen(tail, Some(word + "'"));
  }

  /** One quoted argument reads back as that argument, whatever follows it. */
  lemma QuoteLexes(arg: string, rest: string)
    requires '\0' !in arg
    ensures Lex(Quote(arg) + rest, None) == Lex(rest, Some(arg))
  {
    assert [] + arg == arg;
    if IsSafeWord(arg) {
      SafeLexes(arg, rest, None);
    } else {
      assert Quote(arg) + rest == "'" + (EscapeQuotes(arg) + ("'" + rest));
      LexOpen(EscapeQuotes(arg) + ("'" + rest), None);
      QuotedLexes(arg, rest, []);
    }
  }

  /** A quoted argument and the blank after it read back as one word. */
  lemma FirstWordLexes(arg: string, rest: string)
    requires '\0' !in arg && Lex(rest, None).Some?
    ensures Lex(Quote(arg) + " " + rest, None) == Some([arg] + Lex(rest, None).value)
  {
    QuoteLexes(arg, " " + rest);
    LexBlank(rest, arg);
    assert Quote(arg) + " " + rest == Quote(arg) + (" " + rest);
  }

  lemma LastWordLexes(arg: string)
    requires '\0' !in arg
    ensures Lex(Quote(arg), None) == Some([arg])
  {
    QuoteLexes(arg, []);
    assert Quote(arg) + [] == Quote(arg);
  }

  ghost predicate NulFree(argv: seq<string>) {
    forall arg :: arg in argv ==> '\0' !in arg
  }

  lemma {:induction false} JoinLexes(argv: seq<string>)
    requires NulFree(argv)
    ensures Lex(JoinQuoted(argv), None) == Some(argv)
  {
    if argv == [] {
    } else if |argv| == 1 {
      LastWordLexes(argv[0]);
      assert argv == [argv[0]];
    } else {
      var first, rest := argv[0], argv[1..];
      assert argv == [first] + rest;
      JoinLexes(rest);
      FirstWordLexes(first, JoinQuoted(rest));
      assert JoinQuoted(argv) == Quote(first) + " " + JoinQuoted(rest);
    }
  }

  lemma {:induction false} EscapedIsNoShorter(s: string)
    ensures |EscapeQuotes(s)| >= |s|
  {
    if s != [] {
      EscapedIsNoShorter(s[1..]);
    }
  }

  /** An argument is printed bare exactly when it is a word of letters, digits and the six marks the shell takes literally. */
  lemma BareExactly(arg: string)
    ensures Quote(arg) == arg <==>
            arg != [] && forall i :: 0 <= i < |arg| ==>
              'A' <= arg[i] <= 'Z' || 'a' <= arg[i] <= 'z' || '0' <= arg[i] <= '9' || arg[i] in {'_', '.', ':', '/', '@', '-'}
  {
    EscapedIsNoShorter(arg);
  }

  /** The printed line is read back as the binary followed by exactly the given arguments. */
  lemma CmdStringRoundTrip(binary: string, argv: seq<string>)
    requires IsSafeWord(binary)
    requires NulFree(argv)
    ensures Lex(CmdString(binary, argv), None) == Some([binary] + argv)
  {
    var rest := " " + JoinQuoted(argv);
    assert CmdString(binary, argv) == binary + rest;
    SafeLexes(binary, rest, None);
    assert [] + binary == binary;
    JoinLexes(argv);
    LexBlank(JoinQuoted(argv), binary);
  }

  /** Different argument lists never print the same line. */
  lemma CmdStringInjective(binary: string, argv: seq<string>, argv': seq<string>)
    requires IsSafeWord(binary)
    requires NulFree(argv)
    requires NulFree(argv')
    requires CmdString(binary, argv) == CmdString(binary, argv')
    ensures argv == argv'
  {
    CmdStringRoundTrip(binary, argv);
    CmdStringRoundTrip(binary, argv');
    assert ([binary] + argv)[1..] == argv && ([binary] + argv')[1..] == argv';
  }

  /** Whatever name, address and token hold, the pasted line passes on these nine words and no others. */
  lemma ClaudeTokenIsInert(name: string, url: string, token: string)
    requires '\0' !in name && '\0' !in url && '\0' !in token
    ensures var words := Lex(CmdString("claude", ClaudeMcpAddArgv(name, url, token)), None);
            words == Some(["claude", "mcp", "add", name, "-t", "http", url, "-H", "Authorization: Bearer " + token])
  {
    CmdStringRoundTrip("claude", ClaudeMcpAddArgv(name, url, token));
    assert ["claude"] + ClaudeMcpAddArgv(name, url, token) ==
           ["claude", "mcp", "add", name, "-t", "http", url, "-H", "Authorization: Bearer " + token];
  }
}
