/** The glob matcher of scripts/select-e2e.ts: a glob is compiled to regular-expression text. */
module Glob {
  import opened Common

  // ----- the compiler -----

  predicate IsSupported(glob: string) {
    forall i :: 0 <= i < |glob| ==> glob[i] != '?' && glob[i] != '[' && glob[i] != '{'
  }

  /** The characters the compiler escapes. */
  predicate IsMeta(c: char) {
    || c == '.' || c == '+' || c == '^' || c == '$' || c == '{' || c == '}'
    || c == '(' || c == ')' || c == '|' || c == '\\'
  }

  /** What the next token of a glob is compiled to, and its width. */
  function EmitToken(glob: string): (r: (string, nat))
    requires glob != []
    ensures 0 < r.1 <= |glob|
  {
    if glob[0] == '*' && |glob| > 1 && glob[1] == '*' then (".*", 2)
    else if glob[0] == '*' then ("[^/]*", 1)
    else if IsMeta(glob[0]) then (['\\', glob[0]], 1)
    else ([glob[0]], 1)
  }

  function Emit(glob: string): string {
    if glob == [] then [] else EmitToken(glob).0 + Emit(glob[EmitToken(glob).1..])
  }

  lemma EmitStep(regex: string, glob: string, i: nat)
    requires i < |glob|
    ensures var (text, width) := EmitToken(glob[i..]);
            regex + Emit(glob[i..]) == regex + text + Emit(glob[i + width..])
  {
  }

  /** The compiler's loop. */
  method Compile(glob: string) returns (regex: string)
    ensures regex == Emit(glob)
  {
    regex := "";
    var i := 0;
    while i < |glob|
      invariant 0 <= i <= |glob|
      invariant regex + Emit(glob[i..]) == Emit(glob)
    {
      EmitStep(regex, glob, i);
      var c := glob[i];
      if c == '*' && i + 1 < |glob| && glob[i + 1] == '*' {
        regex := regex + ".*";
        i := i + 2;
      } else if c == '*' {
        regex := regex + "[^/]*";
        i := i + 1;
      } else if IsMeta(c) {
        regex := regex + ['\\', c];
        i := i + 1;
      } else {
        regex := regex + [c];
        i := i + 1;
      }
    }
    assert regex + Emit([]) == regex;
  }

  // ----- the regular expressions the compiler needs, read by ECMA-262 -----

  datatype CharSet = Exactly(c: char) | AnyButLineTerminator | NoneOf(excluded: string)

  /** An atom, repeated any number of times when `star`. */
  datatype Term = Term(chars: CharSet, star: bool)

  predicate IsLineTerminator(c: char) {
    c == '\n' || c == '\r' || c == '\U{2028}' || c == '\U{2029}'
  }

  predicate InSet(cs: CharSet, c: char) {
    match cs
    case Exactly(d) => c == d
    case AnyButLineTerminator => !IsLineTerminator(c)
    case NoneOf(excluded) => c !in excluded
  }

  /** SyntaxCharacter of section 22.2.1. */
  predicate IsSyntaxCharacter(c: char) {
    || c == '^' || c == '$' || c == '\\' || c == '.' || c == '*' || c == '+' || c == '?'
    || c == '(' || c == ')' || c == '[' || c == ']' || c == '{' || c == '}' || c == '|'
  }

  /** A pattern character, with the lone `]` and `}` that Annex B.1.2 adds. */
  predicate IsPatternCharacter(c: char) {
    !IsSyntaxCharacter(c) || c == ']' || c == '}'
  }

  function IndexOfChar(s: string, c: char): (i: nat)
    ensures i <= |s|
    ensures i < |s| ==> s[i] == c
  {
    if s == [] || s[0] == c then 0 else 1 + IndexOfChar(s[1..], c)
  }

  /** One atom at the start of `s`, with the number of characters it takes (section 22.2.1). */
  function ParseAtom(s: string): (r: Option<(CharSet, nat)>)
    ensures r.Some? ==> 0 < r.value.1 <= |s|
  {
    if s == [] then None
    else if s[0] == '.' then Some((AnyButLineTerminator, 1))
    else if s[0] == '\\' then
      if |s| > 1 && IsSyntaxCharacter(s[1]) then Some((Exactly(s[1]), 2)) else None
    else if s[0] == '[' then
      var close := IndexOfChar(s, ']');
      if close < |s| && close > 2 && s[1] == '^' && '\\' !in s[2..close] && '-' !in s[2..close]
      then Some((NoneOf(s[2..close]), close + 1)) else None
    else if IsPatternCharacter(s[0]) then Some((Exactly(s[0]), 1))
    else None
  }

  /**
   * The terms of an alternative that ends in the assertion `$`. Patterns outside the fragment of
   * atoms and greedy `*` (groups, other quantifiers, other assertions) give None.
   */
  function ParseTerms(s: string): Option<seq<Term>>
    decreases |s|
  {
    if s == "$" then Some([])
    else
      var atom := ParseAtom(s);
      if atom.None? then None
      else
        var rest := s[atom.value.1..];
        var star := rest != [] && rest[0] == '*';
        var after := if star then rest[1..] else rest;
        if after != [] && (after[0] == '*' || after[0] == '+' || after[0] == '?' || after[0] == '{') then None
        else
          var terms := ParseTerms(after);
          if terms.None? then None else Some([Term(atom.value.0, star)] + terms.value)
  }

  /** A pattern anchored at both ends. */
  function ParseRegex(s: string): Option<seq<Term>> {
    if s != [] && s[0] == '^' then ParseTerms(s[1..]) else None
  }

  /** Some way through the terms consumes the whole string (section 22.2.2). */
  predicate Accepts(terms: seq<Term>, s: string)
    decreases |terms| + |s|
  {
    if terms == [] then s == []
    else if terms[0].star then
      Accepts(terms[1..], s) || (s != [] && InSet(terms[0].chars, s[0]) && Accepts(terms, s[1..]))
    else s != [] && InSet(terms[0].chars, s[0]) && Accepts(terms[1..], s[1..])
  }

  predicate RegexTest(regex: string, s: string) {
    var terms := ParseRegex(regex);
    terms.Some? && Accepts(terms.value, s)
  }

  // ----- what a glob means -----

  datatype Token = AnyString | AnySegment | Literal(c: char)

  function FirstToken(glob: string): Token
    requires glob != []
  {
    if glob[0] == '*' && |glob| > 1 && glob[1] == '*' then AnyString
    else if glob[0] == '*' then AnySegment
    else Literal(glob[0])
  }

  function Tokens(glob: string): seq<Token> {
    if glob == [] then []
    else [FirstToken(glob)] + Tokens(if FirstToken(glob).AnyString? then glob[2..] else glob[1..])
  }

  /** `**` is any string, `*` any string without a slash, anything else itself. */
  predicate Fits(token: Token, piece: string) {
    match token
    case AnyString => true
    case AnySegment => '/' !in piece
    case Literal(c) => piece == [c]
  }

  function Concat(pieces: seq<string>): string {
    if pieces == [] then [] else pieces[0] + Concat(pieces[1..])
  }

  ghost predicate Cuts(glob: string, path: string, pieces: seq<string>) {
    && |pieces| == |Tokens(glob)|
    && Concat(pieces) == path
    && forall i :: 0 <= i < |pieces| ==> Fits(Tokens(glob)[i], pieces[i])
  }

  /** The path can be cut into one fitting piece for each token of the glob. */
  ghost predicate InLanguage(glob: string, path: string) {
    exists pieces :: Cuts(glob, path, pieces)
  }

  // ----- the emitted text parses to one term for each token -----

  function TermOf(token: Token): Term {
    match token
    case AnyString => Term(AnyButLineTerminator, true)
    case AnySegment => Term(NoneOf("/"), true)
    case Literal(c) => Term(Exactly(c), false)
  }

  function TermsOf(tokens: seq<Token>): (r: seq<Term>)
    ensures |r| == |tokens|
    ensures forall i :: 0 <= i < |tokens| ==> r[i] == TermOf(tokens[i])
  {
    if tokens == [] then [] else [TermOf(tokens[0])] + TermsOf(tokens[1..])
  }

  ghost predicate NoQuantifierAt(s: string) {
    s != [] && s[0] != '*' && s[0] != '+' && s[0] != '?' && s[0] != '{'
  }

  lemma EmitStartsNoQuantifier(glob: string)
    requires IsSupported(glob)
    ensures NoQuantifierAt(Emit(glob) + "$")
  {
  }

  lemma ParseStarred(s: string, chars: CharSet, n: nat, tail: string)
    requires ParseAtom(s) == Some((chars, n)) && s != "$" && s[n..] == "*" + tail
    requires NoQuantifierAt(tail) && ParseTerms(tail).Some?
    ensures ParseTerms(s) == Some([Term(chars, true)] + ParseTerms(tail).value)
  {
  }

  lemma ParseClass(tail: string)
    ensures ParseAtom("[^/]" + tail) == Some((NoneOf("/"), 4))
  {
    var s := "[^/]" + tail;
    assert s[1..][1..] == s[2..] && s[2..][1..] == s[3..] && s[3] == ']';
    assert IndexOfChar(s[3..], ']') == 0;
    assert IndexOfChar(s[2..], ']') == 1;
    assert IndexOfChar(s[1..], ']') == 2;
    assert IndexOfChar(s, ']') == 3;
    assert s[2..3] == "/";
  }

  lemma ParseSegmentOf(s: string, tail: string)
    requires s == "[^/]" + ("*" + tail)
    requires NoQuantifierAt(tail) && ParseTerms(tail).Some?
    ensures ParseTerms(s) == Some([Term(NoneOf("/"), true)] + ParseTerms(tail).value)
  {
    ParseClass("*" + tail);
    assert s[4..] == "*" + tail;
    ParseStarred(s, NoneOf("/"), 4, tail);
  }

  lemma SegmentText(tail: string)
    ensures "[^/]*" + tail == "[^/]" + ("*" + tail)
  {
  }

  lemma ParseAnyString(tail: string)
    requires NoQuantifierAt(tail) && ParseTerms(tail).Some?
    ensures ParseTerms(".*" + tail) == Some([Term(AnyButLineTerminator, true)] + ParseTerms(tail).value)
  {
  }

  lemma ParseEscaped(c: char, tail: string)
    requires IsMeta(c) && NoQuantifierAt(tail) && ParseTerms(tail).Some?
    ensures ParseTerms(['\\', c] + tail) == Some([Term(Exactly(c), false)] + ParseTerms(tail).value)
  {
  }

  lemma ParsePlain(c: char, tail: string)
    requires IsPatternCharacter(c) && !IsMeta(c) && NoQuantifierAt(tail) && ParseTerms(tail).Some?
    ensures ParseTerms([c] + tail) == Some([Term(Exactly(c), false)] + ParseTerms(tail).value)
  {
  }

  /** The text of one token parses to its term, and the parse goes on after it. */
  lemma TokenParses(glob: string, tail: string)
    requires glob != [] && IsSupported(glob)
    requires NoQuantifierAt(tail) && ParseTerms(tail).Some?
    ensures ParseTerms(EmitToken(glob).0 + tail) == Some([TermOf(FirstToken(glob))] + ParseTerms(tail).value)
  {
    match FirstToken(glob)
    case AnyString => ParseAnyString(tail);
    case AnySegment =>
      SegmentText(tail);
      ParseSegmentOf(EmitToken(glob).0 + tail, tail);
    case Literal(c) =>
      if IsMeta(c) {
        ParseEscaped(c, tail);
      } else {
        ParsePlain(c, tail);
      }
  }

  lemma EmitSplits(glob: string)
    requires glob != []
    ensures var rest := glob[EmitToken(glob).1..]; Emit(glob) + "$" == EmitToken(glob).0 + (Emit(rest) + "$")
  {
    var rest := glob[EmitToken(glob).1..];
    assert Emit(glob) == EmitToken(glob).0 + Emit(rest);
  }

  lemma TermsSplit(glob: string)
    requires glob != []
    ensures var rest := glob[EmitToken(glob).1..];
            TermsOf(Tokens(glob)) == [TermOf(FirstToken(glob))] + TermsOf(Tokens(rest))
  {
    var rest := glob[EmitToken(glob).1..];
    assert Tokens(glob) == [FirstToken(glob)] + Tokens(rest);
  }

  lemma {:induction false} EmitParses(glob: string)
    requires IsSupported(glob)
    ensures ParseTerms(Emit(glob) + "$") == Some(TermsOf(Tokens(glob)))
    decreases |glob|
  {
    if glob == [] {
      assert Emit(glob) + "$" == "$";
    } else {
      var rest := glob[EmitToken(glob).1..];
      assert IsSupported(rest);
      EmitParses(rest);
      EmitStartsNoQuantifier(rest);
      TokenParses(glob, Emit(rest) + "$");
      EmitSplits(glob);
      TermsSplit(glob);
    }
  }

  // ----- matching terms is cutting the path -----

  predicate FitsTerm(term: Term, piece: string) {
    (term.star || |piece| == 1) && forall i :: 0 <= i < |piece| ==> InSet(term.chars, piece[i])
  }

  ghost predicate CutsTerms(terms: seq<Term>, s: string, pieces: seq<string>) {
    && |pieces| == |terms|
    && Concat(pieces) == s
    && forall i :: 0 <= i < |pieces| ==> FitsTerm(terms[i], pieces[i])
  }

  lemma {:induction false} AcceptedIsCut(terms: seq<Term>, s: string) returns (pieces: seq<string>)
    requires Accepts(terms, s)
    ensures CutsTerms(terms, s, pieces)
    decreases |terms| + |s|
  {
    if terms == [] {
      pieces := [];
    } else if !terms[0].star {
      var rest := AcceptedIsCut(terms[1..], s[1..]);
      pieces := [[s[0]]] + rest;
      assert pieces[1..] == rest && s == [s[0]] + s[1..];
    } else if Accepts(terms[1..], s) {
      var rest := AcceptedIsCut(terms[1..], s);
      pieces := [[]] + rest;
      assert pieces[1..] == rest && [] + s == s;
    } else {
      var rest := AcceptedIsCut(terms, s[1..]);
      pieces := [[s[0]] + rest[0]] + rest[1..];
      assert pieces[1..] == rest[1..];
      assert s == [s[0]] + (rest[0] + Concat(rest[1..]));
    }
  }

  lemma {:induction false} CutIsAccepted(terms: seq<Term>, s: string, pieces: seq<string>)
    requires CutsTerms(terms, s, pieces)
    ensures Accepts(terms, s)
    decreases |terms| + |s|
  {
    if terms != [] {
      var first, rest := pieces[0], pieces[1..];
      if first == [] {
        assert s == Concat(rest);
        CutIsAccepted(terms[1..], s, rest);
      } else {
        assert s[0] == first[0] && s[1..] == first[1..] + Concat(rest);
        if terms[0].star {
          var shorter := [first[1..]] + rest;
          assert shorter[1..] == rest;
          CutIsAccepted(terms, s[1..], shorter);
        } else {
          assert s[1..] == Concat(rest);
          CutIsAccepted(terms[1..], s[1..], rest);
        }
      }
    }
  }

  // ----- the compiled glob means what the glob means -----

  predicate HasLineTerminator(s: string) {
    exists i :: 0 <= i < |s| && IsLineTerminator(s[i])
  }

  /** A cut in which no piece of a `**` crosses a line terminator. */
  ghost predicate CutsLines(glob: string, path: string, pieces: seq<string>) {
    && Cuts(glob, path, pieces)
    && forall i :: 0 <= i < |pieces| && Tokens(glob)[i].AnyString? ==> !HasLineTerminator(pieces[i])
  }

  lemma CutsLinesIsCutsTerms(glob: string, path: string, pieces: seq<string>)
    ensures CutsLines(glob, path, pieces) <==> CutsTerms(TermsOf(Tokens(glob)), path, pieces)
  {
  }

  /** Exactly which paths match, for every path: `**` stops at line terminators, nothing else differs. */
  lemma CompiledMeaning(glob: string, path: string)
    requires IsSupported(glob)
    ensures RegexTest("^" + Emit(glob) + "$", path) <==> exists pieces :: CutsLines(glob, path, pieces)
  {
    var regex := "^" + Emit(glob) + "$";
    var terms := TermsOf(Tokens(glob));
    assert regex[1..] == Emit(glob) + "$";
    EmitParses(glob);
    if Accepts(terms, path) {
      var pieces := AcceptedIsCut(terms, path);
      CutsLinesIsCutsTerms(glob, path, pieces);
    }
    if pieces :| CutsLines(glob, path, pieces) {
      CutsLinesIsCutsTerms(glob, path, pieces);
      CutIsAccepted(terms, path, pieces);
    }
  }

  /** On paths without line terminators the compiled text matches exactly the glob's language. */
  lemma CompilePreservesMeaning(glob: string, path: string)
    requires IsSupported(glob) && !HasLineTerminator(path)
    ensures RegexTest("^" + Emit(glob) + "$", path) <==> InLanguage(glob, path)
  {
    CompiledMeaning(glob, path);
    if pieces :| Cuts(glob, path, pieces) {
      forall i | 0 <= i < |pieces| ensures !HasLineTerminator(pieces[i]) {
        PieceInside(pieces, i);
      }
      assert CutsLines(glob, path, pieces);
    }
  }

  lemma {:induction false} PieceInside(pieces: seq<string>, i: nat)
    requires i < |pieces|
    ensures HasLineTerminator(pieces[i]) ==> HasLineTerminator(Concat(pieces))
  {
    var first, rest := pieces[0], Concat(pieces[1..]);
    assert forall k :: 0 <= k < |first| ==> (first + rest)[k] == first[k];
    assert forall k :: 0 <= k < |rest| ==> (first + rest)[|first| + k] == rest[k];
    if i > 0 {
      PieceInside(pieces[1..], i - 1);
    }
  }

  /** With a line terminator in the path, `**` has it in its language and does not match it. */
  lemma DoubleStarStopsAtTerminator(path: string)
    requires HasLineTerminator(path)
    ensures InLanguage("**", path) && !RegexTest("^" + Emit("**") + "$", path)
  {
    assert Tokens("**") == [AnyString];
    assert Concat([path]) == path;
    assert Cuts("**", path, [path]);
    CompiledMeaning("**", path);
    forall pieces ensures !CutsLines("**", path, pieces) {
      TerminatorNotCut(pieces, path);
    }
  }

  lemma TerminatorNotCut(pieces: seq<string>, path: string)
    requires Tokens("**") == [AnyString] && HasLineTerminator(path)
    ensures !CutsLines("**", path, pieces)
  {
    if |pieces| == 1 && Concat(pieces) == path {
      assert Concat(pieces[1..]) == [];
      assert pieces[0] + [] == pieces[0];
    }
  }

  /** The compiled text matches the glob's language, whatever the glob, exactly on paths without line terminators. */
  lemma MeaningPreservedExactly(path: string)
    ensures (forall glob :: IsSupported(glob) ==> (RegexTest("^" + Emit(glob) + "$", path) <==> InLanguage(glob, path)))
            <==> !HasLineTerminator(path)
  {
    if HasLineTerminator(path) {
      DoubleStarStopsAtTerminator(path);
      assert IsSupported("**");
    } else {
      forall glob | IsSupported(glob)
        ensures RegexTest("^" + Emit(glob) + "$", path) <==> InLanguage(glob, path)
      {
        CompilePreservesMeaning(glob, path);
      }
    }
  }

  // ----- the exported function -----

  datatype GlobError = UnsupportedGlob(glob: string)

  function MatchResult(glob: string, path: string): Result<bool, GlobError> {
    if !IsSupported(glob) then Err(UnsupportedGlob(glob))
    else Ok(RegexTest("^" + Emit(glob) + "$", path))
  }

  /** A glob is rejected, by name, exactly when it holds a character the matcher does not support. */
  lemma RejectsExactly(glob: string, path: string)
    ensures MatchResult(glob, path) == Err(UnsupportedGlob(glob)) <==> '?' in glob || '[' in glob || '{' in glob
    ensures MatchResult(glob, path).Err? ==> MatchResult(glob, path) == Err(UnsupportedGlob(glob))
  {
  }

  /** What a match means: the path cuts into one fitting piece per token, no piece of a `**` crossing a line terminator. */
  lemma MatchExactly(glob: string, path: string)
    requires IsSupported(glob)
    ensures MatchResult(glob, path).Ok?
    ensures MatchResult(glob, path) == Ok(true) <==> exists pieces :: CutsLines(glob, path, pieces)
    ensures !HasLineTerminator(path) ==> (MatchResult(glob, path) == Ok(true) <==> InLanguage(glob, path))
  {
    CompiledMeaning(glob, path);
    if !HasLineTerminator(path) {
      CompilePreservesMeaning(glob, path);
    }
  }

  method MatchGlob(glob: string, path: string) returns (r: Result<bool, GlobError>)
    ensures r == MatchResult(glob, path)
  {
    if '?' in glob || '[' in glob || '{' in glob {
      return Err(UnsupportedGlob(glob));
    }
    var regex := Compile(glob);
    r := Ok(RegexTest("^" + regex + "$", path));
  }
}
