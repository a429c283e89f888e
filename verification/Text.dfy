/** String operations with JavaScript's meaning. */
module Text {
  import opened Common

  predicate OccursAt(s: string, t: string, i: nat) {
    i + |t| <= |s| && s[i..i + |t|] == t
  }

  predicate Contains(s: string, t: string) {
    exists i :: 0 <= i <= |s| && OccursAt(s, t, i)
  }

  /** The first occurrence of `t` in `s`. */
  function IndexOf(s: string, t: string): (r: Option<nat>)
    ensures r.Some? ==> r.value + |t| <= |s|
  {
    if |s| < |t| then None
    else if s[..|t|] == t then Some(0)
    else
      var rest := IndexOf(s[1..], t);
      if rest.Some? then Some(1 + rest.value) else None
  }

  lemma OccursInTail(s: string, t: string, i: nat)
    requires 1 <= i <= |s|
    ensures OccursAt(s, t, i) <==> OccursAt(s[1..], t, i - 1)
  {
  }

  /** `IndexOf` finds the first occurrence, and finds one whenever there is one. */
  lemma {:induction false} IndexOfFirst(s: string, t: string, i: nat)
    requires i <= |s| && OccursAt(s, t, i)
    ensures IndexOf(s, t).Some? && IndexOf(s, t).value <= i
    ensures OccursAt(s, t, IndexOf(s, t).value)
  {
    if s[..|t|] != t {
      OccursInTail(s, t, i);
      IndexOfFirst(s[1..], t, i - 1);
      OccursInTail(s, t, IndexOf(s, t).value);
    }
  }

  lemma {:induction false} IndexOfOccurs(s: string, t: string)
    requires IndexOf(s, t).Some?
    ensures OccursAt(s, t, IndexOf(s, t).value)
  {
    if s[..|t|] != t {
      IndexOfOccurs(s[1..], t);
      OccursInTail(s, t, IndexOf(s, t).value);
    }
  }

  lemma OccurrenceStarts(s: string, t: string)
    requires t != [] && IndexOf(s, t).Some?
    ensures s[IndexOf(s, t).value] == t[0]
  {
    var i := IndexOf(s, t).value;
    IndexOfOccurs(s, t);
    assert s[i] == s[i..i + |t|][0];
  }

  /** `s.replace(t, '')` with a string pattern: the first occurrence goes. */
  function DropFirst(s: string, t: string): string {
    match IndexOf(s, t)
    case None => s
    case Some(i) => s[..i] + s[i + |t|..]
  }

  /** The white space and line terminators that `trimEnd` strips. */
  predicate IsWhitespace(c: char) {
    || '\U{0009}' <= c <= '\U{000D}' || c == ' ' || c == '\U{00A0}' || c == '\U{1680}'
    || '\U{2000}' <= c <= '\U{200A}' || c == '\U{2028}' || c == '\U{2029}' || c == '\U{202F}'
    || c == '\U{205F}' || c == '\U{3000}' || c == '\U{FEFF}'
  }

  function TrimEnd(s: string): string {
    if s != [] && IsWhitespace(s[|s| - 1]) then TrimEnd(s[..|s| - 1]) else s
  }

  lemma {:induction false} TrimEndSpec(s: string)
    ensures TrimEnd(s) <= s
    ensures forall i :: |TrimEnd(s)| <= i < |s| ==> IsWhitespace(s[i])
    ensures TrimEnd(s) != [] ==> !IsWhitespace(TrimEnd(s)[|TrimEnd(s)| - 1])
  {
    if s != [] && IsWhitespace(s[|s| - 1]) {
      TrimEndSpec(s[..|s| - 1]);
    }
  }

  /** The position after the last slash. */
  function AfterLastSlash(path: string): (i: nat)
    ensures i <= |path|
  {
    if path == [] || path[|path| - 1] == '/' then |path| else AfterLastSlash(path[..|path| - 1])
  }

  /** What follows the last slash. */
  function Basename(path: string): string {
    path[AfterLastSlash(path)..]
  }

  lemma {:induction false} LastSlashIs(dir: string, name: string)
    requires '/' !in name
    ensures AfterLastSlash(dir + "/" + name) == |dir| + 1
  {
    var path := dir + "/" + name;
    if name != [] {
      var k := |name| - 1;
      assert path[..|path| - 1] == dir + "/" + name[..k];
      assert path[|path| - 1] == name[k] && name[k] in name;
      LastSlashIs(dir, name[..k]);
    }
  }

  function CountSlashes(path: string): nat {
    if path == [] then 0 else (if path[0] == '/' then 1 else 0) + CountSlashes(path[1..])
  }

  function Repeat(s: string, n: nat): string {
    if n == 0 then [] else s + Repeat(s, n - 1)
  }

  // ----- containment -----

  lemma ContainsWithin(a: string, b: string, t: string)
    requires Contains(b, t)
    ensures Contains(a + b, t) && Contains(b + a, t)
  {
    var i :| 0 <= i <= |b| && OccursAt(b, t, i);
    assert (a + b)[|a| + i..|a| + i + |t|] == b[i..i + |t|];
    assert OccursAt(a + b, t, |a| + i);
    assert (b + a)[i..i + |t|] == b[i..i + |t|];
    assert OccursAt(b + a, t, i);
  }

  lemma ContainsSelf(t: string)
    ensures Contains(t, t)
  {
    assert OccursAt(t, t, 0);
  }

  lemma ContainsTransitive(s: string, t: string, u: string)
    requires Contains(s, t) && Contains(t, u)
    ensures Contains(s, u)
  {
    var i :| 0 <= i <= |s| && OccursAt(s, t, i);
    assert s == s[..i] + (t + s[i + |t|..]);
    ContainsWithin(s[i + |t|..], t, u);
    ContainsWithin(s[..i], t + s[i + |t|..], u);
  }

  /** An occurrence across the seam holds the first character after it. */
  lemma StraddleHolds(x: string, y: string, t: string, i: nat)
    requires OccursAt(x + y, t, i) && i < |x| < i + |t| && y != []
    ensures y[0] in t
  {
    assert t[|x| - i] == (x + y)[i..i + |t|][|x| - i] == y[0];
  }

  /** An occurrence without newlines does not straddle a newline. */
  lemma ContainsBeforeNewline(x: string, y: string, t: string)
    requires Contains(x + y, t) && y != [] && y[0] == '\n' && '\n' !in t
    ensures Contains(x, t) || Contains(y, t)
  {
    var i :| 0 <= i <= |x + y| && OccursAt(x + y, t, i);
    if i + |t| <= |x| {
      assert x[i..i + |t|] == (x + y)[i..i + |t|];
      assert OccursAt(x, t, i);
    } else if i >= |x| {
      assert y[i - |x|..i - |x| + |t|] == (x + y)[i..i + |t|];
      assert OccursAt(y, t, i - |x|);
    } else {
      StraddleHolds(x, y, t, i);
    }
  }

  /** Trimming keeps every occurrence that does not end in white space. */
  lemma ContainsTrimmed(s: string, t: string)
    requires Contains(s, t) && t != [] && !IsWhitespace(t[|t| - 1])
    ensures Contains(TrimEnd(s), t)
  {
    var i :| 0 <= i <= |s| && OccursAt(s, t, i);
    var r := TrimEnd(s);
    TrimEndSpec(s);
    assert s[i + |t| - 1] == s[i..i + |t|][|t| - 1];
    assert i + |t| <= |r|;
    assert r[i..i + |t|] == s[i..i + |t|];
    assert OccursAt(r, t, i);
  }
}
