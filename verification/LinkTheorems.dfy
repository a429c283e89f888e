/** Where the entries of a repair lead, where in a page they are written, and which gaps are found. */
module LinkTheorems {
  import opened Common
  import opened Text
  import opened Backlinks
  import opened BacklinksTheorems
  import Order

  // ----- following a link -----

  /** The directory of a path: everything up to and with its last slash. */
  function DirOf(path: string): string {
    path[..AfterLastSlash(path)]
  }

  /** The page a link leads to from a directory: each leading `../` drops a segment, and none may be left over. */
  function Resolve(dir: string, link: string): Option<string>
    decreases |link|
  {
    if "../" <= link then
      if dir == [] then None else Resolve(DirOf(dir[..|dir| - 1]), link[3..])
    else Some(dir + link)
  }

  lemma {:induction false} CountSlashesSnoc(s: string, c: char)
    ensures CountSlashes(s + [c]) == CountSlashes(s) + if c == '/' then 1 else 0
  {
    if s == [] {
      assert [c][1..] == [];
      assert s + [c] == [c];
    } else {
      CountSlashesSnoc(s[1..], c);
      assert (s + [c])[1..] == s[1..] + [c];
    }
  }

  /** A path is its directory and its file name, which holds no slash. */
  lemma {:induction false} DirAndName(path: string)
    ensures path == DirOf(path) + Basename(path) && '/' !in Basename(path)
    ensures DirOf(path) == [] || DirOf(path)[|DirOf(path)| - 1] == '/'
  {
    if path != [] && path[|path| - 1] != '/' {
      var k := |path| - 1;
      DirAndName(path[..k]);
      assert DirOf(path) == DirOf(path[..k]);
      assert Basename(path) == Basename(path[..k]) + [path[k]];
    }
  }

  /** What follows the directory holds no slash. */
  lemma {:induction false} DirHoldsSlashes(path: string)
    ensures CountSlashes(DirOf(path)) == CountSlashes(path)
  {
    if path != [] && path[|path| - 1] != '/' {
      var k := |path| - 1;
      DirHoldsSlashes(path[..k]);
      assert DirOf(path) == DirOf(path[..k]);
      CountSlashesSnoc(path[..k], path[k]);
      assert path[..k] + [path[k]] == path;
    } else {
      assert DirOf(path) == path;
    }
  }

  /** Going up drops one slash. */
  lemma UpDropsSlash(dir: string)
    requires dir != [] && dir[|dir| - 1] == '/'
    ensures CountSlashes(DirOf(dir[..|dir| - 1])) + 1 == CountSlashes(dir)
  {
    var k := |dir| - 1;
    DirHoldsSlashes(dir[..k]);
    CountSlashesSnoc(dir[..k], dir[k]);
    assert dir[..k] + [dir[k]] == dir;
  }

  lemma {:induction false} NoSlashNoDir(dir: string)
    requires dir == [] || dir[|dir| - 1] == '/'
    ensures CountSlashes(dir) == 0 <==> dir == []
  {
    if dir != [] {
      UpDropsSlash(dir);
    }
  }

  lemma OneUp(dir: string, rest: string)
    requires dir != []
    ensures Resolve(dir, "../" + rest) == Resolve(DirOf(dir[..|dir| - 1]), rest)
  {
    var link := "../" + rest;
    assert link[3..] == rest && link[..3] == "../";
  }

  lemma RepeatStep(s: string, n: nat, path: string)
    requires n > 0
    ensures Repeat(s, n) + path == s + (Repeat(s, n - 1) + path)
  {
  }

  /** As many `../` as there are segments lead to the top. */
  lemma {:induction false} UpToTheTop(dir: string, n: nat, path: string)
    requires dir == [] || dir[|dir| - 1] == '/'
    requires n == CountSlashes(dir)
    ensures Resolve(dir, Repeat("../", n) + path) == Resolve([], path)
    decreases n
  {
    NoSlashNoDir(dir);
    if n == 0 {
      assert Repeat("../", 0) + path == path;
    } else {
      var above := dir[..|dir| - 1];
      UpDropsSlash(dir);
      DirAndName(above);
      UpToTheTop(DirOf(above), n - 1, path);
      RepeatStep("../", n, path);
      OneUp(dir, Repeat("../", n - 1) + path);
    }
  }

  /** The link of the entry, with the text of the entry around it. */
  lemma EntryText(gap: Gap, today: string) returns (link: string)
    ensures EntryFor(gap, today) == "- **" + today + "** | Referenced in [" + gap.sourceTitle + "](" + link + ")"
    ensures link == Repeat("../", CountSlashes(gap.targetPage)) + gap.sourcePage
  {
    link := Repeat("../", CountSlashes(gap.targetPage)) + gap.sourcePage;
  }

  /**
   * The entry for a gap names the day and the title and holds one link, which leads from the target page to the
   * source page, however deep the two lie; only a source page outside the brain cannot be reached.
   */
  lemma LinkLeadsToSource(gap: Gap, today: string) returns (link: string)
    ensures EntryFor(gap, today) == "- **" + today + "** | Referenced in [" + gap.sourceTitle + "](" + link + ")"
    ensures Resolve(DirOf(gap.targetPage), link) == if "../" <= gap.sourcePage then None else Some(gap.sourcePage)
  {
    var dir := DirOf(gap.targetPage);
    link := EntryText(gap, today);
    DirAndName(gap.targetPage);
    DirHoldsSlashes(gap.targetPage);
    UpToTheTop(dir, CountSlashes(gap.targetPage), gap.sourcePage);
    assert [] + gap.sourcePage == gap.sourcePage;
  }

  lemma {:induction false} UpsHoldNoNewline(n: nat)
    ensures '\n' !in Repeat("../", n)
  {
    if n > 0 {
      UpsHoldNoNewline(n - 1);
    }
  }

  /** After a pass every gap's target page, if it is there, holds a link that leads to the gap's source page. */
  lemma {:induction false} PassWritesLinks(files: Files, gaps: seq<Gap>, today: string, g: Gap) returns (link: string)
    requires g in gaps && g.targetPage in files
    requires '\n' !in g.sourcePage && !("../" <= g.sourcePage)
    ensures g.targetPage in FixAll(files, gaps, today)
    ensures Contains(FixAll(files, gaps, today)[g.targetPage], "](" + link + ")")
    ensures Resolve(DirOf(g.targetPage), link) == Some(g.sourcePage)
    decreases gaps
  {
    var next := FixOne(files, gaps[0], today);
    if gaps[0] == g {
      link := LinkLeadsToSource(g, today);
      LinkIsOneLine(g, today, link);
      LinkInEntry(g, today, link);
      InsertAddsEntry(files[g.targetPage], EntryFor(g, today));
      ContainsTransitive(next[g.targetPage], EntryFor(g, today), "](" + link + ")");
      FixAllKeepsLinks(next, gaps[1..], today, g.targetPage, "](" + link + ")");
    } else {
      link := PassWritesLinks(next, gaps[1..], today, g);
    }
  }

  lemma LinkInEntry(g: Gap, today: string, link: string)
    requires EntryFor(g, today) == "- **" + today + "** | Referenced in [" + g.sourceTitle + "](" + link + ")"
    ensures Contains(EntryFor(g, today), "](" + link + ")")
  {
    var head := "- **" + today + "** | Referenced in [" + g.sourceTitle;
    ContainsSelf("](" + link + ")");
    ContainsWithin(head, "](" + link + ")", "](" + link + ")");
    TailTogether(head, "](", link, ")");
  }

  lemma TailTogether(a: string, b: string, c: string, d: string)
    ensures a + b + c + d == a + (b + c + d)
  {
  }

  lemma LinkIsOneLine(g: Gap, today: string, link: string)
    requires EntryFor(g, today) == "- **" + today + "** | Referenced in [" + g.sourceTitle + "](" + link + ")"
    requires '\n' !in g.sourcePage
    ensures Linkable("](" + link + ")")
  {
    var written := EntryText(g, today);
    var head := "- **" + today + "** | Referenced in [" + g.sourceTitle + "](";
    assert head + link + ")" == head + written + ")";
    SameMiddle(head, link, written, ")");
    UpsHoldNoNewline(CountSlashes(g.targetPage));
    var t := "](" + link + ")";
    assert t[|t| - 1] == ')';
  }

  lemma SameMiddle(a: string, x: string, y: string, b: string)
    requires a + x + b == a + y + b
    ensures x == y
  {
    assert |a + x + b| == |a| + |x| + |b| && |a + y + b| == |a| + |y| + |b|;
    assert x == (a + x + b)[|a|..|a| + |x|];
    assert y == (a + y + b)[|a|..|a| + |y|];
  }

  // ----- where an entry is written -----

  /** The text ends under a timeline heading: after some `## Timeline` no further section starts. */
  ghost predicate UnderTimeline(text: string) {
    exists i: nat :: OpenAt(text, "## Timeline", "\n## ", i)
  }

  /** `heading` stands at `i`, and no `next` occurs after it. */
  ghost predicate OpenAt(text: string, heading: string, next: string, i: nat) {
    OccursAt(text, heading, i) && !Contains(text[i + |heading|..], next)
  }

  /** The pieces of a page around an entry just inserted. */
  datatype Split = Split(kept: string, lead: string, trail: string, rest: string)

  /** Where the entry stands: everything kept is kept in place, and only white space at the end of a page may go. */
  function SplitOf(content: string): Split {
    match PlaceOf(content)
    case BeforeSection(at) => Split(content[..at], "\n", "", content[at..])
    case AtEnd => Split(TrimEnd(content), "\n", "\n", "")
    case NewTimeline => Split(TrimEnd(content), "\n\n## Timeline\n\n", "\n", "")
  }

  lemma NoTimelineExactly(content: string)
    ensures PlaceOf(content).NewTimeline? <==> !Contains(content, "## Timeline")
  {
    if i :| 0 <= i <= |content| && OccursAt(content, TIMELINE, i) {
      IndexOfFirst(content, TIMELINE, i);
    }
    if IndexOf(content, TIMELINE).Some? {
      IndexOfOccurs(content, TIMELINE);
    }
  }

  /**
   * An entry is added and nothing of the page is lost but white space at its end; a timeline heading is added
   * exactly when there is none, and what follows the entry starts a section.
   */
  lemma InsertKeepsText(content: string, entry: string)
    ensures var p := SplitOf(content);
            && InsertEntry(content, entry) == p.kept + p.lead + entry + p.trail + p.rest
            && (p.kept + p.rest == content || (p.rest == "" && p.kept == TrimEnd(content)))
            && p.lead == (if Contains(content, "## Timeline") then "\n" else "\n\n## Timeline\n\n")
            && (p.rest == "" || "\n## " <= p.rest) && (p.trail == "" || p.trail == "\n")
  {
    NoTimelineExactly(content);
    if PlaceOf(content).BeforeSection? {
      SectionAt(content, TIMELINE, "\n## ");
    }
    SplitInserts(content, entry);
  }

  lemma SplitBefore(content: string, entry: string, at: nat)
    requires PlaceOf(content) == BeforeSection(at)
    ensures var p := SplitOf(content); InsertEntry(content, entry) == p.kept + p.lead + entry + p.trail + p.rest
  {
    Regroup(content[..at], "\n", entry, content[at..]);
  }

  lemma SplitAtEnd(content: string, entry: string)
    requires PlaceOf(content) == AtEnd
    ensures var p := SplitOf(content); InsertEntry(content, entry) == p.kept + p.lead + entry + p.trail + p.rest
  {
    Regroup(TrimEnd(content), "\n", entry, "\n");
  }

  lemma SplitNew(content: string, entry: string)
    requires PlaceOf(content) == NewTimeline
    ensures var p := SplitOf(content); InsertEntry(content, entry) == p.kept + p.lead + entry + p.trail + p.rest
  {
    var lead := "\n\n## Timeline\n\n";
    assert lead == "\n\n" + TIMELINE + "\n\n";
    Regroup(TrimEnd(content), lead, entry, "\n");
  }

  lemma SplitInserts(content: string, entry: string)
    ensures var p := SplitOf(content); InsertEntry(content, entry) == p.kept + p.lead + entry + p.trail + p.rest
  {
    match PlaceOf(content)
    case BeforeSection(at) => SplitBefore(content, entry, at);
    case AtEnd => SplitAtEnd(content, entry);
    case NewTimeline => SplitNew(content, entry);
  }

  lemma Regroup(a: string, b: string, c: string, d: string)
    ensures a + (b + c + d) == a + b + c + d + ""
    ensures a + (b + c) + d == a + b + c + "" + d
  {
  }

  /** The first timeline heading, the text up to any second one, and the section that starts in it. */
  lemma SectionFound(content: string) returns (i: nat, section: string, k: nat)
    requires PlaceOf(content).BeforeSection?
    ensures OccursAt(content, TIMELINE, i) && section <= content[i + |TIMELINE|..]
    ensures IndexOf(section, "\n## ") == Some(k) && PlaceOf(content).at == i + |TIMELINE| + k
  {
    i := IndexOf(content, TIMELINE).value;
    var after := content[i + |TIMELINE|..];
    section := match IndexOf(after, TIMELINE) case None => after case Some(j) => after[..j];
    k := IndexOf(section, "\n## ").value;
    IndexOfOccurs(content, TIMELINE);
  }

  /** The section before which an entry goes is the first after the first timeline heading. */
  lemma SectionAt(content: string, heading: string, next: string)
    requires heading == TIMELINE && next == "\n## " && PlaceOf(content).BeforeSection?
    ensures next <= content[PlaceOf(content).at..]
    ensures UnderTimeline(content[..PlaceOf(content).at] + "\n")
  {
    var i, section, k := SectionFound(content);
    SectionOpens(content, heading, next, i, section, k);
    assert OpenAt(content[..PlaceOf(content).at] + "\n", heading, next, i);
  }

  lemma SectionOpens(content: string, heading: string, next: string, i: nat, section: string, k: nat)
    requires OccursAt(content, heading, i) && section <= content[i + |heading|..]
    requires next == "\n## " && IndexOf(section, next) == Some(k)
    ensures i + |heading| + k <= |content| && next <= content[i + |heading| + k..]
    ensures OpenAt(content[..i + |heading| + k] + "\n", heading, next, i)
  {
    IndexOfOccurs(section, next);
    SectionSplits(content, i, |heading|, section, k, next);
    NoneBeforeFirst(section, next, k);
  }

  /** The text before place `k` of a section that starts `width` characters after `i`. */
  lemma SectionSplits(content: string, i: nat, width: nat, section: string, k: nat, next: string)
    requires i + width <= |content| && section <= content[i + width..] && OccursAt(section, next, k)
    ensures i + width + k <= |content| && next <= content[i + width + k..]
    ensures var text := content[..i + width + k] + "\n";
            text[i..i + width] == content[i..i + width] && text[i + width..] == section[..k] + "\n"
  {
    var at := i + width + k;
    assert section[k..k + |next|] == content[at..at + |next|];
    assert section[..k] == content[i + width..at];
  }

  /** Before its first occurrence a pattern does not occur, not even with its first character added. */
  lemma NoneBeforeFirst(s: string, t: string, k: nat)
    requires IndexOf(s, t) == Some(k) && t == "\n## "
    ensures !Contains(s[..k] + "\n", t)
  {
    if j :| 0 <= j <= k + 1 && OccursAt(s[..k] + "\n", t, j) {
      IndexOfOccurs(s, t);
      assert s[k] == s[k..k + 4][0];
      assert s[..k] + "\n" == s[..k + 1];
      assert s[j..j + 4] == s[..k + 1][j..j + 4];
      IndexOfFirst(s, t, j);
    }
  }

  lemma OccursBeforeLast(s: string, t: string, c: char, i: nat)
    requires t != [] && t[|t| - 1] != c
    ensures OccursAt(s + [c], t, i) <==> OccursAt(s, t, i)
  {
    var longer := s + [c];
    if OccursAt(longer, t, i) {
      assert longer[i + |t| - 1] == longer[i..i + |t|][|t| - 1] == t[|t| - 1];
      assert longer[i..i + |t|] == s[i..i + |t|];
    }
    if OccursAt(s, t, i) {
      assert longer[i..i + |t|] == s[i..i + |t|];
    }
  }

  lemma ContainsBeforeLast(s: string, t: string, c: char)
    requires t != [] && t[|t| - 1] != c
    ensures Contains(s + [c], t) <==> Contains(s, t)
  {
    if i :| 0 <= i <= |s + [c]| && OccursAt(s + [c], t, i) {
      OccursBeforeLast(s, t, c, i);
    }
    if i :| 0 <= i <= |s| && OccursAt(s, t, i) {
      OccursBeforeLast(s, t, c, i);
    }
  }

  lemma OpenBeforeLast(text: string, heading: string, next: string, c: char, i: nat)
    requires heading != [] && heading[|heading| - 1] != c && next != [] && next[|next| - 1] != c
    ensures OpenAt(text + [c], heading, next, i) <==> OpenAt(text, heading, next, i)
  {
    OccursBeforeLast(text, heading, c, i);
    if OccursAt(text, heading, i) {
      var after := text[i + |heading|..];
      assert (text + [c])[i + |heading|..] == after + [c];
      ContainsBeforeLast(after, next, c);
    }
  }

  /** A newline at the end neither starts nor ends a section. */
  lemma NewlineKeepsUnder(text: string)
    ensures UnderTimeline(text + "\n") <==> UnderTimeline(text)
  {
    forall i: nat ensures OpenAt(text + "\n", "## Timeline", "\n## ", i) <==> OpenAt(text, "## Timeline", "\n## ", i) {
      OpenBeforeLast(text, "## Timeline", "\n## ", '\n', i);
    }
  }

  lemma OpenAfter(before: string, heading: string, after: string, next: string)
    requires |after| < |next|
    ensures OpenAt(before + heading + after, heading, next, |before|)
  {
    var text := before + heading + after;
    assert text[|before|..|before| + |heading|] == heading;
    assert text[|before| + |heading|..] == after;
  }

  lemma NewHeadingIsTimeline(text: string)
    ensures UnderTimeline(text + "\n\n## Timeline\n\n")
  {
    OpenAfter(text + "\n\n", "## Timeline", "\n\n", "\n## ");
    assert text + "\n\n## Timeline\n\n" == text + "\n\n" + "## Timeline" + "\n\n";
  }

  /**
   * The entry stands in a timeline section, exactly when the page has no timeline yet, or one with a section after
   * it before any second one, or ends under one.
   */
  lemma EntryInTimelineExactly(content: string)
    ensures UnderTimeline(SplitOf(content).kept + SplitOf(content).lead) <==>
            !PlaceOf(content).AtEnd? || UnderTimeline(TrimEnd(content))
  {
    match PlaceOf(content)
    case BeforeSection(at) => SectionAt(content, TIMELINE, "\n## ");
    case AtEnd => NewlineKeepsUnder(TrimEnd(content));
    case NewTimeline => NewHeadingIsTimeline(TrimEnd(content));
  }

  /** With a single timeline heading it always does. */
  lemma OneTimelineIsEnough(content: string, i: nat)
    requires OccursAt(content, "## Timeline", i) && !Contains(content[i + 11..], "## Timeline")
    requires IndexOf(content, "## Timeline") == Some(i)
    ensures UnderTimeline(SplitOf(content).kept + SplitOf(content).lead)
  {
    EntryInTimelineExactly(content);
    var after := content[i + 11..];
    if IndexOf(after, TIMELINE).Some? {
      IndexOfOccurs(after, TIMELINE);
    }
    if PlaceOf(content).AtEnd? {
      TrimmedUnder(content, i);
    }
  }

  lemma TrimmedUnder(content: string, i: nat)
    requires OccursAt(content, "## Timeline", i) && IndexOf(content[i + 11..], "\n## ").None?
    ensures UnderTimeline(TrimEnd(content))
  {
    var x, next := TrimEnd(content), "\n## ";
    OccursTrimmed(content, "## Timeline", i);
    assert x[i + 11..] + content[|x|..] == content[i + 11..];
    NotInPrefix(x[i + 11..], content[|x|..], next);
    assert OpenAt(x, "## Timeline", next, i);
  }

  lemma NotInPrefix(a: string, b: string, t: string)
    requires IndexOf(a + b, t).None?
    ensures !Contains(a, t)
  {
    if Contains(a, t) {
      ContainsWithin(b, a, t);
      var j :| 0 <= j <= |a + b| && OccursAt(a + b, t, j);
      IndexOfFirst(a + b, t, j);
    }
  }

  lemma OccursTrimmed(s: string, t: string, i: nat)
    requires OccursAt(s, t, i) && t != [] && !IsWhitespace(t[|t| - 1])
    ensures OccursAt(TrimEnd(s), t, i)
    ensures TrimEnd(s) <= s
  {
    var x := TrimEnd(s);
    TrimEndSpec(s);
    assert s[i + |t| - 1] == s[i..i + |t|][|t| - 1];
    assert x[i..i + |t|] == s[i..i + |t|];
  }

  /** Two timeline headings with nothing between them, and then another section: the entry goes under that one. */
  lemma TwoTimelinesMisplace(heading: string, tail: string, content: string)
    requires heading == "## Timeline" && content == heading + "\n" + heading + tail
    requires "\n## " <= tail && 'T' !in tail && !IsWhitespace(tail[|tail| - 1])
    ensures !UnderTimeline(SplitOf(content).kept + SplitOf(content).lead)
  {
    TwoTimelinesAtEnd(heading, tail, content);
    EntryInTimelineExactly(content);
    assert content[|content| - 1] == tail[|tail| - 1];
    assert TrimEnd(content) == content;
    forall i: nat ensures !OpenAt(content, heading, "\n## ", i) {
      if OccursAt(content, heading, i) {
        BothAreFollowed(heading, tail, content, i);
      }
    }
  }

  lemma TwoTimelinesAtEnd(heading: string, tail: string, content: string)
    requires heading == TIMELINE && content == heading + "\n" + heading + tail
    ensures PlaceOf(content).AtEnd?
  {
    var after := "\n" + heading + tail;
    assert content[..|heading|] == heading && content[|heading|..] == after;
    assert after[1..] == heading + tail && after[1..][..|heading|] == heading;
    assert after[..|heading|][0] == '\n';
    assert IndexOf(after[1..], heading) == Some(0) && IndexOf(after, heading) == Some(1);
    assert after[..1] == "\n";
  }

  /** A `T` stands only in the two headings. */
  lemma FirstPlaceOf(heading: string, tail: string, content: string, k: nat)
    requires heading == "## Timeline" && content == heading + "\n" + heading + tail
    requires 'T' !in tail && k < |content| && content[k] == 'T'
    ensures k == 3 || k == 15
  {
    var front := heading + "\n" + heading;
    InEither(front, tail, k);
    assert front == "## Timeline\n## Timeline";
  }

  lemma InEither(a: string, b: string, k: nat)
    requires k < |a + b|
    ensures (a + b)[k] == (if k < |a| then a[k] else b[k - |a|]) && (k < |a| || (a + b)[k] in b)
  {
  }

  lemma BothAreFollowed(heading: string, tail: string, content: string, i: nat)
    requires heading == "## Timeline" && content == heading + "\n" + heading + tail
    requires "\n## " <= tail && 'T' !in tail && OccursAt(content, heading, i)
    ensures Contains(content[i + |heading|..], "\n## ")
  {
    assert content[i + 3] == content[i..i + 11][3] == 'T';
    FirstPlaceOf(heading, tail, content, i + 3);
    var rest := content[i + 11..];
    var k := 12 - i;
    assert rest[k..k + 4] == tail[..4];
    assert OccursAt(rest, "\n## ", k);
  }

  // ----- exactly which gaps are found -----

  /** Page `i` is the last with this slug. */
  ghost predicate LastAt(pages: seq<string>, slug: string, i: int) {
    0 <= i < |pages| && SlugOf(pages[i]) == slug && forall j :: i < j < |pages| ==> SlugOf(pages[j]) != slug
  }

  /** `p` is the last of the pages with this slug. */
  ghost predicate LastUnder(pages: seq<string>, slug: string, p: string) {
    exists i :: LastAt(pages, slug, i) && pages[i] == p
  }

  lemma LastAtStep(pages: seq<string>, last: string, slug: string, i: int)
    ensures LastAt(pages + [last], slug, i) <==>
            if i == |pages| then SlugOf(last) == slug else SlugOf(last) != slug && LastAt(pages, slug, i)
  {
    var longer := pages + [last];
    assert longer[|pages|] == last;
    assert forall j :: 0 <= j < |pages| ==> longer[j] == pages[j];
  }

  lemma LastUnderStep(pages: seq<string>, last: string, slug: string, p: string)
    ensures LastUnder(pages + [last], slug, p) <==> if SlugOf(last) == slug then p == last else LastUnder(pages, slug, p)
  {
    var longer := pages + [last];
    forall i ensures LastAt(longer, slug, i) <==>
      if i == |pages| then SlugOf(last) == slug else SlugOf(last) != slug && LastAt(pages, slug, i)
    {
      LastAtStep(pages, last, slug, i);
    }
    assert longer[|pages|] == last;
    if i :| LastAt(pages, slug, i) && pages[i] == p {
      assert longer[i] == p;
    }
  }

  /** A slug stands for the last page that has it. */
  lemma {:induction false} LastPageWins(pages: seq<string>, slug: string, p: string)
    ensures PageBySlug(pages, slug) == Some(p) <==> LastUnder(pages, slug, p)
  {
    if pages != [] {
      var k := |pages| - 1;
      LastPageWins(pages[..k], slug, p);
      LastUnderStep(pages[..k], pages[k], slug, p);
      assert pages[..k] + [pages[k]] == pages;
    }
  }

  /** Reference `k` is the page's first to its target. */
  predicate FirstToTarget(refs: seq<Ref>, k: int) {
    0 <= k < |refs| && forall j :: 0 <= j < k ==> TargetSlug(refs[j]) != TargetSlug(refs[k])
  }

  /** Reference `k` reveals the gap `g`: its target is a page that does not hold the source's file name. */
  ghost predicate Reveals(files: Files, pages: seq<string>, p: string, refs: seq<Ref>, seen: set<string>, title: string, k: int, g: Gap) {
    && FirstToTarget(refs, k) && TargetSlug(refs[k]) !in seen
    && g == Gap(p, refs[k].dir + "/" + refs[k].slug + ".md", refs[k].name, title)
    && exists t :: LastUnder(pages, refs[k].dir + "/" + refs[k].slug, t) && t in files && !Contains(files[t], Basename(p))
  }

  lemma GapOfExactly(files: Files, pages: seq<string>, p: string, ref: Ref, title: string, g: Gap)
    requires HavePages(files, pages)
    ensures GapOf(files, pages, p, ref, title) == Some(g) <==>
            && g == Gap(p, ref.dir + "/" + ref.slug + ".md", ref.name, title)
            && exists t :: LastUnder(pages, ref.dir + "/" + ref.slug, t) && t in files && !Contains(files[t], Basename(p))
  {
    var slug := TargetSlug(ref);
    PageBySlugIsPage(pages, slug);
    if t :| LastUnder(pages, slug, t) && t in files && !Contains(files[t], Basename(p)) {
      LastPageWins(pages, slug, t);
    }
    if PageBySlug(pages, slug).Some? {
      LastPageWins(pages, slug, PageBySlug(pages, slug).value);
    }
  }

  /** Past the first reference, whose target is then seen. */
  lemma RevealsLater(files: Files, pages: seq<string>, p: string, refs: seq<Ref>, seen: set<string>, title: string, k: int, g: Gap)
    requires k > 0 && refs != []
    ensures Reveals(files, pages, p, refs, seen, title, k, g) <==>
            Reveals(files, pages, p, refs[1..], seen + {TargetSlug(refs[0])}, title, k - 1, g)
  {
    var rest := refs[1..];
    if k < |refs| {
      assert rest[k - 1] == refs[k];
      if FirstToTarget(rest, k - 1) && TargetSlug(refs[0]) != TargetSlug(refs[k]) {
        forall j | 0 <= j < k ensures TargetSlug(refs[j]) != TargetSlug(refs[k]) {
          assert j > 0 ==> refs[j] == rest[j - 1];
        }
      }
      if FirstToTarget(refs, k) {
        forall j | 0 <= j < k - 1 ensures TargetSlug(rest[j]) != TargetSlug(rest[k - 1]) {
          assert rest[j] == refs[j + 1];
        }
      }
    }
  }

  lemma {:induction false} PageGapsExactly(files: Files, pages: seq<string>, p: string, refs: seq<Ref>, seen: set<string>, title: string, g: Gap)
    requires HavePages(files, pages)
    ensures g in PageGaps(files, pages, p, refs, seen, title) <==> exists k :: Reveals(files, pages, p, refs, seen, title, k, g)
    decreases refs
  {
    if refs != [] {
      var first := TargetSlug(refs[0]);
      assert first in seen ==> seen + {first} == seen;
      PageGapsExactly(files, pages, p, refs[1..], seen + {first}, title, g);
      GapOfExactly(files, pages, p, refs[0], title, g);
      assert first !in seen && GapOf(files, pages, p, refs[0], title) == Some(g) <==>
             Reveals(files, pages, p, refs, seen, title, 0, g);
      if k :| Reveals(files, pages, p, refs, seen, title, k, g) {
        if k > 0 {
          RevealsLater(files, pages, p, refs, seen, title, k, g);
        }
      }
      if k :| Reveals(files, pages, p, refs[1..], seen + {first}, title, k, g) {
        RevealsLater(files, pages, p, refs, seen, title, k + 1, g);
      }
    }
  }

  lemma {:induction false} GapsFromExactly(files: Files, pages: seq<string>, sources: seq<string>, x: Extractors, g: Gap)
    requires HavePages(files, pages) && HavePages(files, sources)
    ensures g in GapsFrom(files, pages, sources, x) <==>
            exists p :: p in sources && g in PageGaps(files, pages, p, x.refs(files[p]), {}, x.title(files[p]))
  {
    if sources != [] {
      GapsFromExactly(files, pages, sources[1..], x, g);
      assert sources == [sources[0]] + sources[1..];
    }
  }

  /** A page reveals a gap. */
  ghost predicate Finds(files: Files, pages: seq<string>, x: Extractors, p: string, g: Gap)
    requires HavePages(files, pages)
  {
    p in pages && exists k :: Reveals(files, pages, p, x.refs(files[p]), {}, x.title(files[p]), k, g)
  }

  /**
   * Exactly which gaps are found, with all they carry: for each page its first reference to each target, when the
   * last page with the target's slug does not hold the page's file name.
   */
  lemma GapsExactly(files: Files, pages: seq<string>, x: Extractors, g: Gap)
    requires HavePages(files, pages)
    ensures g in GapsOf(files, pages, x) <==> exists p :: Finds(files, pages, x, p, g)
  {
    GapsFromExactly(files, pages, pages, x, g);
    forall p | p in pages
      ensures Finds(files, pages, x, p, g) <==> g in PageGaps(files, pages, p, x.refs(files[p]), {}, x.title(files[p]))
    {
      PageGapsExactly(files, pages, p, x.refs(files[p]), {}, x.title(files[p]), g);
    }
  }

  /** The first of the references, if it is kept. */
  function FirstKept(refs: seq<Ref>): seq<Ref>
    requires refs != []
  {
    if IsEntityDir(refs[0].dir) then [Stripped(refs[0])] else []
  }

  lemma EntityRefsStep(refs: seq<Ref>)
    requires refs != []
    ensures ExtractEntityRefs(refs) == FirstKept(refs) + ExtractEntityRefs(refs[1..])
  {
  }

  lemma ConcatRefs(a: seq<Ref>, b: seq<Ref>, c: seq<Ref>)
    ensures a + (b + c) == a + b + c
  {
  }

  /** The references kept come in the order of the canonical ones. */
  lemma {:induction false} EntityRefsInOrder(a: seq<Ref>, b: seq<Ref>)
    ensures ExtractEntityRefs(a + b) == ExtractEntityRefs(a) + ExtractEntityRefs(b)
  {
    var both := a + b;
    if a == [] {
      assert both == b;
    } else {
      assert both[0] == a[0] && both[1..] == a[1..] + b;
      assert FirstKept(both) == FirstKept(a);
      EntityRefsStep(a);
      EntityRefsStep(both);
      EntityRefsInOrder(a[1..], b);
      ConcatRefs(FirstKept(a), ExtractEntityRefs(a[1..]), ExtractEntityRefs(b));
    }
  }

  function Into(targets: set<string>): Gap -> bool {
    (g: Gap) => g.targetPage in targets
  }

  /** What a pass reports as fixed: the gaps whose target file exists. */
  lemma {:induction false} FixedCountExactly(gaps: seq<Gap>, targets: set<string>)
    ensures CountWithin(gaps, targets) == |Order.Filter(Into(targets), gaps)|
  {
    if gaps != [] {
      FixedCountExactly(gaps[1..], targets);
    }
  }

  // ----- the order of gaps and of fixes -----

  function SlugsOf(refs: seq<Ref>): set<string> {
    if refs == [] then {} else {TargetSlug(refs[0])} + SlugsOf(refs[1..])
  }

  /** A page's gaps come in the order of its references. */
  lemma {:induction false} PageGapsInOrder(files: Files, pages: seq<string>, p: string, a: seq<Ref>, b: seq<Ref>,
                                           seen: set<string>, title: string)
    requires HavePages(files, pages)
    ensures PageGaps(files, pages, p, a + b, seen, title) ==
            PageGaps(files, pages, p, a, seen, title) + PageGaps(files, pages, p, b, seen + SlugsOf(a), title)
    decreases a
  {
    if a == [] {
      assert [] + b == b && seen + SlugsOf(a) == seen;
    } else {
      var first := TargetSlug(a[0]);
      assert (a + b)[1..] == a[1..] + b;
      assert seen + {first} + SlugsOf(a[1..]) == seen + SlugsOf(a);
      assert first in seen ==> seen + {first} == seen;
      PageGapsInOrder(files, pages, p, a[1..], b, seen + {first}, title);
    }
  }

  lemma ConcatAll(a: seq<Gap>, b: seq<Gap>, c: seq<Gap>)
    ensures a + (b + c) == a + b + c
  {
  }

  lemma GapsFromStep(files: Files, pages: seq<string>, sources: seq<string>, x: Extractors)
    requires HavePages(files, pages) && HavePages(files, sources) && sources != []
    ensures var p := sources[0];
            GapsFrom(files, pages, sources, x) == OwnGaps(files, pages, p, x) + GapsFrom(files, pages, sources[1..], x)
  {
  }

  /** The gaps one page reveals. */
  function OwnGaps(files: Files, pages: seq<string>, p: string, x: Extractors): seq<Gap>
    requires forall q :: q in pages ==> q in files
    requires p in files
  {
    PageGaps(files, pages, p, x.refs(files[p]), {}, x.title(files[p]))
  }

  /** The gaps found come in the order of the pages. */
  lemma {:induction false} GapsInOrder(files: Files, pages: seq<string>, a: seq<string>, b: seq<string>, x: Extractors)
    requires HavePages(files, pages) && HavePages(files, a) && HavePages(files, b)
    ensures GapsFrom(files, pages, a + b, x) == GapsFrom(files, pages, a, x) + GapsFrom(files, pages, b, x)
  {
    if a == [] {
      assert [] + b == b;
    } else {
      var both, rest := a + b, a[1..] + b;
      assert both[0] == a[0] && both[1..] == rest;
      GapsFromStep(files, pages, a, x);
      GapsFromStep(files, pages, both, x);
      GapsInOrder(files, pages, a[1..], b, x);
      ConcatAll(OwnGaps(files, pages, a[0], x), GapsFrom(files, pages, a[1..], x), GapsFrom(files, pages, b, x));
    }
  }

  /** Gaps are fixed in the order in which they are given. */
  lemma {:induction false} FixedInOrder(files: Files, a: seq<Gap>, b: seq<Gap>, today: string)
    ensures FixAll(files, a + b, today) == FixAll(FixAll(files, a, today), b, today)
    decreases a
  {
    if a == [] {
      assert [] + b == b;
    } else {
      assert (a + b)[1..] == a[1..] + b;
      FixedInOrder(FixOne(files, a[0], today), a[1..], b, today);
    }
  }

  /** One gap fixed: its target page, if it exists, gets the entry, and no other page changes. */
  lemma OneGapFixed(files: Files, g: Gap, today: string, t: string)
    requires t in files
    ensures FixAll(files, [g], today).Keys == files.Keys
    ensures FixAll(files, [g], today)[t] == if t == g.targetPage then InsertEntry(files[t], EntryFor(g, today)) else files[t]
  {
    assert [g][1..] == [];
  }
}
