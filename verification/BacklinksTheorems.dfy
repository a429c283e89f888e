/** Repairing back-links: no pass loses a link, and repetition closes every gap exactly when the pages are repairable. */
module BacklinksTheorems {
  import opened Common
  import opened Text
  import opened Backlinks
  import opened Iteration

  /** A file name the repair can carry: one line, not ending in white space. */
  ghost predicate Linkable(name: string) {
    name != [] && '\n' !in name && !IsWhitespace(name[|name| - 1])
  }

  /** The page's path survives the trip to its slug and back. */
  predicate RoundTripPath(p: string) {
    SlugOf(p) + ".md" == p
  }

  ghost predicate HavePages(files: Files, pages: seq<string>) {
    forall q :: q in pages ==> q in files
  }

  /** The pages exist, and each has a file name the repair can carry. */
  ghost predicate LinkablePages(files: Files, pages: seq<string>) {
    forall p :: p in pages ==> p in files && Linkable(Basename(p))
  }

  /** The slug of a page among the people or the companies. */
  predicate IsEntitySlug(slug: string) {
    "people/" <= slug || "companies/" <= slug
  }

  /** A page that references find under its slug, while their repair is written to another path. */
  predicate Misdirected(pages: seq<string>, t: string) {
    IsEntitySlug(SlugOf(t)) && PageBySlug(pages, SlugOf(t)) == Some(t) && !RoundTripPath(t)
  }

  /** Every misdirected page already names every page. */
  ghost predicate Repairable(files: Files, pages: seq<string>) {
    && LinkablePages(files, pages)
    && forall s, t :: s in pages && t in pages && Misdirected(pages, t) ==> HasBacklink(files[t], Basename(s))
  }

  // ----- inserting one entry -----

  /** No way of inserting an entry removes a file name that was there. */
  lemma InsertKeepsLinks(content: string, entry: string, name: string)
    requires Linkable(name) && Contains(content, name)
    ensures Contains(InsertEntry(content, entry), name)
  {
    ContainsTrimmed(content, name);
    match PlaceOf(content)
    case BeforeSection(at) =>
      SectionStartsWithNewline(content);
      SplitKeepsLinks(content, at, "\n" + entry, name);
    case AtEnd => ContainsWithin("\n" + entry + "\n", TrimEnd(content), name);
    case NewTimeline => ContainsWithin("\n\n" + TIMELINE + "\n\n" + entry + "\n", TrimEnd(content), name);
  }

  lemma SplitKeepsLinks(content: string, at: nat, mid: string, name: string)
    requires at < |content| && content[at] == '\n' && Linkable(name) && Contains(content, name)
    ensures Contains(content[..at] + mid + content[at..], name)
  {
    var x, y := content[..at], content[at..];
    assert content == x + y;
    ContainsBeforeNewline(x, y, name);
    if Contains(x, name) {
      ContainsWithin(mid + y, x, name);
      assert x + mid + y == x + (mid + y);
    } else {
      ContainsWithin(x + mid, y, name);
    }
  }

  lemma InsertAddsEntry(content: string, entry: string)
    ensures Contains(InsertEntry(content, entry), entry)
  {
    match PlaceOf(content)
    case BeforeSection(at) =>
      Within(content[..at], "\n", entry, "", content[at..]);
      assert "\n" + entry + "" == "\n" + entry;
    case AtEnd =>
      Within(TrimEnd(content), "\n", entry, "\n", "");
      assert InsertEntry(content, entry) + "" == InsertEntry(content, entry);
    case NewTimeline =>
      Within(TrimEnd(content), "\n\n" + TIMELINE + "\n\n", entry, "\n", "");
      assert InsertEntry(content, entry) + "" == InsertEntry(content, entry);
  }

  lemma Within(a: string, b: string, t: string, c: string, d: string)
    ensures Contains(a + (b + t + c) + d, t)
  {
    Surrounded(b, t, c);
    ContainsWithin(a, b + t + c, t);
    ContainsWithin(d, a + (b + t + c), t);
  }

  lemma Surrounded(a: string, t: string, b: string)
    ensures Contains(a + t + b, t)
  {
    ContainsSelf(t);
    ContainsWithin(a, t, t);
    ContainsWithin(b, a + t, t);
  }

  lemma SplitPath(up: string, p: string)
    ensures up + p == (up + p[..AfterLastSlash(p)]) + Basename(p)
  {
    assert p == p[..AfterLastSlash(p)] + Basename(p);
  }

  lemma EntryNamesSource(gap: Gap, today: string)
    ensures Contains(EntryFor(gap, today), Basename(gap.sourcePage))
  {
    var up, p := Repeat("../", CountSlashes(gap.targetPage)), gap.sourcePage;
    SplitPath(up, p);
    EntryNamesFile(gap.sourceTitle, up + p[..AfterLastSlash(p)], Basename(p), today);
  }

  lemma EntryNamesFile(title: string, dir: string, name: string, today: string)
    ensures Contains(BuildBacklinkEntry(title, dir + name, today), name)
  {
    var head := "- **" + today + "** | Referenced in [" + title + "](";
    Surrounded(head + dir, name, ")");
    assert BuildBacklinkEntry(title, dir + name, today) == head + (dir + name) + ")";
    assert head + (dir + name) + ")" == (head + dir) + name + ")";
  }

  // ----- a whole pass -----

  lemma FixOneKeepsLinks(files: Files, gap: Gap, today: string, t: string, name: string)
    requires t in files && Linkable(name) && Contains(files[t], name)
    ensures t in FixOne(files, gap, today) && Contains(FixOne(files, gap, today)[t], name)
  {
    if gap.targetPage == t {
      InsertKeepsLinks(files[t], EntryFor(gap, today), name);
    }
  }

  /** A pass over any gaps removes no page and no linked file name. */
  lemma {:induction false} FixAllKeepsLinks(files: Files, gaps: seq<Gap>, today: string, t: string, name: string)
    requires t in files && Linkable(name) && Contains(files[t], name)
    ensures t in FixAll(files, gaps, today) && Contains(FixAll(files, gaps, today)[t], name)
    decreases gaps
  {
    if gaps != [] {
      FixOneKeepsLinks(files, gaps[0], today, t, name);
      FixAllKeepsLinks(FixOne(files, gaps[0], today), gaps[1..], today, t, name);
    }
  }

  /** A pass closes every gap whose target file exists. */
  lemma {:induction false} FixAllClosesGap(files: Files, gaps: seq<Gap>, today: string, g: Gap)
    requires g in gaps && g.targetPage in files && Linkable(Basename(g.sourcePage))
    ensures g.targetPage in FixAll(files, gaps, today)
    ensures HasBacklink(FixAll(files, gaps, today)[g.targetPage], Basename(g.sourcePage))
    decreases gaps
  {
    var name := Basename(g.sourcePage);
    var next := FixOne(files, gaps[0], today);
    if gaps[0] == g {
      InsertAddsEntry(files[g.targetPage], EntryFor(g, today));
      EntryNamesSource(g, today);
      ContainsTransitive(next[g.targetPage], EntryFor(g, today), name);
      FixAllKeepsLinks(next, gaps[1..], today, g.targetPage, name);
    } else {
      FixAllClosesGap(next, gaps[1..], today, g);
    }
  }

  // ----- which references count -----

  /** The extractor keeps exactly the references into the two directories, each with its slug stripped. */
  lemma {:induction false} EntityRefsExactly(canonical: seq<Ref>, ref: Ref)
    ensures ref in ExtractEntityRefs(canonical) <==>
            exists c :: c in canonical && IsEntityDir(c.dir) && ref == Stripped(c)
  {
    if canonical != [] {
      EntityRefsExactly(canonical[1..], ref);
      assert canonical == [canonical[0]] + canonical[1..];
    }
  }

  /** Stripping and putting the directory back in front gives the slug back, or one with the directory added. */
  lemma StripComesBack(c: Ref)
    ensures TargetSlug(Stripped(c)) == if c.dir + "/" <= c.slug then c.slug else c.dir + "/" + c.slug
  {
    if c.dir + "/" <= c.slug {
      assert c.slug == c.slug[..|c.dir| + 1] + c.slug[|c.dir| + 1..];
    }
  }

  lemma EntityTarget(ref: Ref)
    requires IsEntityDir(ref.dir)
    ensures IsEntitySlug(TargetSlug(ref))
  {
    assert TargetSlug(ref)[..|ref.dir| + 1] == ref.dir + "/";
  }

  // ----- which gaps are found -----

  lemma {:induction false} PageGapsAreGaps(files: Files, pages: seq<string>, p: string, refs: seq<Ref>, seen: set<string>,
                                           title: string, g: Gap)
    requires forall q :: q in pages ==> q in files
    requires g in PageGaps(files, pages, p, refs, seen, title)
    ensures g.sourcePage == p
    ensures exists ref :: ref in refs && GapOf(files, pages, p, ref, title) == Some(g)
    decreases refs
  {
    if TargetSlug(refs[0]) in seen {
      PageGapsAreGaps(files, pages, p, refs[1..], seen, title, g);
    } else {
      assert refs[0] in refs;
      if GapOf(files, pages, p, refs[0], title) != Some(g) {
        PageGapsAreGaps(files, pages, p, refs[1..], seen + {TargetSlug(refs[0])}, title, g);
      }
    }
  }

  lemma {:induction false} GapsFromAreGaps(files: Files, pages: seq<string>, sources: seq<string>, x: Extractors, g: Gap)
    requires forall q :: q in pages ==> q in files
    requires forall q :: q in sources ==> q in files
    requires g in GapsFrom(files, pages, sources, x)
    ensures g.sourcePage in sources
    ensures exists ref :: ref in x.refs(files[g.sourcePage]) &&
              GapOf(files, pages, g.sourcePage, ref, x.title(files[g.sourcePage])) == Some(g)
  {
    var p := sources[0];
    if g in PageGaps(files, pages, p, x.refs(files[p]), {}, x.title(files[p])) {
      PageGapsAreGaps(files, pages, p, x.refs(files[p]), {}, x.title(files[p]), g);
    } else {
      GapsFromAreGaps(files, pages, sources[1..], x, g);
    }
  }

  /** A found gap is a real one: its target is a page, and that page lacks the source's file name. */
  lemma FoundGapIsReal(files: Files, pages: seq<string>, x: Extractors, g: Gap)
    requires Repairable(files, pages) && g in GapsOf(files, pages, x)
    ensures g.sourcePage in pages && g.targetPage in pages
    ensures !HasBacklink(files[g.targetPage], Basename(g.sourcePage))
  {
    GapsFromAreGaps(files, pages, pages, x, g);
    var ref :| ref in x.refs(files[g.sourcePage]) &&
               GapOf(files, pages, g.sourcePage, ref, x.title(files[g.sourcePage])) == Some(g);
    PageBySlugIsPage(pages, TargetSlug(ref));
    EntityRefsExactly(x.canonical(files[g.sourcePage]), ref);
    EntityTarget(ref);
    assert !Misdirected(pages, TargetOf(pages, ref));
  }

  lemma {:induction false} FoundInPageGaps(files: Files, pages: seq<string>, p: string, refs: seq<Ref>, seen: set<string>,
                                           title: string, ref: Ref)
    requires forall q :: q in pages ==> q in files
    requires ref in refs && TargetSlug(ref) !in seen && GapOf(files, pages, p, ref, title).Some?
    ensures PageGaps(files, pages, p, refs, seen, title) != []
    decreases refs
  {
    if TargetSlug(refs[0]) in seen {
      FoundInPageGaps(files, pages, p, refs[1..], seen, title, ref);
    } else if TargetSlug(refs[0]) == TargetSlug(ref) {
      assert GapOf(files, pages, p, refs[0], title).Some?;
    } else {
      FoundInPageGaps(files, pages, p, refs[1..], seen + {TargetSlug(refs[0])}, title, ref);
    }
  }

  lemma {:induction false} FoundInGapsFrom(files: Files, pages: seq<string>, sources: seq<string>, x: Extractors, p: string, ref: Ref)
    requires forall q :: q in pages ==> q in files
    requires forall q :: q in sources ==> q in files
    requires p in sources && ref in x.refs(files[p]) && GapOf(files, pages, p, ref, x.title(files[p])).Some?
    ensures GapsFrom(files, pages, sources, x) != []
  {
    if sources[0] == p {
      FoundInPageGaps(files, pages, p, x.refs(files[p]), {}, x.title(files[p]), ref);
    } else {
      FoundInGapsFrom(files, pages, sources[1..], x, p, ref);
    }
  }

  /** The page a reference points to. */
  function TargetOf(pages: seq<string>, ref: Ref): (t: string)
    requires PageBySlug(pages, TargetSlug(ref)).Some?
    ensures t in pages
  {
    PageBySlugIsPage(pages, TargetSlug(ref));
    PageBySlug(pages, TargetSlug(ref)).value
  }

  /** The reference `ref` on page `p` has its back-link, or points to no page. */
  ghost predicate Linked(files: Files, pages: seq<string>, p: string, ref: Ref)
    requires forall q :: q in pages ==> q in files
  {
    PageBySlug(pages, TargetSlug(ref)).Some? ==> HasBacklink(files[TargetOf(pages, ref)], Basename(p))
  }

  lemma LinkedExactly(files: Files, pages: seq<string>, p: string, ref: Ref, title: string)
    requires forall q :: q in pages ==> q in files
    ensures GapOf(files, pages, p, ref, title).None? <==> Linked(files, pages, p, ref)
  {
  }

  /** Nothing is missed: no gap is found exactly when every referenced page has its back-link. */
  lemma NoGapsExactly(files: Files, pages: seq<string>, x: Extractors)
    requires forall q :: q in pages ==> q in files
    ensures GapsOf(files, pages, x) == [] <==>
            forall p, ref :: p in pages && ref in x.refs(files[p]) ==> Linked(files, pages, p, ref)
  {
    if GapsOf(files, pages, x) == [] {
      forall p, ref | p in pages && ref in x.refs(files[p]) ensures Linked(files, pages, p, ref) {
        LinkedExactly(files, pages, p, ref, x.title(files[p]));
        if GapOf(files, pages, p, ref, x.title(files[p])).Some? {
          FoundInGapsFrom(files, pages, pages, x, p, ref);
        }
      }
    } else {
      var g := GapsOf(files, pages, x)[0];
      GapsFromAreGaps(files, pages, pages, x, g);
      var ref :| ref in x.refs(files[g.sourcePage]) &&
                 GapOf(files, pages, g.sourcePage, ref, x.title(files[g.sourcePage])) == Some(g);
      LinkedExactly(files, pages, g.sourcePage, ref, x.title(files[g.sourcePage]));
    }
  }

  // ----- when one page's name hides another's -----

  /** The text names pages exactly as links to the paths in `linked` would. */
  ghost predicate Mentions(text: string, pages: seq<string>, linked: set<string>) {
    forall p :: p in pages ==> (HasBacklink(text, Basename(p)) <==> exists q :: q in linked && Contains(q, Basename(p)))
  }

  /** No page's path contains another's file name. */
  ghost predicate NoShadow(pages: seq<string>) {
    forall p, q :: p in pages && q in pages && p != q ==> !Contains(q, Basename(p))
  }

  lemma PathHoldsName(p: string)
    ensures Contains(p, Basename(p))
  {
    ContainsSelf(Basename(p));
    ContainsWithin(p[..AfterLastSlash(p)], Basename(p), Basename(p));
    assert p == p[..AfterLastSlash(p)] + Basename(p);
  }

  /** A link to `q` hides the missing link from `p` when `q` contains the file name of `p`. */
  lemma ShadowHidesGap(files: Files, pages: seq<string>, p: string, q: string, ref: Ref, title: string)
    requires HavePages(files, pages) && Contains(q, Basename(p))
    requires PageBySlug(pages, TargetSlug(ref)).Some? && Contains(files[TargetOf(pages, ref)], q)
    ensures GapOf(files, pages, p, ref, title).None?
  {
    ContainsTransitive(files[TargetOf(pages, ref)], q, Basename(p));
  }

  /** So a link from `joann` hides that `ann` has none. */
  lemma JoannHidesAnn(files: Files, pages: seq<string>, p: string, q: string, ref: Ref, title: string)
    requires p == "people/ann.md" && q == "people/joann.md"
    requires HavePages(files, pages)
    requires PageBySlug(pages, TargetSlug(ref)).Some? && Contains(files[TargetOf(pages, ref)], q)
    ensures GapOf(files, pages, p, ref, title).None?
  {
    AnnInJoann(p, q);
    ShadowHidesGap(files, pages, p, q, ref, title);
  }

  lemma AnnInJoann(p: string, q: string)
    requires p == "people/ann.md" && q == "people/joann.md"
    ensures Contains(q, Basename(p))
  {
    LastSlashIs("people", "ann.md");
    assert p == "people" + "/" + "ann.md" && p[7..] == "ann.md";
    assert q[9..] == Basename(p);
    assert OccursAt(q, Basename(p), 9);
  }

  /** The test finds page `p` linked, whatever the text and the links it holds, exactly when `p` is. */
  ghost predicate TestIsRight(pages: seq<string>, text: string, linked: set<string>) {
    (forall q :: q in linked ==> q in pages) && Mentions(text, pages, linked) ==>
      forall p :: p in pages ==> (HasBacklink(text, Basename(p)) <==> p in linked)
  }

  /** The substring test tells links apart exactly when no page's path contains another's file name. */
  lemma TestIsRightExactly(pages: seq<string>)
    ensures (forall text, linked :: TestIsRight(pages, text, linked)) <==> NoShadow(pages)
  {
    forall p ensures Contains(p, Basename(p)) {
      PathHoldsName(p);
    }
    if p, q :| p in pages && q in pages && p != q && Contains(q, Basename(p)) {
      assert Mentions(q, pages, {q});
      assert !TestIsRight(pages, q, {q});
    }
  }

  /** Without shadows, no gaps means that every reference to a page has a link of its own there. */
  lemma NoGapsMeansOwnLinks(files: Files, pages: seq<string>, x: Extractors, links: map<string, set<string>>)
    requires HavePages(files, pages) && NoShadow(pages)
    requires forall t :: t in pages ==> t in links && (forall q :: q in links[t] ==> q in pages)
    requires forall t :: t in pages ==> Mentions(files[t], pages, links[t])
    ensures GapsOf(files, pages, x) == [] <==>
            forall p, ref :: p in pages && ref in x.refs(files[p]) && PageBySlug(pages, TargetSlug(ref)).Some? ==>
              p in links[TargetOf(pages, ref)]
  {
    NoGapsExactly(files, pages, x);
    TestIsRightExactly(pages);
    forall p, ref | p in pages && PageBySlug(pages, TargetSlug(ref)).Some?
      ensures Linked(files, pages, p, ref) <==> p in links[TargetOf(pages, ref)]
    {
      var t := TargetOf(pages, ref);
      assert TestIsRight(pages, files[t], links[t]);
    }
  }

  // ----- convergence -----

  /** The pairs of pages (source, target) where the target does not name the source. */
  function Lacking(files: Files, pages: seq<string>): set<(string, string)>
    requires forall q :: q in pages ==> q in files
  {
    set s, t | s in pages && t in pages && !HasBacklink(files[t], Basename(s)) :: (s, t)
  }

  lemma MarkdownNameIsLinkable(slug: string, p: string)
    requires '\n' !in p && p == slug + ".md"
    ensures Linkable(Basename(p))
  {
  }

  /** A pass keeps every link between the pages, and so keeps them repairable. */
  lemma PassKeepsLinks(files: Files, pages: seq<string>, gaps: seq<Gap>, today: string)
    requires LinkablePages(files, pages)
    ensures var next := FixAll(files, gaps, today);
            && next.Keys == files.Keys
            && Lacking(next, pages) <= Lacking(files, pages)
            && (Repairable(files, pages) ==> Repairable(next, pages))
  {
    FixAllByTarget(files, gaps, today);
    forall s, t | s in pages && t in pages && HasBacklink(files[t], Basename(s))
      ensures HasBacklink(FixAll(files, gaps, today)[t], Basename(s))
    {
      FixAllKeepsLinks(files, gaps, today, t, Basename(s));
    }
  }

  /** One pass that finds gaps: no pair becomes lacking, and strictly fewer are. */
  lemma PassClosesGaps(files: Files, pages: seq<string>, x: Extractors, today: string)
    requires Repairable(files, pages)
    ensures var next := FixAll(files, GapsOf(files, pages, x), today);
            && Repairable(next, pages)
            && Lacking(next, pages) <= Lacking(files, pages)
            && (GapsOf(files, pages, x) != [] ==> Lacking(next, pages) < Lacking(files, pages))
  {
    var gaps := GapsOf(files, pages, x);
    PassKeepsLinks(files, pages, gaps, today);
    if gaps != [] {
      var g := gaps[0];
      FoundGapIsReal(files, pages, x, g);
      FixAllClosesGap(files, gaps, today, g);
      assert (g.sourcePage, g.targetPage) in Lacking(files, pages) - Lacking(FixAll(files, gaps, today), pages);
    }
  }

  /** One find-and-fix pass over these pages, the `i`-th one dated `day(i)`. */
  ghost function Pass(pages: seq<string>, x: Extractors, day: nat -> string): (Files, nat) -> Files {
    (files: Files, i: nat) =>
      if HavePages(files, pages) then FixAll(files, GapsOf(files, pages, x), day(i)) else files
  }

  ghost function Settled(pages: seq<string>, x: Extractors): Files -> bool {
    (files: Files) => HavePages(files, pages) && GapsOf(files, pages, x) == []
  }

  ghost function Good(pages: seq<string>): Files -> bool {
    (files: Files) => Repairable(files, pages)
  }

  ghost function LackingCount(pages: seq<string>): Files -> nat {
    (files: Files) => if HavePages(files, pages) then |Lacking(files, pages)| else 0
  }

  lemma SmallerSet(a: set<(string, string)>, b: set<(string, string)>)
    requires a < b
    ensures |a| < |b|
  {
    var x :| x in b && x !in a;
    assert a <= b - {x};
    SubsetSize(a, b - {x});
  }

  lemma {:induction false} SubsetSize(a: set<(string, string)>, b: set<(string, string)>)
    requires a <= b
    ensures |a| <= |b|
  {
    if a != {} {
      var x :| x in a;
      SubsetSize(a - {x}, b - {x});
    }
  }

  lemma PassDescends(files: Files, pages: seq<string>, x: Extractors, today: string)
    requires Repairable(files, pages) && GapsOf(files, pages, x) != []
    ensures var next := FixAll(files, GapsOf(files, pages, x), today);
            Repairable(next, pages) && |Lacking(next, pages)| < |Lacking(files, pages)|
  {
    PassClosesGaps(files, pages, x, today);
    SmallerSet(Lacking(FixAll(files, GapsOf(files, pages, x), today), pages), Lacking(files, pages));
  }

  lemma PassesDescend(pages: seq<string>, x: Extractors, day: nat -> string)
    ensures Descends(Pass(pages, x, day), Good(pages), Settled(pages, x), LackingCount(pages))
  {
    forall files, i: nat | Good(pages)(files) && !Settled(pages, x)(files)
      ensures Good(pages)(Pass(pages, x, day)(files, i))
      ensures LackingCount(pages)(Pass(pages, x, day)(files, i)) < LackingCount(pages)(files)
    {
      PassDescends(files, pages, x, day(i));
    }
  }

  /**
   * Repeated repair of repairable pages reaches a state without gaps, for any extractors and whatever the
   * dates, after no more passes than there were lacking pairs.
   */
  lemma RepairConverges(files: Files, pages: seq<string>, x: Extractors, day: nat -> string) returns (k: nat)
    requires Repairable(files, pages)
    ensures k <= |Lacking(files, pages)|
    ensures var settled := Iterate(Pass(pages, x, day), files, 0, k);
            Repairable(settled, pages) && GapsOf(settled, pages, x) == []
  {
    PassesDescend(pages, x, day);
    k := Reaches(Pass(pages, x, day), Good(pages), Settled(pages, x), LackingCount(pages), files, 0);
  }

  // ----- exactly when it converges -----

  /** The canonical extractor that finds the same reference on every page. */
  function Always(c: Ref): Extractors {
    Extractors(_ => [c], _ => "Untitled")
  }

  /** A canonical reference to a page among the people or the companies. */
  lemma RefTo(slug: string) returns (c: Ref)
    requires IsEntitySlug(slug)
    ensures IsEntityDir(c.dir) && TargetSlug(Stripped(c)) == slug
  {
    c := Ref("Name", slug, if "people/" <= slug then "people" else "companies");
    assert c.dir + "/" <= slug;
    StripComesBack(c);
  }

  lemma OnlyRef(c: Ref, text: string)
    requires IsEntityDir(c.dir)
    ensures Always(c).refs(text) == [Stripped(c)]
  {
    var one, none: seq<Ref> := [c], [];
    assert one[1..] == none && ExtractEntityRefs(none) == [];
    assert Always(c).canonical(text) == one;
  }

  lemma {:induction false} FixAllElsewhere(files: Files, gaps: seq<Gap>, today: string, t: string)
    requires t in files && forall g :: g in gaps ==> g.targetPage != t
    ensures t in FixAll(files, gaps, today) && FixAll(files, gaps, today)[t] == files[t]
    decreases gaps
  {
    if gaps != [] {
      FixAllElsewhere(FixOne(files, gaps[0], today), gaps[1..], today, t);
    }
  }

  /** `t` is misdirected and its text, `text`, does not name `s`. */
  ghost predicate Stuck(files: Files, pages: seq<string>, s: string, t: string, text: string) {
    && HavePages(files, pages)
    && s in pages && t in pages && Misdirected(pages, t)
    && files[t] == text && !HasBacklink(text, Basename(s))
  }

  /** A pass that looks for `t` finds a gap and writes every entry to another path than `t`. */
  lemma StuckPass(files: Files, pages: seq<string>, s: string, t: string, text: string, c: Ref, today: string)
    requires Stuck(files, pages, s, t, text) && IsEntityDir(c.dir) && TargetSlug(Stripped(c)) == SlugOf(t)
    ensures GapsOf(files, pages, Always(c)) != []
    ensures Stuck(FixAll(files, GapsOf(files, pages, Always(c)), today), pages, s, t, text)
  {
    var x := Always(c);
    var gaps := GapsOf(files, pages, x);
    OnlyRef(c, files[s]);
    FoundInGapsFrom(files, pages, pages, x, s, Stripped(c));
    forall g | g in gaps ensures g.targetPage != t {
      GapsFromAreGaps(files, pages, pages, x, g);
      OnlyRef(c, files[g.sourcePage]);
      PageBySlugIsPage(pages, SlugOf(t));
    }
    FixAllByTarget(files, gaps, today);
    FixAllElsewhere(files, gaps, today, t);
  }

  lemma {:induction false} StuckForever(files: Files, pages: seq<string>, s: string, t: string, text: string, c: Ref,
                                        day: nat -> string, start: nat, k: nat)
    requires Stuck(files, pages, s, t, text) && IsEntityDir(c.dir) && TargetSlug(Stripped(c)) == SlugOf(t)
    ensures Stuck(Iterate(Pass(pages, Always(c), day), files, start, k), pages, s, t, text)
    decreases k
  {
    if k > 0 {
      StuckPass(files, pages, s, t, text, c, day(start));
      StuckForever(Pass(pages, Always(c), day)(files, start), pages, s, t, text, c, day, start + 1, k - 1);
    }
  }

  /** Some number of passes leaves no gap. */
  ghost predicate Converges(files: Files, pages: seq<string>, x: Extractors, day: nat -> string) {
    exists k: nat :: Settled(pages, x)(Iterate(Pass(pages, x, day), files, 0, k))
  }

  /** A misdirected page that lacks a link: some gap is found on every pass, for ever. */
  lemma NeverSettles(files: Files, pages: seq<string>, s: string, t: string, c: Ref, day: nat -> string)
    requires HavePages(files, pages) && s in pages && t in pages
    requires Misdirected(pages, t) && !HasBacklink(files[t], Basename(s))
    requires IsEntityDir(c.dir) && TargetSlug(Stripped(c)) == SlugOf(t)
    ensures !Converges(files, pages, Always(c), day)
  {
    var x := Always(c);
    forall k: nat ensures !Settled(pages, x)(Iterate(Pass(pages, x, day), files, 0, k)) {
      StuckForever(files, pages, s, t, files[t], c, day, 0, k);
      StuckPass(Iterate(Pass(pages, x, day), files, 0, k), pages, s, t, files[t], c, day(k));
    }
  }

  lemma RepairableConverges(files: Files, pages: seq<string>, x: Extractors, day: nat -> string)
    requires Repairable(files, pages)
    ensures Converges(files, pages, x, day)
  {
    var k := RepairConverges(files, pages, x, day);
    assert Settled(pages, x)(Iterate(Pass(pages, x, day), files, 0, k));
  }

  lemma UnrepairableNeverSettles(files: Files, pages: seq<string>, day: nat -> string) returns (x: Extractors)
    requires LinkablePages(files, pages) && !Repairable(files, pages)
    ensures !Converges(files, pages, x, day)
  {
    var s, t :| s in pages && t in pages && Misdirected(pages, t) && !HasBacklink(files[t], Basename(s));
    var c := RefTo(SlugOf(t));
    NeverSettles(files, pages, s, t, c, day);
    x := Always(c);
  }

  /** Repetition reaches no gaps, for every extractor and all dates, exactly when the pages are repairable. */
  lemma RepairConvergesExactly(files: Files, pages: seq<string>, day: nat -> string)
    requires LinkablePages(files, pages)
    ensures (forall x :: Converges(files, pages, x, day)) <==> Repairable(files, pages)
  {
    if Repairable(files, pages) {
      forall x ensures Converges(files, pages, x, day) {
        RepairableConverges(files, pages, x, day);
      }
    } else {
      var x := UnrepairableNeverSettles(files, pages, day);
    }
  }

  // ----- which paths come back from their slugs -----

  /** Nothing but `.md`s. */
  predicate OnlyMd(s: string) {
    s == [] || (".md" <= s && OnlyMd(s[3..]))
  }

  /** A word that commutes with `.md` is made of `.md`s. */
  lemma {:induction false} CommutesExactly(s: string)
    ensures s + ".md" == ".md" + s <==> OnlyMd(s)
  {
    var md := ".md";
    if |s| >= 3 {
      assert s == s[..3] + s[3..];
      CommutesExactly(s[3..]);
      if s[..3] == md {
        assert s + md == md + (s[3..] + md) && md + s == md + (md + s[3..]);
        assert (s + md)[3..] == s[3..] + md && (md + s)[3..] == md + s[3..];
      } else {
        assert (s + md)[..3] == s[..3] && (md + s)[..3] == md;
      }
    } else if s != [] {
      assert (md + s)[1] == 'm' && (md + s)[|s|] == md[|s|] && (s + md)[|s|] == '.';
    }
  }

  /** A path comes back from its slug exactly when, from its first `.md` on, it is nothing but `.md`s. */
  lemma RoundTripExactly(p: string)
    ensures RoundTripPath(p) <==> IndexOf(p, ".md").Some? && OnlyMd(p[IndexOf(p, ".md").value..])
  {
    var md := ".md";
    if IndexOf(p, md).Some? {
      IndexOfOccurs(p, md);
      var i := IndexOf(p, md).value;
      var a, b := p[..i], p[i + 3..];
      assert p[i..] == md + b && p == a + (md + b);
      CommutesExactly(b);
      assert SlugOf(p) + md == a + (b + md);
      assert (a + (b + md))[i..] == b + md && (a + (md + b))[i..] == md + b;
      assert (md + b)[3..] == b;
    }
  }

  lemma {:induction false} OnlyMdAt(s: string, i: nat)
    requires i < |s|
    ensures OnlyMd(s) ==> s[i] == ".md"[i % 3]
  {
    if i >= 3 {
      OnlyMdAt(s[3..], i - 3);
    }
  }

  /** Paths that do not, whatever `a`: in `a.mdx.md` a `.md` is followed by an `x`. */
  lemma MdxPathIsLost(a: string)
    ensures !RoundTripPath(a + ".mdx.md")
  {
    var p, md := a + ".mdx.md", ".md";
    assert p[|a|..|a| + 3] == md;
    IndexOfFirst(p, md, |a|);
    var i := IndexOf(p, md).value;
    RoundTripExactly(p);
    assert p[i..][|a| + 3 - i] == 'x';
    OnlyMdAt(p[i..], |a| + 3 - i);
  }

  /** The slug of a path whose first `.md` is known. */
  lemma SlugAt(a: string, b: string)
    requires '.' !in a
    ensures SlugOf(a + ".md" + b) == a + b && IndexOf(a + ".md" + b, ".md") == Some(|a|)
  {
    var p, md := a + ".md" + b, ".md";
    assert p[|a|..|a| + 3] == md;
    IndexOfFirst(p, md, |a|);
    var i := IndexOf(p, md).value;
    assert p[i] == p[i..i + 3][0] == '.';
    assert i == |a|;
    assert p[..|a|] == a && p[|a| + 3..] == b;
  }

  /** Two pages with one slug: `page` is found under it, and every entry meant for `page` is written to `twin`. */
  lemma TwinIsMisdirected(stem: string, rest: string, twin: string, page: string)
    requires '.' !in stem && IsEntitySlug(stem) && !OnlyMd(rest)
    requires page == stem + ".md" + rest && twin == stem + rest + ".md"
    ensures SlugOf(page) + ".md" == twin && Misdirected([twin, page], page)
  {
    SlugAt(stem, rest);
    RoundTripExactly(page);
    assert page[|stem|..] == ".md" + rest && (".md" + rest)[3..] == rest;
    assert SlugOf(page) == stem + rest;
    assert [twin, page][1] == page;
  }

  lemma ExampleTwin(twin: string, page: string)
    requires twin == "people/a-b.md.md" && page == "people/a.md-b.md"
    ensures SlugOf(page) + ".md" == twin && Misdirected([twin, page], page)
  {
    var stem, rest := "people/a", "-b.md";
    assert page == stem + ".md" + rest && twin == stem + rest + ".md";
    assert stem[..7] == "people/";
    TwinIsMisdirected(stem, rest, twin, page);
  }

  lemma ExampleName(page: string)
    requires page == "people/a.md-b.md"
    ensures Basename(page) == "a.md-b.md"
  {
    LastSlashIs("people", "a.md-b.md");
    assert page == "people" + "/" + "a.md-b.md";
  }

  lemma MisdirectedNeverSettles(files: Files, pages: seq<string>, t: string, day: nat -> string) returns (x: Extractors)
    requires HavePages(files, pages) && t in pages && Misdirected(pages, t) && !HasBacklink(files[t], Basename(t))
    ensures !Converges(files, pages, x, day)
  {
    var c := RefTo(SlugOf(t));
    NeverSettles(files, pages, t, t, c, day);
    x := Always(c);
  }

  /** So with `people/a-b.md.md` before `people/a.md-b.md`: entries meant for the second enter the first, for ever. */
  lemma TwinsNeverSettle(files: Files, twin: string, page: string, day: nat -> string) returns (x: Extractors)
    requires twin == "people/a-b.md.md" && page == "people/a.md-b.md"
    requires twin in files && page in files && files[page] == ""
    ensures SlugOf(page) + ".md" == twin && !Converges(files, [twin, page], x, day)
  {
    ExampleTwin(twin, page);
    ExampleName(page);
    var name := Basename(page);
    assert |name| == 9;
    assert [twin, page][1] == page;
    x := MisdirectedNeverSettles(files, [twin, page], page, day);
  }
}
