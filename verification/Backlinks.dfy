/** Finding and fixing missing back-links across brain pages (src/commands/backlinks.ts). */
module Backlinks {
  import opened Common
  import opened Text

  /** One entity reference: the slug with its directory in front, as the canonical extractor returns it, or without. */
  datatype Ref = Ref(name: string, slug: string, dir: string)

  predicate IsEntityDir(dir: string) {
    dir == "people" || dir == "companies"
  }

  /** The slug without its directory in front. */
  function Stripped(ref: Ref): Ref {
    if ref.dir + "/" <= ref.slug then ref.(slug := ref.slug[|ref.dir| + 1..]) else ref
  }

  /** References to people and companies, and no others. */
  function ExtractEntityRefs(canonical: seq<Ref>): seq<Ref> {
    if canonical == [] then []
    else (if IsEntityDir(canonical[0].dir) then [Stripped(canonical[0])] else []) + ExtractEntityRefs(canonical[1..])
  }

  /** What the source does not decide here: the canonical extractor and the title extractor, both of page text. */
  datatype Extractors = Extractors(canonical: string -> seq<Ref>, title: string -> string) {
    function refs(text: string): seq<Ref> {
      ExtractEntityRefs(canonical(text))
    }
  }

  datatype Gap = Gap(sourcePage: string, targetPage: string, entityName: string, sourceTitle: string)

  /** Page text by path relative to the brain directory. */
  type Files = map<string, string>

  const TIMELINE := "## Timeline"

  function SlugOf(relPath: string): string {
    DropFirst(relPath, ".md")
  }

  predicate HasBacklink(content: string, sourceFilename: string) {
    Contains(content, sourceFilename)
  }

  function BuildBacklinkEntry(title: string, path: string, date: string): string {
    "- **" + date + "** | Referenced in [" + title + "](" + path + ")"
  }

  // ----- find -----

  /** The page registered last under a slug. */
  function PageBySlug(pages: seq<string>, slug: string): Option<string> {
    if pages == [] then None
    else if SlugOf(pages[|pages| - 1]) == slug then Some(pages[|pages| - 1])
    else PageBySlug(pages[..|pages| - 1], slug)
  }

  function TargetSlug(ref: Ref): string {
    ref.dir + "/" + ref.slug
  }

  /** The gap a reference from page `p` reveals, if any. */
  function GapOf(files: Files, pages: seq<string>, p: string, ref: Ref, title: string): (r: Option<Gap>)
    requires forall q :: q in pages ==> q in files
  {
    match PageBySlug(pages, TargetSlug(ref))
    case None => None
    case Some(target) =>
      PageBySlugIsPage(pages, TargetSlug(ref));
      if HasBacklink(files[target], Basename(p)) then None
      else Some(Gap(p, TargetSlug(ref) + ".md", ref.name, title))
  }

  lemma {:induction false} PageBySlugIsPage(pages: seq<string>, slug: string)
    ensures var r := PageBySlug(pages, slug); r.Some? ==> r.value in pages && SlugOf(r.value) == slug
  {
    if pages != [] && SlugOf(pages[|pages| - 1]) != slug {
      PageBySlugIsPage(pages[..|pages| - 1], slug);
    }
  }

  function OptionToSeq(g: Option<Gap>): seq<Gap> {
    match g
    case None => []
    case Some(gap) => [gap]
  }

  /** The gaps of one page: each target slug is looked at once. */
  function PageGaps(files: Files, pages: seq<string>, p: string, refs: seq<Ref>, seen: set<string>, title: string): seq<Gap>
    requires forall q :: q in pages ==> q in files
  {
    if refs == [] then []
    else if TargetSlug(refs[0]) in seen then PageGaps(files, pages, p, refs[1..], seen, title)
    else
      OptionToSeq(GapOf(files, pages, p, refs[0], title)) +
      PageGaps(files, pages, p, refs[1..], seen + {TargetSlug(refs[0])}, title)
  }

  /** The gaps of the pages in `sources`, in walk order. */
  function GapsFrom(files: Files, pages: seq<string>, sources: seq<string>, x: Extractors): seq<Gap>
    requires forall q :: q in pages ==> q in files
    requires forall q :: q in sources ==> q in files
  {
    if sources == [] then []
    else
      var p := sources[0];
      PageGaps(files, pages, p, x.refs(files[p]), {}, x.title(files[p])) + GapsFrom(files, pages, sources[1..], x)
  }

  function GapsOf(files: Files, pages: seq<string>, x: Extractors): seq<Gap>
    requires forall q :: q in pages ==> q in files
  {
    GapsFrom(files, pages, pages, x)
  }

  // ----- fix -----

  /** Where an entry enters a page. */
  datatype Place = BeforeSection(at: nat) | AtEnd | NewTimeline

  /**
   * Before the section that follows the first timeline heading, when that section starts before any
   * second timeline heading; at the end when there is only the timeline; in a new timeline otherwise.
   */
  function PlaceOf(content: string): (r: Place)
    ensures r.BeforeSection? ==> r.at <= |content|
  {
    match IndexOf(content, TIMELINE)
    case None => NewTimeline
    case Some(i) =>
      var after := content[i + |TIMELINE|..];
      var section := match IndexOf(after, TIMELINE) case None => after case Some(j) => after[..j];
      match IndexOf(section, "\n## ")
      case None => AtEnd
      case Some(k) =>
        BeforeSection(i + |TIMELINE| + k)
  }

  /** The following section starts with its newline. */
  lemma SectionStartsWithNewline(content: string)
    requires PlaceOf(content).BeforeSection?
    ensures PlaceOf(content).at < |content| && content[PlaceOf(content).at] == '\n'
  {
    var i := IndexOf(content, TIMELINE).value;
    var after := content[i + |TIMELINE|..];
    var section := match IndexOf(after, TIMELINE) case None => after case Some(j) => after[..j];
    OccurrenceStarts(section, "\n## ");
  }

  function InsertEntry(content: string, entry: string): string {
    match PlaceOf(content)
    case BeforeSection(at) => content[..at] + ("\n" + entry) + content[at..]
    case AtEnd => TrimEnd(content) + ("\n" + entry + "\n")
    case NewTimeline => TrimEnd(content) + ("\n\n" + TIMELINE + "\n\n" + entry + "\n")
  }

  function EntryFor(gap: Gap, today: string): string {
    var relPath := Repeat("../", CountSlashes(gap.targetPage)) + gap.sourcePage;
    BuildBacklinkEntry(gap.sourceTitle, relPath, today)
  }

  /** A gap at a time: what the batched pass amounts to. */
  function FixOne(files: Files, gap: Gap, today: string): Files {
    if gap.targetPage !in files then files
    else files[gap.targetPage := InsertEntry(files[gap.targetPage], EntryFor(gap, today))]
  }

  function FixAll(files: Files, gaps: seq<Gap>, today: string): (r: Files)
    decreases gaps
  {
    if gaps == [] then files else FixAll(FixOne(files, gaps[0], today), gaps[1..], today)
  }

  function GapsFor(gaps: seq<Gap>, target: string): seq<Gap> {
    if gaps == [] then []
    else (if gaps[0].targetPage == target then [gaps[0]] else []) + GapsFor(gaps[1..], target)
  }

  /** The gaps of one target, written into its text one after the other. */
  function FixText(content: string, gaps: seq<Gap>, today: string): string
    decreases gaps
  {
    if gaps == [] then content else FixText(InsertEntry(content, EntryFor(gaps[0], today)), gaps[1..], today)
  }

  /** How many gaps have their target among `targets`. */
  function CountWithin(gaps: seq<Gap>, targets: set<string>): nat {
    if gaps == [] then 0
    else (if gaps[0].targetPage in targets then 1 else 0) + CountWithin(gaps[1..], targets)
  }

  lemma {:induction false} CountWithinStep(gaps: seq<Gap>, targets: set<string>, t: string)
    requires t !in targets
    ensures CountWithin(gaps, targets + {t}) == CountWithin(gaps, targets) + |GapsFor(gaps, t)|
  {
    if gaps != [] {
      CountWithinStep(gaps[1..], targets, t);
    }
  }

  lemma {:induction false} CountWithinSame(gaps: seq<Gap>, a: set<string>, b: set<string>)
    requires forall g :: g in gaps ==> (g.targetPage in a <==> g.targetPage in b)
    ensures CountWithin(gaps, a) == CountWithin(gaps, b)
  {
    if gaps != [] {
      CountWithinSame(gaps[1..], a, b);
    }
  }

  lemma {:induction false} CountWithinNone(gaps: seq<Gap>)
    ensures CountWithin(gaps, {}) == 0
  {
    if gaps != [] {
      CountWithinNone(gaps[1..]);
    }
  }

  lemma {:induction false} GapsForAppend(gaps: seq<Gap>, g: Gap, t: string)
    ensures GapsFor(gaps + [g], t) == GapsFor(gaps, t) + if g.targetPage == t then [g] else []
  {
    if gaps == [] {
      assert [] + [g] == [g];
    } else {
      GapsForAppend(gaps[1..], g, t);
      assert (gaps + [g])[1..] == gaps[1..] + [g];
    }
  }

  lemma {:induction false} GapsForNone(gaps: seq<Gap>, t: string)
    requires forall g :: g in gaps ==> g.targetPage != t
    ensures GapsFor(gaps, t) == []
  {
    if gaps != [] {
      GapsForNone(gaps[1..], t);
    }
  }

  /** Batching by target changes nothing: each text gets its own gaps in order. */
  lemma {:induction false} FixAllByTarget(files: Files, gaps: seq<Gap>, today: string)
    ensures FixAll(files, gaps, today).Keys == files.Keys
    ensures forall t :: t in files ==> FixAll(files, gaps, today)[t] == FixText(files[t], GapsFor(gaps, t), today)
    decreases gaps
  {
    if gaps != [] {
      var next := FixOne(files, gaps[0], today);
      FixAllByTarget(next, gaps[1..], today);
      forall t | t in files
        ensures FixAll(files, gaps, today)[t] == FixText(files[t], GapsFor(gaps, t), today)
      {
        var mine := GapsFor(gaps, t);
        if gaps[0].targetPage == t {
          assert mine[0] == gaps[0] && mine[1..] == GapsFor(gaps[1..], t);
        } else {
          assert mine == GapsFor(gaps[1..], t);
        }
      }
    }
  }

  /** `byTarget` holds the gaps of each target in order, and `order` its keys in insertion order. */
  ghost predicate Grouped(gaps: seq<Gap>, byTarget: map<string, seq<Gap>>, order: seq<string>) {
    && (forall t :: GapsFor(gaps, t) == if t in byTarget then byTarget[t] else [])
    && (forall t :: t in order <==> t in byTarget)
    && (forall i, j :: 0 <= i < j < |order| ==> order[i] != order[j])
  }

  function Push(byTarget: map<string, seq<Gap>>, gap: Gap): map<string, seq<Gap>> {
    var existing := if gap.targetPage in byTarget then byTarget[gap.targetPage] else [];
    byTarget[gap.targetPage := existing + [gap]]
  }

  lemma GroupStep(gaps: seq<Gap>, gap: Gap, byTarget: map<string, seq<Gap>>, order: seq<string>)
    requires Grouped(gaps, byTarget, order)
    ensures Grouped(gaps + [gap], Push(byTarget, gap),
                    if gap.targetPage in byTarget then order else order + [gap.targetPage])
  {
    forall t ensures GapsFor(gaps + [gap], t) == if t in Push(byTarget, gap) then Push(byTarget, gap)[t] else [] {
      GapsForAppend(gaps, gap, t);
      assert GapsFor(gaps, t) + [] == GapsFor(gaps, t);
    }
  }

  /** Every gap has its target among the keys. */
  lemma GroupedCovers(gaps: seq<Gap>, byTarget: map<string, seq<Gap>>, order: seq<string>)
    requires Grouped(gaps, byTarget, order)
    ensures forall g :: g in gaps ==> g.targetPage in order
  {
    forall g | g in gaps ensures g.targetPage in order {
      GapsForHas(gaps, g);
    }
  }

  lemma {:induction false} GapsForHas(gaps: seq<Gap>, g: Gap)
    requires g in gaps
    ensures g in GapsFor(gaps, g.targetPage)
  {
    if gaps[0] != g {
      GapsForHas(gaps[1..], g);
    }
  }

  /** The texts once the targets in `done` are written. */
  ghost predicate Written(files: Files, now: Files, gaps: seq<Gap>, done: set<string>, today: string) {
    && now.Keys == files.Keys
    && forall t :: t in files ==>
         now[t] == if t in done then FixText(files[t], GapsFor(gaps, t), today) else files[t]
  }

  lemma WrittenAll(files: Files, now: Files, gaps: seq<Gap>, done: set<string>, today: string)
    requires Written(files, now, gaps, done, today)
    requires forall g :: g in gaps && g.targetPage in files ==> g.targetPage in done
    ensures now == FixAll(files, gaps, today)
  {
    FixAllByTarget(files, gaps, today);
    forall t | t in files && t !in done ensures GapsFor(gaps, t) == [] {
      GapsForNone(gaps, t);
    }
  }

  class BrainDir {
    var files: Files

    constructor (initial: Files)
      ensures files == initial
    {
      files := initial;
    }

    /** The lookup from slug to page; a later page replaces an earlier one. */
    method IndexBySlug(pages: seq<string>) returns (pagesBySlug: map<string, string>)
      ensures forall slug :: PageBySlug(pages, slug) ==
                             if slug in pagesBySlug then Some(pagesBySlug[slug]) else None
    {
      pagesBySlug := map[];
      for i := 0 to |pages|
        invariant forall slug :: PageBySlug(pages[..i], slug) ==
                                 if slug in pagesBySlug then Some(pagesBySlug[slug]) else None
      {
        assert pages[..i + 1][..i] == pages[..i];
        pagesBySlug := pagesBySlug[SlugOf(pages[i]) := pages[i]];
      }
      assert pages[..|pages|] == pages;
    }

    /** One turn of the loop over a page's references. */
    lemma ScanStep(pages: seq<string>, p: string, refs: seq<Ref>, k: nat, seen: set<string>, title: string, gaps: seq<Gap>)
      requires forall q :: q in pages ==> q in files
      requires k < |refs|
      ensures var t := TargetSlug(refs[k]);
              gaps + PageGaps(files, pages, p, refs[k..], seen, title) ==
              if t in seen then gaps + PageGaps(files, pages, p, refs[k + 1..], seen, title)
              else gaps + OptionToSeq(GapOf(files, pages, p, refs[k], title))
                   + PageGaps(files, pages, p, refs[k + 1..], seen + {t}, title)
    {
      assert refs[k..][1..] == refs[k + 1..];
    }

    /** The gap the loop looks up in the Map. */
    lemma ScanFinds(pages: seq<string>, pagesBySlug: map<string, string>, p: string, ref: Ref, title: string)
      requires forall q :: q in pages ==> q in files
      requires forall slug :: PageBySlug(pages, slug) ==
                              if slug in pagesBySlug then Some(pagesBySlug[slug]) else None
      ensures var t := TargetSlug(ref);
              && (t in pagesBySlug ==> pagesBySlug[t] in files)
              && OptionToSeq(GapOf(files, pages, p, ref, title)) ==
                 if t in pagesBySlug && !HasBacklink(files[pagesBySlug[t]], Basename(p)) then [Gap(p, t + ".md", ref.name, title)]
                 else []
    {
      PageBySlugIsPage(pages, TargetSlug(ref));
    }

    /** The loop over one page's references. */
    method ScanPage(pages: seq<string>, pagesBySlug: map<string, string>, p: string, refs: seq<Ref>, title: string)
      returns (gaps: seq<Gap>)
      requires forall q :: q in pages ==> q in files
      requires forall slug :: PageBySlug(pages, slug) ==
                              if slug in pagesBySlug then Some(pagesBySlug[slug]) else None
      ensures gaps == PageGaps(files, pages, p, refs, {}, title)
    {
      gaps := [];
      var seen: set<string> := {};
      for k := 0 to |refs|
        invariant gaps + PageGaps(files, pages, p, refs[k..], seen, title) == PageGaps(files, pages, p, refs, {}, title)
      {
        ScanStep(pages, p, refs, k, seen, title, gaps);
        ScanFinds(pages, pagesBySlug, p, refs[k], title);
        var targetSlug := TargetSlug(refs[k]);
        if targetSlug in seen {
          continue;
        }
        seen := seen + {targetSlug};
        if targetSlug !in pagesBySlug {
          assert gaps + [] == gaps;
          continue;
        }
        if !HasBacklink(files[pagesBySlug[targetSlug]], Basename(p)) {
          gaps := gaps + [Gap(p, targetSlug + ".md", refs[k].name, title)];
        } else {
          assert gaps + [] == gaps;
        }
      }
      assert gaps + [] == gaps;
    }

    lemma PageStep(pages: seq<string>, x: Extractors, i: nat, gaps: seq<Gap>)
      requires forall q :: q in pages ==> q in files
      requires i < |pages|
      ensures var p := pages[i];
              gaps + GapsFrom(files, pages, pages[i..], x) ==
              gaps + PageGaps(files, pages, p, x.refs(files[p]), {}, x.title(files[p]))
              + GapsFrom(files, pages, pages[i + 1..], x)
    {
      assert pages[i..][1..] == pages[i + 1..];
    }

    method FindBacklinkGaps(pages: seq<string>, x: Extractors) returns (gaps: seq<Gap>)
      requires forall q :: q in pages ==> q in files
      ensures gaps == GapsOf(files, pages, x)
    {
      var pagesBySlug := IndexBySlug(pages);
      gaps := [];
      for i := 0 to |pages|
        invariant gaps + GapsFrom(files, pages, pages[i..], x) == GapsOf(files, pages, x)
      {
        var p := pages[i];
        var found := ScanPage(pages, pagesBySlug, p, x.refs(files[p]), x.title(files[p]));
        PageStep(pages, x, i, gaps);
        gaps := gaps + found;
      }
      assert gaps + [] == gaps;
    }

    /** Groups gaps by target, in one pass. */
    method GroupByTarget(gaps: seq<Gap>) returns (byTarget: map<string, seq<Gap>>, order: seq<string>)
      ensures Grouped(gaps, byTarget, order)
    {
      byTarget, order := map[], [];
      for i := 0 to |gaps|
        invariant Grouped(gaps[..i], byTarget, order)
      {
        var gap := gaps[i];
        assert gaps[..i + 1] == gaps[..i] + [gap];
        GroupStep(gaps[..i], gap, byTarget, order);
        if gap.targetPage !in byTarget {
          order := order + [gap.targetPage];
        }
        byTarget := Push(byTarget, gap);
      }
      assert gaps[..|gaps|] == gaps;
    }

    method RewriteText(content: string, gaps: seq<Gap>, today: string) returns (fixedText: string)
      ensures fixedText == FixText(content, gaps, today)
    {
      fixedText := content;
      for k := 0 to |gaps|
        invariant FixText(fixedText, gaps[k..], today) == FixText(content, gaps, today)
      {
        assert gaps[k..][1..] == gaps[k + 1..];
        fixedText := InsertEntry(fixedText, EntryFor(gaps[k], today));
      }
    }

    method FixBacklinkGaps(gaps: seq<Gap>, dryRun: bool, today: string) returns (fixed: nat)
      modifies this
      ensures files == if dryRun then old(files) else FixAll(old(files), gaps, today)
      ensures fixed == CountWithin(gaps, old(files).Keys)
    {
      fixed := 0;
      var byTarget, order := GroupByTarget(gaps);
      GroupedCovers(gaps, byTarget, order);
      ghost var done: set<string> := {};
      CountWithinNone(gaps);
      for i := 0 to |order|
        invariant done <= old(files).Keys
        invariant forall j :: 0 <= j < i && order[j] in old(files) ==> order[j] in done
        invariant forall j :: i <= j < |order| ==> order[j] !in done
        invariant fixed == CountWithin(gaps, done)
        invariant if dryRun then files == old(files) else Written(old(files), files, gaps, done, today)
      {
        var targetPage := order[i];
        if targetPage in files {
          CountWithinStep(gaps, done, targetPage);
          var content := RewriteText(files[targetPage], byTarget[targetPage], today);
          fixed := fixed + |byTarget[targetPage]|;
          if !dryRun {
            files := files[targetPage := content];
          }
          done := done + {targetPage};
        }
      }
      assert forall g :: g in gaps && g.targetPage in old(files) ==> g.targetPage in done;
      CountWithinSame(gaps, done, old(files).Keys);
      if !dryRun {
        WrittenAll(old(files), files, gaps, done, today);
      }
    }
  }
}
