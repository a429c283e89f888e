/** The fail-closed E2E test selector (scripts/select-e2e.ts). */
module Selector {
  import opened Common
  import opened Glob
  import Order

  const DOC_ROOT_FILES: set<string> :=
    {"README.md", "CLAUDE.md", "AGENTS.md", "CHANGELOG.md", "TODOS.md", "LICENSE", "VERSION"}

  const ESCAPE_HATCH_FILES: set<string> := {
    "src/schema.sql", "src/core/migrate.ts", "src/core/db.ts", "src/core/engine-factory.ts",
    "src/core/operations.ts", "package.json", "bun.lock", "Dockerfile.ci", "docker-compose.ci.yml",
    "scripts/ci-local.sh", "scripts/run-e2e.sh", "scripts/select-e2e.ts", "scripts/e2e-test-map.ts",
    "test/e2e/helpers.ts"
  }

  const ESCAPE_HATCH_PREFIXES: seq<string> :=
    ["src/commands/migrations/", "test/e2e/fixtures/", "skills/", ".github/workflows/"]

  predicate EndsWith(s: string, suffix: string) {
    |suffix| <= |s| && s[|s| - |suffix|..] == suffix
  }

  predicate IsDocPath(p: string) {
    p in DOC_ROOT_FILES || ('/' !in p && EndsWith(p, ".md")) || "docs/" <= p
  }

  predicate IsEscapeHatch(p: string) {
    p in ESCAPE_HATCH_FILES || exists i :: 0 <= i < |ESCAPE_HATCH_PREFIXES| && ESCAPE_HATCH_PREFIXES[i] <= p
  }

  predicate IsTestFile(p: string) {
    "test/e2e/" <= p && EndsWith(p, ".test.ts")
  }

  datatype Classification = EMPTY | DOC_ONLY | SRC

  /** One entry of the map from globs to tests; the entries come in object order. */
  datatype MapEntry = MapEntry(glob: string, tests: seq<string>)

  type Selection = Result<seq<string>, GlobError>

  // ----- the loops -----

  method Classify(changedFiles: seq<string>) returns (c: Classification)
    ensures c == ClassOf(changedFiles)
  {
    if changedFiles == [] {
      return EMPTY;
    }
    for i := 0 to |changedFiles|
      invariant forall j :: 0 <= j < i ==> IsDocPath(changedFiles[j])
    {
      if !IsDocPath(changedFiles[i]) {
        return SRC;
      }
    }
    return DOC_ONLY;
  }

  /** Adding to a JavaScript Set keeps the insertion order. */
  function Add(s: seq<string>, x: string): seq<string> {
    if x in s then s else s + [x]
  }

  function AddAll(s: seq<string>, xs: seq<string>): seq<string>
    decreases xs
  {
    if xs == [] then s else AddAll(Add(s, xs[0]), xs[1..])
  }

  method SelectTests(changedFiles: seq<string>, allE2ETests: seq<string>, map_: seq<MapEntry>)
    returns (r: Selection)
    ensures r == SelectionOf(changedFiles, allE2ETests, map_)
  {
    var cls := Classify(changedFiles);
    var allSorted := Order.Sort(Order.StringLe, allE2ETests);
    if cls == EMPTY {
      return Ok(allSorted);
    }
    if cls == DOC_ONLY {
      return Ok([]);
    }
    for i := 0 to |changedFiles|
      invariant forall j :: 0 <= j < i ==> !IsEscapeHatch(changedFiles[j])
    {
      if IsEscapeHatch(changedFiles[i]) {
        return Ok(allSorted);
      }
    }
    var result: seq<string> := [];
    for i := 0 to |changedFiles|
      invariant Gather(result, changedFiles[i..], map_) == Gather([], changedFiles, map_)
    {
      var f := changedFiles[i];
      assert changedFiles[i..][1..] == changedFiles[i + 1..];
      if IsDocPath(f) {
        continue;
      }
      if IsTestFile(f) {
        result := Add(result, f);
        continue;
      }
      var grown := GatherFromMap(result, f, map_);
      if grown.Err? {
        return Err(grown.error);
      }
      result := grown.value;
    }
    if result == [] {
      return Ok(allSorted);
    }
    return Ok(Order.Sort(Order.StringLe, result));
  }

  /** The inner loop: the tests of every entry whose glob matches `f`. */
  method GatherFromMap(result: seq<string>, f: string, map_: seq<MapEntry>) returns (r: Selection)
    ensures r == GatherEntries(result, f, map_)
  {
    var grown := result;
    for k := 0 to |map_|
      invariant GatherEntries(grown, f, map_[k..]) == GatherEntries(result, f, map_)
    {
      assert map_[k..][1..] == map_[k + 1..];
      var m := MatchGlob(map_[k].glob, f);
      if m.Err? {
        return Err(m.error);
      }
      if m.value {
        grown := AddAll(grown, map_[k].tests);
      }
    }
    return Ok(grown);
  }

  // ----- the same, as functions -----

  function ClassOf(changedFiles: seq<string>): Classification {
    if changedFiles == [] then EMPTY
    else if exists i :: 0 <= i < |changedFiles| && !IsDocPath(changedFiles[i]) then SRC
    else DOC_ONLY
  }

  function GatherEntries(result: seq<string>, f: string, map_: seq<MapEntry>): Selection
    decreases map_
  {
    if map_ == [] then Ok(result)
    else
      var m := MatchResult(map_[0].glob, f);
      if m.Err? then Err(m.error)
      else GatherEntries(if m.value then AddAll(result, map_[0].tests) else result, f, map_[1..])
  }

  function GatherFile(result: seq<string>, f: string, map_: seq<MapEntry>): Selection {
    if IsDocPath(f) then Ok(result)
    else if IsTestFile(f) then Ok(Add(result, f))
    else GatherEntries(result, f, map_)
  }

  function Gather(result: seq<string>, changedFiles: seq<string>, map_: seq<MapEntry>): Selection
    decreases changedFiles
  {
    if changedFiles == [] then Ok(result)
    else
      var grown := GatherFile(result, changedFiles[0], map_);
      if grown.Err? then grown else Gather(grown.value, changedFiles[1..], map_)
  }

  predicate AnyEscapeHatch(changedFiles: seq<string>) {
    exists i :: 0 <= i < |changedFiles| && IsEscapeHatch(changedFiles[i])
  }

  function SelectionOf(changedFiles: seq<string>, allE2ETests: seq<string>, map_: seq<MapEntry>): Selection {
    var allSorted := Order.Sort(Order.StringLe, allE2ETests);
    match ClassOf(changedFiles)
    case EMPTY => Ok(allSorted)
    case DOC_ONLY => Ok([])
    case SRC =>
      if AnyEscapeHatch(changedFiles) then Ok(allSorted)
      else
        var result := Gather([], changedFiles, map_);
        if result.Err? then result
        else if result.value == [] then Ok(allSorted)
        else Ok(Order.Sort(Order.StringLe, result.value))
  }

  // ----- which tests a changed file asks for -----

  /** Some entry of the map whose glob matches `f` holds `t`. */
  ghost predicate MatchedTest(f: string, map_: seq<MapEntry>, t: string) {
    exists k :: 0 <= k < |map_| && MatchResult(map_[k].glob, f) == Ok(true) && t in map_[k].tests
  }

  /** `t` is asked for by the change of `f`. */
  ghost predicate AsksFor(f: string, map_: seq<MapEntry>, t: string) {
    !IsDocPath(f) &&
    if IsTestFile(f) then t == f
    else MatchedTest(f, map_, t)
  }

  ghost predicate AskedFor(changedFiles: seq<string>, map_: seq<MapEntry>, t: string) {
    exists i :: 0 <= i < |changedFiles| && AsksFor(changedFiles[i], map_, t)
  }

  /** The map is consulted for `f`. */
  predicate Consults(f: string) {
    !IsDocPath(f) && !IsTestFile(f)
  }

  /** The first entry whose glob is rejected. */
  function FirstBad(map_: seq<MapEntry>): (r: Option<GlobError>)
    ensures r.None? <==> forall e :: e in map_ ==> IsSupported(e.glob)
  {
    if map_ == [] then None
    else
      assert map_ == [map_[0]] + map_[1..];
      if !IsSupported(map_[0].glob) then Some(UnsupportedGlob(map_[0].glob)) else FirstBad(map_[1..])
  }

  lemma {:induction false} AddAllSpec(s: seq<string>, xs: seq<string>)
    requires Order.Distinct(s)
    ensures Order.Distinct(AddAll(s, xs))
    ensures forall x :: x in AddAll(s, xs) <==> x in s || x in xs
    decreases xs
  {
    if xs != [] {
      AddAllSpec(Add(s, xs[0]), xs[1..]);
      assert xs == [xs[0]] + xs[1..];
    }
  }

  lemma MatchedTestStep(f: string, map_: seq<MapEntry>, t: string)
    requires map_ != []
    ensures MatchedTest(f, map_, t) <==>
            (MatchResult(map_[0].glob, f) == Ok(true) && t in map_[0].tests) || MatchedTest(f, map_[1..], t)
  {
  }

  lemma {:induction false} GatherEntriesSpec(result: seq<string>, f: string, map_: seq<MapEntry>)
    requires Order.Distinct(result)
    ensures var r := GatherEntries(result, f, map_);
            match FirstBad(map_)
            case Some(e) => r == Err(e)
            case None => r.Ok? && Order.Distinct(r.value) && forall t :: t in r.value <==> t in result || MatchedTest(f, map_, t)
    decreases map_
  {
    if map_ != [] && IsSupported(map_[0].glob) {
      AddAllSpec(result, map_[0].tests);
      var grown := if MatchResult(map_[0].glob, f).value then AddAll(result, map_[0].tests) else result;
      GatherEntriesSpec(grown, f, map_[1..]);
      forall t ensures MatchedTest(f, map_, t) <==>
        (MatchResult(map_[0].glob, f) == Ok(true) && t in map_[0].tests) || MatchedTest(f, map_[1..], t)
      {
        MatchedTestStep(f, map_, t);
      }
    }
  }

  lemma GatherFileSpec(result: seq<string>, f: string, map_: seq<MapEntry>)
    requires Order.Distinct(result)
    ensures var r := GatherFile(result, f, map_);
            if Consults(f) && FirstBad(map_).Some? then r == Err(FirstBad(map_).value)
            else r.Ok? && Order.Distinct(r.value) && forall t :: t in r.value <==> t in result || AsksFor(f, map_, t)
  {
    GatherEntriesSpec(result, f, map_);
    if Consults(f) {
      forall t ensures AsksFor(f, map_, t) <==> MatchedTest(f, map_, t) {
      }
    }
  }

  ghost predicate AnyConsults(changedFiles: seq<string>) {
    exists i :: 0 <= i < |changedFiles| && Consults(changedFiles[i])
  }

  lemma AskedForStep(changedFiles: seq<string>, map_: seq<MapEntry>, t: string)
    requires changedFiles != []
    ensures AskedFor(changedFiles, map_, t) <==>
            AsksFor(changedFiles[0], map_, t) || AskedFor(changedFiles[1..], map_, t)
  {
  }

  lemma AnyConsultsStep(changedFiles: seq<string>)
    requires changedFiles != []
    ensures AnyConsults(changedFiles) <==> Consults(changedFiles[0]) || AnyConsults(changedFiles[1..])
  {
  }

  /** The gathered tests are exactly those asked for, each once; only a bad map entry that is consulted fails. */
  lemma {:induction false} GatherSpec(result: seq<string>, changedFiles: seq<string>, map_: seq<MapEntry>)
    requires Order.Distinct(result)
    ensures var r := Gather(result, changedFiles, map_);
            if AnyConsults(changedFiles) && FirstBad(map_).Some? then r == Err(FirstBad(map_).value)
            else r.Ok? && Order.Distinct(r.value) && forall t :: t in r.value <==> t in result || AskedFor(changedFiles, map_, t)
    decreases changedFiles
  {
    if changedFiles != [] {
      GatherFileSpec(result, changedFiles[0], map_);
      AnyConsultsStep(changedFiles);
      var grown := GatherFile(result, changedFiles[0], map_);
      if grown.Ok? {
        GatherSpec(grown.value, changedFiles[1..], map_);
        forall t ensures AskedFor(changedFiles, map_, t) <==>
          AsksFor(changedFiles[0], map_, t) || AskedFor(changedFiles[1..], map_, t)
        {
          AskedForStep(changedFiles, map_, t);
        }
      }
    }
  }

  // ----- main results -----

  ghost predicate SameFiles(a: seq<string>, b: seq<string>) {
    forall f :: f in a <==> f in b
  }

  lemma {:induction false} DistinctCount(s: seq<string>, x: string)
    requires Order.Distinct(s)
    ensures multiset(s)[x] == if x in s then 1 else 0
  {
    if s != [] {
      DistinctCount(s[1..], x);
      assert s == [s[0]] + s[1..];
    }
  }

  /** Two listings of the same set sort the same. */
  lemma DistinctSortSame(a: seq<string>, b: seq<string>)
    requires Order.Distinct(a) && Order.Distinct(b) && SameFiles(a, b)
    ensures Order.Sort(Order.StringLe, a) == Order.Sort(Order.StringLe, b)
  {
    forall x ensures multiset(a)[x] == multiset(b)[x] {
      DistinctCount(a, x);
      DistinctCount(b, x);
    }
    Order.StringLeIsTotalOrder();
    Order.SortPermutation(Order.StringLe, a, b);
  }

  /** What is selected for a source change, test by test. */
  lemma SelectedTests(changedFiles: seq<string>, allE2ETests: seq<string>, map_: seq<MapEntry>)
    requires ClassOf(changedFiles) == SRC
    ensures var r := SelectionOf(changedFiles, allE2ETests, map_);
            var all := Order.Sort(Order.StringLe, allE2ETests);
            if AnyEscapeHatch(changedFiles) then r == Ok(all)
            else if AnyConsults(changedFiles) && FirstBad(map_).Some? then r == Err(FirstBad(map_).value)
            else if exists t :: AskedFor(changedFiles, map_, t) then
              r.Ok? && r.value != [] && Order.Sorted(Order.StringLe, r.value) &&
              forall t :: t in r.value <==> AskedFor(changedFiles, map_, t)
            else r == Ok(all)
  {
    GatherSpec([], changedFiles, map_);
    var result := Gather([], changedFiles, map_);
    if result.Ok? {
      Order.StringLeIsTotalOrder();
      Order.SortSorted(Order.StringLe, result.value);
      Order.SortElements(Order.StringLe, result.value);
      if result.value == [] {
        assert forall t :: t !in result.value;
      } else {
        assert result.value[0] in result.value;
        assert AskedFor(changedFiles, map_, result.value[0]);
      }
    }
  }

  /** Fail-closed: unless every change is a document, some test is selected whenever there is one. */
  lemma FailClosed(changedFiles: seq<string>, allE2ETests: seq<string>, map_: seq<MapEntry>)
    requires ClassOf(changedFiles) != DOC_ONLY && allE2ETests != []
    ensures var r := SelectionOf(changedFiles, allE2ETests, map_); r.Ok? ==> r.value != []
  {
  }

  lemma SameFilesSameQuestions(a: seq<string>, b: seq<string>, map_: seq<MapEntry>)
    requires SameFiles(a, b)
    ensures ClassOf(a) == ClassOf(b)
    ensures AnyEscapeHatch(a) <==> AnyEscapeHatch(b)
    ensures AnyConsults(a) <==> AnyConsults(b)
    ensures forall t :: AskedFor(a, map_, t) <==> AskedFor(b, map_, t)
  {
    Asks(a, b, map_);
    Asks(b, a, map_);
  }

  /** Every question about `a` that one of its files answers is answered by `b` too. */
  lemma Asks(a: seq<string>, b: seq<string>, map_: seq<MapEntry>)
    requires forall f :: f in a ==> f in b
    ensures a != [] ==> b != []
    ensures ClassOf(a) == SRC ==> ClassOf(b) == SRC
    ensures AnyEscapeHatch(a) ==> AnyEscapeHatch(b)
    ensures AnyConsults(a) ==> AnyConsults(b)
    ensures forall t :: AskedFor(a, map_, t) ==> AskedFor(b, map_, t)
  {
    forall i | 0 <= i < |a| ensures a[i] in b {
      assert a[i] in a;
    }
    assert a != [] ==> a[0] in b;
    forall t | AskedFor(a, map_, t) ensures AskedFor(b, map_, t) {
      var i :| 0 <= i < |a| && AsksFor(a[i], map_, t);
      var j :| 0 <= j < |b| && b[j] == a[i];
    }
  }

  /** The order and repetition of changed files do not matter. */
  lemma OrderAndRepetitionIrrelevant(a: seq<string>, b: seq<string>, allE2ETests: seq<string>, map_: seq<MapEntry>)
    requires SameFiles(a, b)
    ensures SelectionOf(a, allE2ETests, map_) == SelectionOf(b, allE2ETests, map_)
  {
    SameFilesSameQuestions(a, b, map_);
    SameQuestionsSameSelection(a, b, allE2ETests, map_);
  }

  lemma SameQuestionsSameSelection(a: seq<string>, b: seq<string>, allE2ETests: seq<string>, map_: seq<MapEntry>)
    requires ClassOf(a) == ClassOf(b)
    requires AnyEscapeHatch(a) <==> AnyEscapeHatch(b)
    requires AnyConsults(a) <==> AnyConsults(b)
    requires forall t :: AskedFor(a, map_, t) <==> AskedFor(b, map_, t)
    ensures SelectionOf(a, allE2ETests, map_) == SelectionOf(b, allE2ETests, map_)
  {
    GatherSpec([], a, map_);
    GatherSpec([], b, map_);
    var ra, rb := Gather([], a, map_), Gather([], b, map_);
    if ra.Ok? && rb.Ok? {
      assert SameFiles(ra.value, rb.value);
      DistinctSortSame(ra.value, rb.value);
      assert ra.value == [] <==> rb.value == [] by {
        assert ra.value != [] ==> ra.value[0] in rb.value;
        assert rb.value != [] ==> rb.value[0] in ra.value;
      }
    }
  }

  /** How escape hatches are spelled: enough to tell them from documents. */
  lemma EscapeHatchSpelling(p: string)
    requires IsEscapeHatch(p)
    ensures |p| > 3 && (p[0] == 'd' ==> p[3] == 'k')
    ensures p[0] == 's' || p[0] == 'p' || p[0] == 'b' || p[0] == 'D' || p[0] == 'd' || p[0] == 't' || p[0] == '.'
    ensures '/' in p || p[|p| - 1] != 'd'
  {
    if p in ESCAPE_HATCH_FILES {
      if p != "package.json" && p != "bun.lock" && p != "Dockerfile.ci" && p != "docker-compose.ci.yml" {
        assert p[3] == '/' || p[4] == '/' || p[7] == '/';
      }
    } else {
      var i :| 0 <= i < |ESCAPE_HATCH_PREFIXES| && ESCAPE_HATCH_PREFIXES[i] <= p;
      var prefix := ESCAPE_HATCH_PREFIXES[i];
      assert prefix[|prefix| - 1] == '/' && p[|prefix| - 1] == '/';
    }
  }

  lemma DocSpelling(p: string)
    requires IsDocPath(p) && |p| > 3
    ensures || p[0] == 'R' || p[0] == 'C' || p[0] == 'A' || p[0] == 'T' || p[0] == 'L' || p[0] == 'V'
            || ('/' !in p && p[|p| - 1] == 'd')
            || (p[0] == 'd' && p[3] == 's')
  {
  }

  /** No document is an escape hatch. */
  lemma DocIsNoEscapeHatch(p: string)
    requires IsDocPath(p)
    ensures !IsEscapeHatch(p)
  {
    if IsEscapeHatch(p) {
      EscapeHatchSpelling(p);
      DocSpelling(p);
    }
  }

  /** Adding documents to a source change selects the same tests. */
  lemma DocsChangeNothing(changedFiles: seq<string>, docs: seq<string>, allE2ETests: seq<string>, map_: seq<MapEntry>)
    requires ClassOf(changedFiles) == SRC
    requires forall i :: 0 <= i < |docs| ==> IsDocPath(docs[i])
    ensures SelectionOf(changedFiles + docs, allE2ETests, map_) == SelectionOf(changedFiles, allE2ETests, map_)
  {
    var both := changedFiles + docs;
    Asks(changedFiles, both, map_);
    forall i | 0 <= i < |docs| ensures !IsEscapeHatch(docs[i]) {
      DocIsNoEscapeHatch(docs[i]);
    }
    forall i | |changedFiles| <= i < |both| ensures both[i] == docs[i - |changedFiles|] {
    }
    assert AnyEscapeHatch(both) ==> AnyEscapeHatch(changedFiles);
    assert AnyConsults(both) ==> AnyConsults(changedFiles);
    assert forall t :: AskedFor(both, map_, t) ==> AskedFor(changedFiles, map_, t);
    SameQuestionsSameSelection(both, changedFiles, allE2ETests, map_);
  }

  /**
   * The header's claim that an unmapped source change emits every test, exactly: with no escape hatch,
   * every test is emitted if and only if the change set as a whole asks for no test, or for all of them.
   */
  lemma EmitsAllExactly(changedFiles: seq<string>, allE2ETests: seq<string>, map_: seq<MapEntry>)
    requires ClassOf(changedFiles) == SRC && !AnyEscapeHatch(changedFiles)
    requires FirstBad(map_).None? && Order.Distinct(allE2ETests)
    ensures SelectionOf(changedFiles, allE2ETests, map_) == Ok(Order.Sort(Order.StringLe, allE2ETests)) <==>
            || (forall t :: !AskedFor(changedFiles, map_, t))
            || (forall t :: t in allE2ETests <==> AskedFor(changedFiles, map_, t))
  {
    SelectedTests(changedFiles, allE2ETests, map_);
    Order.SortElements(Order.StringLe, allE2ETests);
    GatherSpec([], changedFiles, map_);
    var gathered := Gather([], changedFiles, map_).value;
    if forall t :: t in allE2ETests <==> AskedFor(changedFiles, map_, t) {
      DistinctSortSame(gathered, allE2ETests);
    }
  }

  /** A source file that no map entry asks anything for. */
  lemma UnmappedAlone(n: string)
    requires !IsDocPath(n) && !IsEscapeHatch(n) && !IsTestFile(n)
    ensures ClassOf([n]) == SRC && !AnyEscapeHatch([n]) && Gather([], [n], []) == Ok([])
  {
    var one: seq<string> := [n];
    assert one[1..] == [] && !IsDocPath(one[0]);
    assert GatherFile([], n, []) == Ok([]);
  }

  lemma UnmappedWithTest(n: string, a: string)
    requires !IsDocPath(n) && !IsEscapeHatch(n) && !IsTestFile(n)
    requires !IsDocPath(a) && !IsEscapeHatch(a) && IsTestFile(a)
    ensures ClassOf([n, a]) == SRC && !AnyEscapeHatch([n, a]) && Gather([], [n, a], []) == Ok([a])
  {
    var two, one, none: seq<string> := [n, a], [a], [];
    assert two[1..] == one && one[1..] == none && !IsDocPath(two[0]);
    assert Add([], a) == one;
    assert GatherFile([], n, []) == Ok([]) && GatherFile([], a, []) == Ok(one);
    assert Gather(one, none, []) == Ok(one) && Gather([], one, []) == Ok(one);
  }

  /** The claim fails for a mixed change set: `src/new.ts` is mapped to nothing, yet `b` is not selected. */
  lemma MixedChangeSetNarrows(b: string)
    ensures var a := "test/e2e/a.test.ts";
            && SelectionOf(["src/new.ts"], [a, b], []) == Ok(Order.Sort(Order.StringLe, [a, b]))
            && SelectionOf(["src/new.ts", a], [a, b], []) == Ok([a])
  {
    var n, a := "src/new.ts", "test/e2e/a.test.ts";
    PlainSource(n);
    PlainSource(a);
    NewIsNoTest(n, a);
    UnmappedAlone(n);
    UnmappedWithTest(n, a);
    assert Order.Sort(Order.StringLe, [a]) == [a];
  }

  lemma NewIsNoTest(n: string, a: string)
    requires n == "src/new.ts" && a == "test/e2e/a.test.ts"
    ensures !IsTestFile(n) && IsTestFile(a)
  {
    assert n[0] == 's' && a[0] == 't';
    assert a[9..] == "a.test.ts" && a[|a| - 8..] == ".test.ts";
  }

  lemma PlainSource(p: string)
    requires p == "src/new.ts" || p == "test/e2e/a.test.ts"
    ensures !IsDocPath(p) && !IsEscapeHatch(p)
  {
    assert p[3] == '/' || p[4] == '/';
    forall i | 0 <= i < |ESCAPE_HATCH_PREFIXES| ensures !(ESCAPE_HATCH_PREFIXES[i] <= p) {
      var prefix := ESCAPE_HATCH_PREFIXES[i];
      assert prefix[0] != p[0] || prefix[1] != p[1] || prefix[4] != p[4] || prefix[9] != p[9];
    }
    assert p !in ESCAPE_HATCH_FILES;
  }

  // ----- which paths do what -----

  lemma HatchRunsAll(f: string, changedFiles: seq<string>, allE2ETests: seq<string>, map_: seq<MapEntry>)
    requires IsEscapeHatch(f) && f in changedFiles
    ensures SelectionOf(changedFiles, allE2ETests, map_) == Ok(Order.Sort(Order.StringLe, allE2ETests))
  {
    var i :| 0 <= i < |changedFiles| && changedFiles[i] == f;
    if IsDocPath(f) {
      DocIsNoEscapeHatch(f);
    }
    assert IsEscapeHatch(changedFiles[i]) && !IsDocPath(changedFiles[i]);
  }

  /** A change under one of the four trees, whatever its name, runs every test, whatever else changed. */
  lemma TreeRunsAll(tree: string, name: string, changedFiles: seq<string>, allE2ETests: seq<string>, map_: seq<MapEntry>)
    requires tree == "skills/" || tree == ".github/workflows/" || tree == "src/commands/migrations/" || tree == "test/e2e/fixtures/"
    requires tree + name in changedFiles
    ensures SelectionOf(changedFiles, allE2ETests, map_) == Ok(Order.Sort(Order.StringLe, allE2ETests))
  {
    var i := if tree == "src/commands/migrations/" then 0 else if tree == "test/e2e/fixtures/" then 1
             else if tree == "skills/" then 2 else 3;
    assert ESCAPE_HATCH_PREFIXES[i] == tree <= tree + name;
    HatchRunsAll(tree + name, changedFiles, allE2ETests, map_);
  }

  /** So does a change of the schema, the core of the database, the manifests, the container files or the test harness. */
  lemma SharedFileRunsAll(f: string, changedFiles: seq<string>, allE2ETests: seq<string>, map_: seq<MapEntry>)
    requires || f == "src/schema.sql" || f == "src/core/migrate.ts" || f == "src/core/db.ts"
             || f == "src/core/engine-factory.ts" || f == "src/core/operations.ts"
             || f == "package.json" || f == "bun.lock" || f == "Dockerfile.ci" || f == "docker-compose.ci.yml"
             || f == "scripts/ci-local.sh" || f == "scripts/run-e2e.sh" || f == "scripts/select-e2e.ts"
             || f == "scripts/e2e-test-map.ts" || f == "test/e2e/helpers.ts"
    requires f in changedFiles
    ensures SelectionOf(changedFiles, allE2ETests, map_) == Ok(Order.Sort(Order.StringLe, allE2ETests))
  {
    HatchRunsAll(f, changedFiles, allE2ETests, map_);
  }

  /** With no change at all every test runs. */
  lemma NoChangeRunsAll(allE2ETests: seq<string>, map_: seq<MapEntry>)
    ensures SelectionOf([], allE2ETests, map_) == Ok(Order.Sort(Order.StringLe, allE2ETests))
  {
  }

  predicate IsPage(f: string) {
    "docs/" <= f || ('/' !in f && |f| >= 3 && f[|f| - 3..] == ".md") || f == "LICENSE" || f == "VERSION"
  }

  lemma PageIsDoc(f: string)
    requires IsPage(f)
    ensures IsDocPath(f)
  {
  }

  /** A change set of pages under `docs/`, Markdown files at the root, the license and the version file runs nothing. */
  lemma PagesRunNothing(changedFiles: seq<string>, allE2ETests: seq<string>, map_: seq<MapEntry>)
    requires changedFiles != []
    requires forall f :: f in changedFiles ==> IsPage(f)
    ensures SelectionOf(changedFiles, allE2ETests, map_) == Ok([])
  {
    forall i | 0 <= i < |changedFiles| ensures IsDocPath(changedFiles[i]) {
      assert changedFiles[i] in changedFiles;
      PageIsDoc(changedFiles[i]);
    }
  }

  /** A changed test is selected itself, unless everything is. */
  lemma ChangedTestIsSelected(t: string, changedFiles: seq<string>, allE2ETests: seq<string>, map_: seq<MapEntry>)
    requires t in changedFiles && "test/e2e/" <= t && |t| >= 8 && t[|t| - 8..] == ".test.ts"
    requires !AnyEscapeHatch(changedFiles) && FirstBad(map_).None?
    ensures var r := SelectionOf(changedFiles, allE2ETests, map_); r.Ok? && t in r.value
  {
    var i :| 0 <= i < |changedFiles| && changedFiles[i] == t;
    assert t[0] == 't' && t[4] == '/';
    assert !IsDocPath(changedFiles[i]) && IsTestFile(t);
    assert AsksFor(changedFiles[i], map_, t);
    assert AskedFor(changedFiles, map_, t);
    SelectedTests(changedFiles, allE2ETests, map_);
  }
}
