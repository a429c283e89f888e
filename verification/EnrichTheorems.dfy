/** What the enrich checkpoint is worth: how much a crash can lose, and what the counters say. */
module EnrichTheorems {
  import opened Common
  import opened Enrich
  import opened EnrichMachine
  import opened Iteration
  import Order

  // ----- candidates -----

  predicate AllNew(s: seq<string>, done: set<string>) {
    forall i :: 0 <= i < |s| ==> s[i] !in done
  }

  lemma {:induction false} UnfinishedSpec(candidates: seq<string>, done: set<string>)
    ensures var u := Unfinished(candidates, done);
            && (forall p :: p in u <==> p in candidates && p !in done)
            && (Order.Distinct(candidates) ==> Order.Distinct(u))
  {
    if candidates != [] {
      UnfinishedSpec(candidates[1..], done);
      assert candidates == [candidates[0]] + candidates[1..];
      if Order.Distinct(candidates) {
        assert candidates[0] !in candidates[1..];
      }
    }
  }

  lemma ClaimedSpec(candidates: seq<string>, done: set<string>, abort: Option<nat>)
    requires Order.Distinct(candidates)
    ensures var c := Claimed(Unfinished(candidates, done), abort); Order.Distinct(c) && AllNew(c, done)
  {
    UnfinishedSpec(candidates, done);
  }

  // ----- the invariant of one session -----

  predicate Grows(m: Machine, x: Setting) {
    m.left != [] && Completes(x.world(m.left[0]), x.dryRun)
  }

  /** The page whose work is durable while memory does not know it yet. */
  function InFlight(m: Machine, x: Setting): set<string> {
    if m.stage.Worked? && Grows(m, x) then {m.left[0]} else {}
  }

  /** How far memory may run ahead of the last attempt to write it down. */
  function Slack(m: Machine, x: Setting): nat {
    if (m.stage.Kept? || m.stage.Writing?) && Grows(m, x) then 25 else 24
  }

  /** Pages still to come are new; the one in hand is new until it is noted. */
  predicate LeftIsNew(m: Machine) {
    && Order.Distinct(m.left)
    && (m.stage.Ready? || m.stage.Worked? ==> AllNew(m.left, m.run.done))
    && (m.stage.Kept? || m.stage.Writing? ==> m.left != [] && AllNew(m.left[1..], m.run.done))
    && (m.stage.Worked? ==> m.left != [])
  }

  predicate Nested(m: Machine, x: Setting) {
    m.run.stored <= m.run.done <= m.completed && InFlight(m, x) <= m.completed
  }

  predicate KeepsUp(m: Machine, x: Setting) {
    && (if m.stage.Writing? then m.run.lastFlush == |m.run.done| else m.run.lastFlush <= |m.run.stored| + 25 * m.since)
    && |m.run.done| <= |m.run.stored| + 25 * m.since + Slack(m, x)
    && (x.dryRun ==> m.run.done == m.run.stored && !m.stage.Writing? && !m.stage.Closing?)
  }

  /** Completed pages that neither memory nor the page in hand accounts for were lost by earlier crashes and failures. */
  predicate Accounted(m: Machine, x: Setting, debt: int) {
    && m.since <= m.failed
    && m.again + |m.completed - m.run.done - InFlight(m, x)| <= debt + 25 * (m.failed - m.since)
  }

  predicate Settled(m: Machine, debt: int) {
    && m.run.stored <= m.completed
    && m.again + |m.completed - m.run.stored| <= debt + 25 * m.failed
  }

  predicate Inv(m: Machine, x: Setting, debt: int) {
    if m.stage.Over? || m.stage.Clearing? then Settled(m, debt)
    else LeftIsNew(m) && Nested(m, x) && KeepsUp(m, x) && Accounted(m, x, debt)
  }

  lemma ClaimKeeps(m: Machine, x: Setting, abort: Option<nat>, debt: int)
    requires m.stage.Ready? && m.left != [] && Inv(m, x, debt)
    ensures Inv(Step(m, x, abort), x, debt)
  {
  }

  lemma NoteLeavesNew(m: Machine, x: Setting, abort: Option<nat>)
    requires m.stage.Worked? && LeftIsNew(m)
    ensures LeftIsNew(Step(m, x, abort))
  {
  }

  lemma NoteKeepsUp(m: Machine, x: Setting, abort: Option<nat>)
    requires m.stage.Worked? && m.left != [] && KeepsUp(m, x) && Nested(m, x)
    ensures KeepsUp(Step(m, x, abort), x) && Nested(Step(m, x, abort), x)
  {
  }

  lemma NoteAccounts(m: Machine, x: Setting, abort: Option<nat>, debt: int)
    requires m.stage.Worked? && m.left != [] && Accounted(m, x, debt)
    ensures Accounted(Step(m, x, abort), x, debt)
  {
    var next := Step(m, x, abort);
    assert next.completed - next.run.done - InFlight(next, x) == m.completed - m.run.done - InFlight(m, x);
  }

  lemma NoteKeeps(m: Machine, x: Setting, abort: Option<nat>, debt: int)
    requires m.stage.Worked? && Inv(m, x, debt)
    ensures Inv(Step(m, x, abort), x, debt)
  {
    NoteLeavesNew(m, x, abort);
    NoteKeepsUp(m, x, abort);
    NoteAccounts(m, x, abort, debt);
  }

  /** From considering the flush on, only the stage and what is left change. */
  predicate Onward(m: Machine, next: Machine) {
    && next.run.done == m.run.done && next.run.stored == m.run.stored
    && next.completed == m.completed && next.again == m.again && next.failed == m.failed && next.since == m.since
    && (next.stage.Ready? || next.stage.Writing? || next.stage.Closing?)
  }

  lemma ConsiderGoesOn(m: Machine, x: Setting, abort: Option<nat>)
    requires m.stage.Kept? && m.left != []
    ensures Onward(m, Step(m, x, abort))
  {
  }

  lemma OnwardKeeps(m: Machine, next: Machine, x: Setting, debt: int)
    requires m.stage.Kept? && Nested(m, x) && Accounted(m, x, debt) && Onward(m, next)
    ensures Nested(next, x) && Accounted(next, x, debt)
  {
    assert InFlight(m, x) == {} == InFlight(next, x);
  }

  lemma ConsiderKeepsUp(m: Machine, x: Setting, abort: Option<nat>)
    requires m.stage.Kept? && LeftIsNew(m) && KeepsUp(m, x)
    ensures LeftIsNew(Step(m, x, abort)) && KeepsUp(Step(m, x, abort), x)
  {
  }

  lemma ConsiderKeeps(m: Machine, x: Setting, abort: Option<nat>, debt: int)
    requires m.stage.Kept? && Inv(m, x, debt)
    ensures Inv(Step(m, x, abort), x, debt)
  {
    var next := Step(m, x, abort);
    ConsiderKeepsUp(m, x, abort);
    ConsiderGoesOn(m, x, abort);
    OnwardKeeps(m, next, x, debt);
  }

  lemma FlushKeeps(m: Machine, x: Setting, abort: Option<nat>, debt: int)
    requires m.stage.Writing? && Inv(m, x, debt)
    ensures Inv(Step(m, x, abort), x, debt)
  {
  }

  lemma CloseKeeps(m: Machine, x: Setting, abort: Option<nat>, debt: int)
    requires m.stage.Closing? && Inv(m, x, debt)
    ensures Inv(Step(m, x, abort), x, debt)
  {
  }

  lemma RestKeeps(m: Machine, x: Setting, abort: Option<nat>, debt: int)
    requires m.stage.Clearing? || m.stage.Over? || (m.stage.Ready? && m.left == [])
    requires Inv(m, x, debt)
    ensures Inv(Step(m, x, abort), x, debt)
  {
  }

  lemma StepKeeps(m: Machine, x: Setting, abort: Option<nat>, debt: int)
    requires Inv(m, x, debt)
    ensures Inv(Step(m, x, abort), x, debt)
  {
    match m.stage
    case Ready => if m.left == [] { RestKeeps(m, x, abort, debt); } else { ClaimKeeps(m, x, abort, debt); }
    case Worked => NoteKeeps(m, x, abort, debt);
    case Kept => ConsiderKeeps(m, x, abort, debt);
    case Writing => FlushKeeps(m, x, abort, debt);
    case Closing(_) => CloseKeeps(m, x, abort, debt);
    case _ => RestKeeps(m, x, abort, debt);
  }

  lemma StepsKeep(m: Machine, x: Setting, abort: Option<nat>, debt: int, k: nat)
    requires Inv(m, x, debt)
    ensures Inv(Steps(m, x, abort, k), x, debt)
  {
    forall n | Inv(n, x, debt)
      ensures Inv(Step(n, x, abort), x, debt)
    {
      StepKeeps(n, x, abort, debt);
    }
    AdvanceKeeps(Stepping(x, abort), n => Inv(n, x, debt), m, k);
  }

  // ----- whole histories -----

  /** What the checkpoint does not know, together with what that has already cost. */
  function Cost(d: Disk): nat {
    d.again + |d.completed - d.stored|
  }

  predicate Sound(d: Disk) {
    d.stored <= d.completed
  }

  function Debt(d: Disk): int {
    Cost(d) - 25 * d.failed
  }

  lemma StartedInv(d: Disk, s: Session)
    requires Sound(d) && Order.Distinct(s.candidates)
    ensures Inv(Started(d, s), s.x, Debt(d))
  {
    if s.candidates != [] {
      var m := Started(d, s);
      ClaimedSpec(s.candidates, m.run.done, s.abort);
      assert m.completed - m.run.done - InFlight(m, s.x) == m.completed - m.run.stored;
    }
  }

  /** Wherever the process dies, at most 25 pages are durable and not in the store, and 25 more per write missed since. */
  lemma MissingAtMost(m: Machine, x: Setting, debt: int)
    requires Inv(m, x, debt) && !m.stage.Over? && !m.stage.Clearing?
    ensures |(m.run.done + InFlight(m, x)) - m.run.stored| <= 25 * (m.since + 1)
    ensures m.again + |m.completed - m.run.stored| <= debt + 25 * (m.failed + 1)
  {
  }

  /** The same, said of any session cut anywhere. */
  lemma MissingInSession(d: Disk, s: Session)
    requires Sound(d) && Order.Distinct(s.candidates)
    requires !Played(d, s).stage.Over? && !Played(d, s).stage.Clearing?
    ensures var m := Played(d, s); |(m.run.done + InFlight(m, s.x)) - m.run.stored| <= 25 * (m.since + 1)
  {
    StartedInv(d, s);
    StepsKeep(Started(d, s), s.x, s.abort, Debt(d), s.steps);
    MissingAtMost(Played(d, s), s.x, Debt(d));
  }

  /** A session costs 25 pages if it crashes and 25 for each write that fails; one that ends with its writes landing costs none. */
  lemma SessionCost(d: Disk, s: Session)
    requires Sound(d) && Order.Distinct(s.candidates)
    ensures var e := After(d, s);
            Sound(e) && Cost(e) <= Cost(d) + 25 * (e.crashes - d.crashes) + 25 * (e.failed - d.failed)
  {
    StartedInv(d, s);
    StepsKeep(Started(d, s), s.x, s.abort, Debt(d), s.steps);
    var m := Played(d, s);
    if !m.stage.Over? && !m.stage.Clearing? {
      MissingAtMost(m, s.x, Debt(d));
    }
  }

  /**
   * In every history of sessions, each with its own candidates, outcomes and failing writes, ended or crashed anywhere,
   * the pages completed over again, and those still bound to be, number at most 25 per crash and per failed write.
   */
  lemma {:induction false} CrashResumeBound(sessions: seq<Session>)
    requires forall s :: s in sessions ==> Order.Distinct(s.candidates)
    ensures var d := History(sessions); Sound(d) && Cost(d) <= 25 * (d.crashes + d.failed)
  {
    if sessions != [] {
      var k := |sessions| - 1;
      CrashResumeBound(sessions[..k]);
      SessionCost(History(sessions[..k]), sessions[k]);
    }
  }

  // ----- the bound is reached -----

  predicate AllWritten(pages: seq<string>, x: Setting) {
    forall p :: p in pages ==> x.world(p) == Grounded(Writes)
  }

  function PagesOf(pages: seq<string>): set<string> {
    set p | p in pages
  }

  lemma {:induction false} PagesOfDistinct(pages: seq<string>)
    requires Order.Distinct(pages)
    ensures |PagesOf(pages)| == |pages|
  {
    if pages != [] {
      var k := |pages| - 1;
      PagesOfDistinct(pages[..k]);
      assert pages == pages[..k] + [pages[k]];
      assert PagesOf(pages) == PagesOf(pages[..k]) + {pages[k]};
    }
  }

  /** The first `k` pages written, none of them in the store. */
  ghost predicate Quiet(m: Machine, pages: seq<string>, k: nat) {
    && k <= |pages| && k <= 24
    && m.stage.Ready? && m.left == pages[k..]
    && m.run.done == m.completed == PagesOf(pages[..k])
    && m.run.stored == {} && m.run.lastFlush == 0 && m.failed == 0 && m.again == 0
  }

  /** Page `k` is written and noted, and nothing is stored. */
  ghost predicate QuietKept(n: Machine, pages: seq<string>, k: nat) {
    && k < |pages| && n.stage.Kept? && n.left == pages[k..]
    && n.run.done == n.completed == PagesOf(pages[..k + 1])
    && n.run.stored == {} && n.run.lastFlush == 0 && n.failed == 0 && n.again == 0
  }

  lemma NextPage(pages: seq<string>, k: nat)
    requires Order.Distinct(pages) && k < |pages|
    ensures pages[k] !in PagesOf(pages[..k]) && PagesOf(pages[..k + 1]) == PagesOf(pages[..k]) + {pages[k]}
  {
    assert pages[..k + 1] == pages[..k] + [pages[k]];
  }

  lemma QuietNote(m: Machine, pages: seq<string>, x: Setting, abort: Option<nat>, k: nat)
    requires Quiet(m, pages, k) && k < |pages| && AllWritten(pages, x) && !x.dryRun && Order.Distinct(pages)
    ensures QuietKept(Steps(m, x, abort, 2), pages, k)
  {
    assert m.left[0] == pages[k] && pages[k] in pages;
    NextPage(pages, k);
    var a := Step(m, x, abort);
    assert a == Finished(m, pages[k]).(stage := Worked);
    var b := Step(a, x, abort);
    assert Steps(m, x, abort, 2) == b;
  }

  /** With fewer than 25 pages noted no flush is due. */
  lemma QuietGoesOn(n: Machine, pages: seq<string>, x: Setting, abort: Option<nat>, k: nat)
    requires QuietKept(n, pages, k) && k < 24 && AllWritten(pages, x) && !x.dryRun && Order.Distinct(pages)
    ensures Quiet(Steps(n, x, abort, 1), pages, k + 1)
  {
    FirstPages(pages, k + 1);
    assert n.left[0] == pages[k] && pages[k] in pages;
    assert !Due(n.run, x);
    assert Steps(n, x, abort, 1) == Step(n, x, abort) == n.(left := n.left[1..], stage := Ready);
    assert n.left[1..] == pages[k + 1..];
  }

  lemma QuietItem(m: Machine, pages: seq<string>, x: Setting, abort: Option<nat>, k: nat)
    requires Quiet(m, pages, k) && k < |pages| && k < 24 && AllWritten(pages, x) && !x.dryRun && Order.Distinct(pages)
    ensures Quiet(Steps(m, x, abort, 3), pages, k + 1)
  {
    QuietNote(m, pages, x, abort, k);
    StepsAdd(m, x, abort, 2, 1);
    QuietGoesOn(Steps(m, x, abort, 2), pages, x, abort, k);
  }

  lemma QuietSteps(m: Machine, pages: seq<string>, x: Setting, abort: Option<nat>, rounds: nat)
    requires Quiet(m, pages, 0) && rounds <= 24 && rounds <= |pages| && AllWritten(pages, x) && !x.dryRun && Order.Distinct(pages)
    ensures Quiet(Steps(m, x, abort, Times(3, rounds)), pages, rounds)
  {
    forall n, j: nat | Quiet(n, pages, j) && j < rounds
      ensures Quiet(Advance(Stepping(x, abort), n, 3), pages, j + 1)
    {
      QuietItem(n, pages, x, abort, j);
    }
    RoundsKeep(Stepping(x, abort), (n, j) => j >= 0 && Quiet(n, pages, j), m, 3, rounds, rounds);
  }

  lemma FirstPages(pages: seq<string>, k: nat)
    requires Order.Distinct(pages) && k <= |pages|
    ensures |PagesOf(pages[..k])| == k
  {
    PagesOfDistinct(pages[..k]);
  }

  lemma QuietReaches(m: Machine, pages: seq<string>, x: Setting, abort: Option<nat>, rounds: nat) returns (steps: nat)
    requires Quiet(m, pages, 0) && |pages| > rounds && rounds <= 24
    requires AllWritten(pages, x) && !x.dryRun && Order.Distinct(pages)
    ensures QuietKept(Steps(m, x, abort, steps), pages, rounds)
  {
    var before := Times(3, rounds);
    QuietSteps(m, pages, x, abort, rounds);
    QuietNote(Steps(m, x, abort, before), pages, x, abort, rounds);
    StepsAdd(m, x, abort, before, 2);
    steps := before + 2;
  }

  /** A first run over pages that all get written can die, just before its first flush, at the cost of 25 of them. */
  lemma CrashCanCost25(pages: seq<string>, x: Setting, force: bool) returns (steps: nat)
    requires |pages| >= 25 && Order.Distinct(pages) && AllWritten(pages, x) && !x.dryRun
    ensures var d := After(Disk({}, {}, 0, 0, 0), Session(pages, x, force, None, steps));
            d.crashes == 1 && d.failed == 0 && Cost(d) == 25
  {
    NothingUnfinished(pages);
    var m := Started(Disk({}, {}, 0, 0, 0), Session(pages, x, force, None, 0));
    assert pages[0..] == pages && PagesOf(pages[..0]) == {};
    steps := QuietReaches(m, pages, x, None, 24);
    var n := Steps(m, x, None, steps);
    FirstPages(pages, 25);
    assert n.completed - n.run.stored == n.completed;
  }

  lemma {:induction false} NothingUnfinished(pages: seq<string>)
    ensures Unfinished(pages, {}) == pages
  {
    if pages != [] {
      NothingUnfinished(pages[1..]);
    }
  }

  // ----- what the counters say -----

  function Sum(c: Counters): nat {
    c.enriched + c.insufficient + c.lockSkipped + c.disappeared + c.wouldEnrich + c.errored
  }

  lemma ItemSum(r: Run, page: string, x: Setting)
    ensures Sum(OnItem(r, page, x).c) == Sum(r.c) + 1
    ensures EndingOf(x.world(page), x.dryRun) == OutOfBudget ==> OnItem(r, page, x).c.errored >= 1
  {
  }

  /** Counters before and after the pool. */
  lemma {:induction false} PoolSum(r: Run, pages: seq<string>, x: Setting)
    ensures var c := Pool(r, pages, x).c;
            && Sum(c) <= Sum(r.c) + |pages|
            && (if StopsOnBudget(pages, x) then c.errored >= 1 else Sum(c) == Sum(r.c) + |pages|)
    decreases pages
  {
    if pages != [] {
      StopsFirst(pages, x);
      ItemSum(r, pages[0], x);
      PoolSum(OnItem(r, pages[0], x), pages[1..], x);
    }
  }

  /** The run got to every pending page. */
  predicate RanThrough(pending: seq<string>, x: Setting, abort: Option<nat>) {
    !StopsOnBudget(pending, x) && (abort.None? || abort.value >= |pending|)
  }

  lemma PoolSumExactly(r: Run, pending: seq<string>, x: Setting, abort: Option<nat>)
    ensures var claimed := Claimed(pending, abort);
            var n := Pool(r, claimed, x);
            var c := if StopsOnBudget(claimed, x) then Unreported(n.c) else n.c;
            Sum(c) == Sum(r.c) + |pending| <==> RanThrough(pending, x, abort)
  {
    var claimed := Claimed(pending, abort);
    PoolSum(r, claimed, x);
  }

  lemma CoreCounters(stored: set<string>, candidates: seq<string>, x: Setting, force: bool, abort: Option<nat>)
    requires candidates != []
    ensures var start := Fresh(stored, force);
            var claimed := Claimed(Unfinished(candidates, start.done), abort);
            var n := Pool(start, claimed, x);
            Core(stored, candidates, x, force, abort).c == if StopsOnBudget(claimed, x) then Unreported(n.c) else n.c
  {
  }

  /** The counters add up to the pending pages exactly when the run neither ran out of budget nor was cut short. */
  lemma CountersExactly(stored: set<string>, candidates: seq<string>, x: Setting, force: bool, abort: Option<nat>)
    ensures var pending := Unfinished(candidates, Fresh(stored, force).done);
            Sum(Core(stored, candidates, x, force, abort).c) == |pending| <==> RanThrough(pending, x, abort)
  {
    var start := Fresh(stored, force);
    if candidates != [] {
      CoreCounters(stored, candidates, x, force, abort);
      PoolSumExactly(start, Unfinished(candidates, start.done), x, abort);
    }
  }

  /** The page exhausts the budget. */
  predicate Exhausts(page: string, x: Setting) {
    !x.dryRun && x.world(page) == Grounded(OverBudget)
  }

  /** The pages whose turn came, up to and with the one that exhausted the budget. */
  function Handled(pages: seq<string>, x: Setting): seq<string> {
    if pages == [] then []
    else if Exhausts(pages[0], x) then [pages[0]]
    else [pages[0]] + Handled(pages[1..], x)
  }

  /** The pages written, found empty of news, or without grounding. */
  function CompletedOf(pages: seq<string>, x: Setting): set<string> {
    set p | p in pages && IsCompleted(p, x)
  }

  predicate IsCompleted(page: string, x: Setting) {
    var w := x.world(page);
    !x.dryRun && (w == NotGrounded || w == Grounded(SaysNothing) || w == Grounded(Writes))
  }

  lemma CompletedStep(pages: seq<string>, x: Setting)
    requires pages != []
    ensures CompletedOf(pages, x) == (if IsCompleted(pages[0], x) then {pages[0]} else {}) + CompletedOf(pages[1..], x)
  {
    assert pages == [pages[0]] + pages[1..];
  }

  lemma CompletesExactly(page: string, x: Setting)
    ensures Completes(x.world(page), x.dryRun) <==> IsCompleted(page, x)
  {
  }

  lemma ItemDone(r: Run, page: string, x: Setting)
    ensures OnItem(r, page, x).done == r.done + if IsCompleted(page, x) then {page} else {}
  {
    CompletesExactly(page, x);
  }

  lemma {:induction false} PoolDone(r: Run, pages: seq<string>, x: Setting)
    ensures Pool(r, pages, x).done == r.done + CompletedOf(Handled(pages, x), x)
    decreases pages
  {
    if pages != [] {
      ItemDone(r, pages[0], x);
      CompletedStep(Handled(pages, x), x);
      if Exhausts(pages[0], x) {
        assert Handled(pages, x)[1..] == [];
      } else {
        assert Handled(pages, x)[1..] == Handled(pages[1..], x);
        PoolDone(OnItem(r, pages[0], x), pages[1..], x);
      }
    }
  }

  /** What is remembered less what is counted as enriched or insufficient. */
  function Unmatched(r: Run): int {
    |r.done| - r.c.enriched - r.c.insufficient
  }

  lemma ItemCountsDone(r: Run, page: string, x: Setting)
    requires page !in r.done && !x.dryRun
    ensures Unmatched(OnItem(r, page, x)) == Unmatched(r)
    ensures OnItem(r, page, x).done <= r.done + {page}
  {
  }

  /** A page is remembered exactly when it is counted as enriched or as insufficient. */
  lemma {:induction false} PoolCountsDone(r: Run, pages: seq<string>, x: Setting)
    requires Order.Distinct(pages) && AllNew(pages, r.done) && !x.dryRun
    ensures Unmatched(Pool(r, pages, x)) == Unmatched(r)
    decreases pages
  {
    if pages != [] {
      var next := OnItem(r, pages[0], x);
      ItemCountsDone(r, pages[0], x);
      forall i | 0 <= i < |pages[1..]|
        ensures pages[1..][i] !in next.done
      {
        assert pages[1..][i] == pages[i + 1];
      }
      PoolCountsDone(next, pages[1..], x);
    }
  }

  /** What a run remembers: what it had, and the handled pages it completed, as many as it counts as enriched or insufficient. */
  lemma RunRemembersExactly(stored: set<string>, candidates: seq<string>, x: Setting, force: bool, abort: Option<nat>)
    requires candidates != [] && Order.Distinct(candidates)
    ensures var had := if force then {} else stored;
            var claimed := Claimed(Unfinished(candidates, had), abort);
            var r := Core(stored, candidates, x, force, abort);
            && r.done == had + CompletedOf(Handled(claimed, x), x)
            && (!x.dryRun ==> |r.done| - |had| == r.c.enriched + r.c.insufficient)
  {
    var start := Fresh(stored, force);
    var claimed := Claimed(Unfinished(candidates, start.done), abort);
    ClaimedSpec(candidates, start.done, abort);
    PoolDone(start, claimed, x);
    if !x.dryRun {
      PoolCountsDone(start, claimed, x);
    }
  }

  lemma {:induction false} DryPool(r: Run, pages: seq<string>, x: Setting)
    requires x.dryRun
    ensures var n := Pool(r, pages, x);
            n.stored == r.stored && n.done == r.done && n.writes == r.writes && !StopsOnBudget(pages, x)
    decreases pages
  {
    if pages != [] {
      StopsFirst(pages, x);
      DryPool(OnItem(r, pages[0], x), pages[1..], x);
    }
  }

  /** A dry run leaves the checkpoint alone, unless it is forced: then the checkpoint is gone. */
  lemma DryRunKeepsStoreExactly(stored: set<string>, candidates: seq<string>, x: Setting, force: bool, abort: Option<nat>)
    requires x.dryRun
    ensures Core(stored, candidates, x, force, abort).stored == stored <==> !force || stored == {} || candidates == []
  {
    if candidates != [] {
      var start := Fresh(stored, force);
      DryPool(start, Claimed(Unfinished(candidates, start.done), abort), x);
    }
  }

  // ----- counter by counter -----

  /** What the pages held, page by page. */
  function Worlds(pages: seq<string>, x: Setting): multiset<World> {
    if pages == [] then multiset{} else multiset{x.world(pages[0])} + Worlds(pages[1..], x)
  }

  function GroundedIn(ws: multiset<World>): nat {
    ws[Grounded(SynthesisThrows)] + ws[Grounded(OverBudget)] + ws[Grounded(SaysNothing)]
    + ws[Grounded(WriteThrows)] + ws[Grounded(Writes)]
  }

  /** The pages whose work threw. */
  function ErrorsMet(ws: multiset<World>, dryRun: bool): nat {
    ws[LookupThrows] +
    if dryRun then 0 else ws[Grounded(SynthesisThrows)] + ws[Grounded(OverBudget)] + ws[Grounded(WriteThrows)]
  }

  /** The counters after pages with these worlds. */
  ghost predicate Counted(c: Counters, before: Counters, ws: multiset<World>, dryRun: bool) {
    && c.lockSkipped == before.lockSkipped + ws[LockHeld]
    && c.disappeared == before.disappeared + ws[Gone]
    && c.enriched == before.enriched + (if dryRun then 0 else ws[Grounded(Writes)])
    && c.insufficient == before.insufficient + ws[NotGrounded] + (if dryRun then 0 else ws[Grounded(SaysNothing)])
    && c.wouldEnrich == before.wouldEnrich + (if dryRun then GroundedIn(ws) else 0)
    && c.errored == before.errored + ErrorsMet(ws, dryRun)
  }

  lemma ItemCounted(r: Run, page: string, x: Setting)
    ensures Counted(OnItem(r, page, x).c, r.c, multiset{x.world(page)}, x.dryRun)
  {
    match x.world(page)
    case Grounded(SynthesisThrows) =>
    case Grounded(OverBudget) =>
    case Grounded(SaysNothing) =>
    case Grounded(WriteThrows) =>
    case Grounded(Writes) =>
    case _ =>
  }

  lemma CountedOnward(a: Counters, b: Counters, c: Counters, v: multiset<World>, w: multiset<World>, dryRun: bool)
    requires Counted(b, a, v, dryRun) && Counted(c, b, w, dryRun)
    ensures Counted(c, a, v + w, dryRun)
  {
  }

  lemma PoolStep(r: Run, pages: seq<string>, x: Setting)
    requires pages != []
    ensures var next := OnItem(r, pages[0], x);
            Pool(r, pages, x) == if Exhausts(pages[0], x) then next else Pool(next, pages[1..], x)
  {
  }

  lemma HandledWorlds(pages: seq<string>, x: Setting)
    requires pages != []
    ensures Worlds(Handled(pages, x), x) ==
            multiset{x.world(pages[0])} + if Exhausts(pages[0], x) then multiset{} else Worlds(Handled(pages[1..], x), x)
  {
    var handled := Handled(pages, x);
    assert handled[1..] == if Exhausts(pages[0], x) then [] else Handled(pages[1..], x);
  }

  lemma {:induction false} PoolCounted(r: Run, pages: seq<string>, x: Setting)
    ensures Counted(Pool(r, pages, x).c, r.c, Worlds(Handled(pages, x), x), x.dryRun)
    decreases pages
  {
    if pages != [] {
      var next := OnItem(r, pages[0], x);
      ItemCounted(r, pages[0], x);
      PoolStep(r, pages, x);
      HandledWorlds(pages, x);
      if !Exhausts(pages[0], x) {
        PoolCounted(next, pages[1..], x);
        CountedOnward(r.c, next.c, Pool(next, pages[1..], x).c, multiset{x.world(pages[0])},
                      Worlds(Handled(pages[1..], x), x), x.dryRun);
      }
    }
  }

  lemma StopsExactly(pages: seq<string>, x: Setting)
    ensures StopsOnBudget(pages, x) <==> exists i :: 0 <= i < |pages| && Exhausts(pages[i], x)
  {
  }

  /**
   * Each counter is the number of handled pages of its kind. A run that exhausts its budget reports no errors, not
   * even those it met before.
   */
  lemma CountersByWorld(stored: set<string>, candidates: seq<string>, x: Setting, force: bool, abort: Option<nat>)
    ensures var had := if force then {} else stored;
            var claimed := Claimed(Unfinished(candidates, had), abort);
            var ws := Worlds(Handled(claimed, x), x);
            var c := Core(stored, candidates, x, force, abort).c;
            && c.lockSkipped == ws[LockHeld] && c.disappeared == ws[Gone]
            && c.enriched == (if x.dryRun then 0 else ws[Grounded(Writes)])
            && c.insufficient == ws[NotGrounded] + (if x.dryRun then 0 else ws[Grounded(SaysNothing)])
            && c.wouldEnrich == (if x.dryRun then GroundedIn(ws) else 0)
            && c.errored == if exists i :: 0 <= i < |claimed| && Exhausts(claimed[i], x) then 0 else ErrorsMet(ws, x.dryRun)
  {
    var start := Fresh(stored, force);
    var claimed := Claimed(Unfinished(candidates, start.done), abort);
    PoolCounted(start, claimed, x);
    StopsExactly(claimed, x);
  }

  // ----- the checkpoint a run leaves -----

  predicate Throws(world: World, dryRun: bool) {
    || world == LookupThrows
    || (!dryRun && (world == Grounded(SynthesisThrows) || world == Grounded(OverBudget) || world == Grounded(WriteThrows)))
  }

  /** The checkpoint is written after a page exactly when the page did not throw and 25 pages or more are new since the last time. */
  lemma FlushExactly(r: Run, page: string, x: Setting)
    ensures var n := OnItem(r, page, x);
            var wrote := !x.dryRun && !Throws(x.world(page), x.dryRun) && |n.done| - r.lastFlush >= 25;
            && n.writes == (if wrote then r.writes + 1 else r.writes)
            && n.lastFlush == (if wrote then |n.done| else r.lastFlush)
            && n.stored == if wrote && x.lands(r.writes) then n.done else r.stored
  {
  }

  /**
   * What is in the store after a run: nothing new after a dry run; nothing at all after a run that came to its end;
   * and after one that was aborted or ran out of budget, all it had and completed, if its last write landed.
   */
  lemma StoreAfterRun(stored: set<string>, candidates: seq<string>, x: Setting, force: bool, abort: Option<nat>)
    ensures candidates == [] ==> Core(stored, candidates, x, force, abort).stored == stored
    ensures var had := if force then {} else stored;
            var claimed := Claimed(Unfinished(candidates, had), abort);
            var stopped := exists i :: 0 <= i < |claimed| && Exhausts(claimed[i], x);
            var r := Core(stored, candidates, x, force, abort);
            candidates != [] ==>
              if x.dryRun then r.stored == had && r.writes == 0
              else if stopped || abort != None then
                r.writes > 0 && (x.lands(r.writes - 1) ==> r.stored == had + CompletedOf(Handled(claimed, x), x))
              else r.stored == {}
  {
    var start := Fresh(stored, force);
    var claimed := Claimed(Unfinished(candidates, start.done), abort);
    StopsExactly(claimed, x);
    if x.dryRun {
      DryPool(start, claimed, x);
    } else {
      PoolDone(start, claimed, x);
      LastWrite(stored, candidates, x, force, abort);
    }
  }

  /** A run that is not dry ends by writing what it has in memory, and then clears it if it came to its end. */
  lemma LastWrite(stored: set<string>, candidates: seq<string>, x: Setting, force: bool, abort: Option<nat>)
    requires candidates != [] ==> !x.dryRun
    ensures candidates != [] ==>
              var start := Fresh(stored, force);
              var claimed := Claimed(Unfinished(candidates, start.done), abort);
              var n, r := Pool(start, claimed, x), Core(stored, candidates, x, force, abort);
              && r.writes == n.writes + 1
              && r.stored == if StopsOnBudget(claimed, x) || abort.Some? then (if x.lands(n.writes) then n.done else n.stored) else {}
  {
  }

  function NotIn(done: set<string>): string -> bool {
    (p: string) => p !in done
  }

  /** A run looks at the candidates not yet done, in their order. */
  lemma {:induction false} UnfinishedInOrder(candidates: seq<string>, done: set<string>)
    ensures Unfinished(candidates, done) == Order.Filter(NotIn(done), candidates)
  {
    if candidates != [] {
      UnfinishedInOrder(candidates[1..], done);
    }
  }

  /** Of those, the first `k` are claimed when the caller aborts after `k`. */
  lemma ClaimedExactly(pending: seq<string>, abort: Option<nat>)
    ensures Claimed(pending, abort) <= pending
    ensures |Claimed(pending, abort)| == if abort.Some? && abort.value < |pending| then abort.value else |pending|
  {
  }
}
