/** The migration runner and its append-only ledger (src/commands/apply-migrations.ts, src/core/preferences.ts). */
module Migrations {
  import opened Common
  import Order

  type Version = string

  datatype Mark = Complete | Partial | Retry

  datatype Entry = Entry(version: Version, mark: Mark)

  datatype Status = Applied | PartiallyApplied | Pending | Wedged

  const MAX_CONSECUTIVE_PARTIALS: nat := 3

  // ----- status of one version -----

  /** The marks of one version, oldest first. */
  function MarksOf(entries: seq<Entry>, version: Version): seq<Mark> {
    if entries == [] then []
    else
      var k := |entries| - 1;
      MarksOf(entries[..k], version) + if entries[k].version == version then [entries[k].mark] else []
  }

  function TrailingPartials(marks: seq<Mark>): (n: nat)
    ensures n <= |marks|
  {
    if marks == [] || marks[|marks| - 1] != Partial then 0
    else 1 + TrailingPartials(marks[..|marks| - 1])
  }

  function StatusOf(marks: seq<Mark>): Status {
    if marks == [] then Pending
    else if marks[|marks| - 1] == Retry then Pending
    else if Complete in marks then Applied
    else if TrailingPartials(marks) >= MAX_CONSECUTIVE_PARTIALS then Wedged
    else if Partial in marks then PartiallyApplied
    else Pending
  }

  function StatusIn(entries: seq<Entry>, version: Version): Status {
    StatusOf(MarksOf(entries, version))
  }

  lemma MarksOfAppend(entries: seq<Entry>, e: Entry, version: Version)
    ensures MarksOf(entries + [e], version) ==
            if e.version == version then MarksOf(entries, version) + [e.mark] else MarksOf(entries, version)
  {
  }

  method IndexCompleted(entries: seq<Entry>) returns (byVersion: map<Version, seq<Mark>>)
    ensures forall v :: MarksOf(entries, v) == if v in byVersion then byVersion[v] else []
  {
    byVersion := map[];
    for i := 0 to |entries|
      invariant forall v :: MarksOf(entries[..i], v) == if v in byVersion then byVersion[v] else []
    {
      var e := entries[i];
      assert entries[..i + 1] == entries[..i] + [e];
      forall v ensures MarksOf(entries[..i + 1], v) ==
        if e.version == v then MarksOf(entries[..i], v) + [e.mark] else MarksOf(entries[..i], v)
      {
        MarksOfAppend(entries[..i], e, v);
      }
      var list := if e.version in byVersion then byVersion[e.version] else [];
      byVersion := byVersion[e.version := list + [e.mark]];
    }
    assert entries[..|entries|] == entries;
  }

  /** The scan: counts partials from the end and stops at anything else. */
  method StatusForVersion(version: Version, byVersion: map<Version, seq<Mark>>) returns (status: Status)
    ensures status == StatusOf(if version in byVersion then byVersion[version] else [])
  {
    var marks := if version in byVersion then byVersion[version] else [];
    if marks == [] {
      return Pending;
    }
    if marks[|marks| - 1] == Retry {
      return Pending;
    }
    if Complete in marks {
      return Applied;
    }
    var consecutive := 0;
    var i := |marks| - 1;
    assert marks[..|marks|] == marks;
    while i >= 0
      invariant -1 <= i < |marks|
      invariant consecutive == |marks| - 1 - i
      invariant TrailingPartials(marks) == consecutive + TrailingPartials(marks[..i + 1])
    {
      assert marks[..i + 1][..i] == marks[..i];
      if marks[i] != Partial {
        break;
      }
      consecutive := consecutive + 1;
      i := i - 1;
    }
    if consecutive >= MAX_CONSECUTIVE_PARTIALS {
      return Wedged;
    }
    if Partial in marks {
      return PartiallyApplied;
    }
    return Pending;
  }

  // ----- plan -----

  datatype Plan = Plan(applied: seq<Version>, partials: seq<Version>, pending: seq<Version>,
                       skippedFuture: seq<Version>, wedged: seq<Version>)

  /** What the plan is asked about: the versions newer than the binary, and the one version selected, if any. */
  datatype Scope = Scope(isFuture: Version -> bool, only: Option<Version>)

  predicate InScope(v: Version, scope: Scope) {
    scope.only.None? || scope.only.value == v
  }

  predicate Planned(v: Version, scope: Scope) {
    InScope(v, scope) && !scope.isFuture(v)
  }

  function WithStatus(entries: seq<Entry>, scope: Scope, status: Status): Version -> bool {
    (v: Version) => Planned(v, scope) && StatusIn(entries, v) == status
  }

  function Future(scope: Scope): Version -> bool {
    (v: Version) => InScope(v, scope) && scope.isFuture(v)
  }

  function PlanOf(registry: seq<Version>, entries: seq<Entry>, scope: Scope): Plan {
    Plan(Order.Filter(WithStatus(entries, scope, Applied), registry),
         Order.Filter(WithStatus(entries, scope, PartiallyApplied), registry),
         Order.Filter(WithStatus(entries, scope, Pending), registry),
         Order.Filter(Future(scope), registry),
         Order.Filter(WithStatus(entries, scope, Wedged), registry))
  }

  lemma PlanAppend(registry: seq<Version>, m: Version, entries: seq<Entry>, scope: Scope)
    ensures var plan, status := PlanOf(registry, entries, scope), StatusIn(entries, m);
            PlanOf(registry + [m], entries, scope) ==
            if !InScope(m, scope) then plan
            else if scope.isFuture(m) then plan.(skippedFuture := plan.skippedFuture + [m])
            else match status
                 case Applied => plan.(applied := plan.applied + [m])
                 case PartiallyApplied => plan.(partials := plan.partials + [m])
                 case Wedged => plan.(wedged := plan.wedged + [m])
                 case Pending => plan.(pending := plan.pending + [m])
  {
    Order.FilterAppend(WithStatus(entries, scope, Applied), registry, m);
    Order.FilterAppend(WithStatus(entries, scope, PartiallyApplied), registry, m);
    Order.FilterAppend(WithStatus(entries, scope, Pending), registry, m);
    Order.FilterAppend(Future(scope), registry, m);
    Order.FilterAppend(WithStatus(entries, scope, Wedged), registry, m);
  }

  method BuildPlan(registry: seq<Version>, entries: seq<Entry>, scope: Scope) returns (plan: Plan)
    ensures plan == PlanOf(registry, entries, scope)
  {
    var byVersion := IndexCompleted(entries);
    plan := Plan([], [], [], [], []);
    for i := 0 to |registry|
      invariant plan == PlanOf(registry[..i], entries, scope)
    {
      var m := registry[i];
      assert registry[..i + 1] == registry[..i] + [m];
      PlanAppend(registry[..i], m, entries, scope);
      if scope.only.Some? && m != scope.only.value {
        continue;
      }
      if scope.isFuture(m) {
        plan := plan.(skippedFuture := plan.skippedFuture + [m]);
        continue;
      }
      var status := StatusForVersion(m, byVersion);
      if status == Applied {
        plan := plan.(applied := plan.applied + [m]);
      } else if status == PartiallyApplied {
        plan := plan.(partials := plan.partials + [m]);
      } else if status == Wedged {
        plan := plan.(wedged := plan.wedged + [m]);
      } else {
        plan := plan.(pending := plan.pending + [m]);
      }
    }
    assert registry[..|registry|] == registry;
  }

  /** All partials first, then all pendings; each group in registry order. */
  function ToRun(registry: seq<Version>, entries: seq<Entry>, scope: Scope): seq<Version> {
    PlanOf(registry, entries, scope).partials + PlanOf(registry, entries, scope).pending
  }

  // ----- ledger -----

  /** A second `complete` in a row for the same version is not written. */
  function Appended(entries: seq<Entry>, e: Entry): seq<Entry> {
    var marks := MarksOf(entries, e.version);
    if e.mark == Complete && marks != [] && marks[|marks| - 1] == Complete then entries else entries + [e]
  }

  class Ledger {
    var entries: seq<Entry>

    constructor ()
      ensures entries == []
    {
      entries := [];
    }

    method Append(e: Entry)
      modifies this
      ensures entries == Appended(old(entries), e)
    {
      if e.mark == Complete {
        var byVersion := IndexCompleted(entries);
        if e.version in byVersion && byVersion[e.version] != [] &&
           byVersion[e.version][|byVersion[e.version]| - 1] == Complete {
          return;
        }
      }
      entries := entries + [e];
    }
  }

  // ----- runner -----

  /** What an orchestrator does. */
  datatype Outcome = Finished | FinishedPartially | ReportedFailure | Threw

  /** One attempt: the outcome, and whether its ledger write succeeds. */
  datatype Attempt = Attempt(outcome: Outcome, logged: bool)

  function MarkFor(outcome: Outcome): Mark {
    if outcome.Finished? then Complete else Partial
  }

  /** The run goes on to the next version. */
  predicate GoesOn(a: Attempt) {
    a.logged && (a.outcome.Finished? || a.outcome.FinishedPartially?)
  }

  function AfterAttempt(entries: seq<Entry>, m: Version, a: Attempt): seq<Entry> {
    if a.logged then Appended(entries, Entry(m, MarkFor(a.outcome))) else entries
  }

  /** How many of `toRun` are attempted: up to and including the first that stops the run. */
  function Attempted(toRun: seq<Version>, attempts: nat -> Attempt, first: nat): (n: nat)
    ensures n <= |toRun| && (toRun != [] ==> n > 0)
    decreases toRun
  {
    if toRun == [] then 0
    else if GoesOn(attempts(first)) then 1 + Attempted(toRun[1..], attempts, first + 1)
    else 1
  }

  /** The ledger after running `toRun` with attempts `first`, `first + 1`, ... */
  function AfterRunning(entries: seq<Entry>, toRun: seq<Version>, attempts: nat -> Attempt, first: nat): seq<Entry>
    decreases toRun
  {
    if toRun == [] then entries
    else
      var next := AfterAttempt(entries, toRun[0], attempts(first));
      if GoesOn(attempts(first)) then AfterRunning(next, toRun[1..], attempts, first + 1) else next
  }

  function RunFailed(toRun: seq<Version>, attempts: nat -> Attempt, first: nat): bool
    decreases toRun
  {
    toRun != [] && (!GoesOn(attempts(first)) || RunFailed(toRun[1..], attempts, first + 1))
  }

  lemma RunningStep(entries: seq<Entry>, toRun: seq<Version>, attempts: nat -> Attempt, i: nat)
    requires i < |toRun|
    ensures var a := attempts(i);
            var next := AfterAttempt(entries, toRun[i], a);
            && AfterRunning(entries, toRun[i..], attempts, i) ==
               (if GoesOn(a) then AfterRunning(next, toRun[i + 1..], attempts, i + 1) else next)
            && RunFailed(toRun[i..], attempts, i) == (!GoesOn(a) || RunFailed(toRun[i + 1..], attempts, i + 1))
  {
  }

  method RunApplyMigrations(ledger: Ledger, registry: seq<Version>, scope: Scope, attempts: nat -> Attempt)
    returns (failed: bool)
    modifies ledger
    ensures var toRun := ToRun(registry, old(ledger.entries), scope);
            && ledger.entries == AfterRunning(old(ledger.entries), toRun, attempts, 0)
            && failed == RunFailed(toRun, attempts, 0)
  {
    var plan := BuildPlan(registry, ledger.entries, scope);
    var toRun := plan.partials + plan.pending;
    failed := false;
    for i := 0 to |toRun|
      invariant AfterRunning(ledger.entries, toRun[i..], attempts, i) == AfterRunning(old(ledger.entries), toRun, attempts, 0)
      invariant RunFailed(toRun[i..], attempts, i) == RunFailed(toRun, attempts, 0)
      invariant !failed
    {
      var m, result := toRun[i], attempts(i);
      RunningStep(ledger.entries, toRun, attempts, i);
      match result.outcome
      case ReportedFailure | Threw =>
        if result.logged {
          ledger.Append(Entry(m, Partial));
        }
        failed := true;
        return;
      case Finished | FinishedPartially =>
        if !result.logged {
          failed := true;
          return;
        }
        ledger.Append(Entry(m, if result.outcome.Finished? then Complete else Partial));
    }
  }

  // ----- force flags -----

  /** The ledger after a retry marker for every version of `registry` that `seen` shows wedged. */
  function AfterForce(entries: seq<Entry>, seen: seq<Entry>, registry: seq<Version>): seq<Entry>
    decreases registry
  {
    if registry == [] then entries
    else
      AfterForce(if StatusIn(seen, registry[0]) == Wedged then entries + [Entry(registry[0], Retry)] else entries,
                 seen, registry[1..])
  }

  /** The snapshot is read once; markers written along the way are not looked at. */
  method ForceOrchestrator(ledger: Ledger, registry: seq<Version>) returns (resetCount: nat)
    modifies ledger
    ensures ledger.entries == AfterForce(old(ledger.entries), old(ledger.entries), registry)
    ensures resetCount == |ledger.entries| - |old(ledger.entries)|
  {
    var byVersion := IndexCompleted(ledger.entries);
    resetCount := 0;
    for i := 0 to |registry|
      invariant AfterForce(ledger.entries, old(ledger.entries), registry[i..]) ==
                AfterForce(old(ledger.entries), old(ledger.entries), registry)
      invariant |ledger.entries| == |old(ledger.entries)| + resetCount
    {
      assert registry[i..][1..] == registry[i + 1..];
      var status := StatusForVersion(registry[i], byVersion);
      if status == Wedged {
        ledger.Append(Entry(registry[i], Retry));
        resetCount := resetCount + 1;
      }
    }
  }

  /** `--force-retry`: only a registered version, otherwise nothing is written. */
  method ForceRetry(ledger: Ledger, registry: seq<Version>, version: Version) returns (known: bool)
    modifies ledger
    ensures known == (version in registry)
    ensures ledger.entries == if known then old(ledger.entries) + [Entry(version, Retry)] else old(ledger.entries)
  {
    known := version in registry;
    if known {
      ledger.Append(Entry(version, Retry));
    }
  }
}
