/** Migration runs: every recorded attempt costs a version one of three, so runs whose first write lands come to an end. */
module MigrationTheorems {
  import opened Common
  import opened Migrations
  import opened Iteration
  import Order

  // ----- the status as an automaton -----

  /** What a reader of the ledger has to remember of one version. */
  datatype Memory = Memory(anyComplete: bool, anyPartial: bool, trailing: nat, lastRetry: bool)

  function Remember(m: Memory, mark: Mark): Memory {
    match mark
    case Complete => Memory(true, m.anyPartial, 0, false)
    case Partial => Memory(m.anyComplete, true, m.trailing + 1, false)
    case Retry => Memory(m.anyComplete, m.anyPartial, 0, true)
  }

  function MemoryOf(marks: seq<Mark>): Memory {
    if marks == [] then Memory(false, false, 0, false)
    else Remember(MemoryOf(marks[..|marks| - 1]), marks[|marks| - 1])
  }

  function Verdict(m: Memory): Status {
    if m.lastRetry then Pending
    else if m.anyComplete then Applied
    else if m.trailing >= MAX_CONSECUTIVE_PARTIALS then Wedged
    else if m.anyPartial then PartiallyApplied
    else Pending
  }

  lemma {:induction false} MemorySpec(marks: seq<Mark>)
    ensures var m := MemoryOf(marks);
            && (m.anyComplete <==> Complete in marks)
            && (m.anyPartial <==> Partial in marks)
            && m.trailing == TrailingPartials(marks)
            && (m.lastRetry <==> marks != [] && marks[|marks| - 1] == Retry)
  {
    if marks != [] {
      var k := |marks| - 1;
      MemorySpec(marks[..k]);
      assert marks == marks[..k] + [marks[k]];
    }
  }

  /** Scanning the whole list gives what reading it mark by mark gives. */
  lemma ScanIsAutomaton(marks: seq<Mark>)
    ensures StatusOf(marks) == Verdict(MemoryOf(marks))
  {
    MemorySpec(marks);
  }

  /** `complete` never regresses by accident: only a trailing `retry` undoes it. */
  lemma CompleteUnlessRetry(marks: seq<Mark>)
    requires Complete in marks
    ensures StatusOf(marks) == Applied <==> marks[|marks| - 1] != Retry
  {
  }

  // ----- remaining attempts -----

  function Remaining(marks: seq<Mark>): nat {
    match StatusOf(marks)
    case Applied => 0
    case Wedged => 0
    case _ => MAX_CONSECUTIVE_PARTIALS - TrailingPartials(marks)
  }

  function RemainingOf(entries: seq<Entry>, v: Version): nat {
    Remaining(MarksOf(entries, v))
  }

  predicate Runnable(entries: seq<Entry>, v: Version) {
    StatusIn(entries, v).Pending? || StatusIn(entries, v).PartiallyApplied?
  }

  /** Attempts remain exactly when the version would be run. */
  lemma RemainingExactly(marks: seq<Mark>)
    ensures Remaining(marks) > 0 <==> StatusOf(marks).Pending? || StatusOf(marks).PartiallyApplied?
    ensures Remaining(marks) <= MAX_CONSECUTIVE_PARTIALS
  {
  }

  /** A recorded attempt costs at least one of the remaining ones; finishing costs all. */
  lemma AttemptCosts(marks: seq<Mark>, mark: Mark)
    requires StatusOf(marks).Pending? || StatusOf(marks).PartiallyApplied?
    requires mark != Retry
    ensures Remaining(marks + [mark]) < Remaining(marks)
    ensures mark == Complete ==> StatusOf(marks + [mark]) == Applied
  {
  }

  /** A version about to run has no trailing `complete`, so its outcome is always written. */
  lemma OutcomeIsWritten(entries: seq<Entry>, m: Version, a: Attempt)
    requires Runnable(entries, m) && a.logged
    ensures AfterAttempt(entries, m, a) == entries + [Entry(m, MarkFor(a.outcome))]
  {
  }

  /** One attempt: its own version loses remaining attempts when it is logged, no other version changes. */
  lemma AttemptEffect(entries: seq<Entry>, m: Version, a: Attempt, v: Version)
    requires Runnable(entries, m)
    ensures v != m ==> MarksOf(AfterAttempt(entries, m, a), v) == MarksOf(entries, v)
    ensures v == m && a.logged ==> RemainingOf(AfterAttempt(entries, m, a), v) < RemainingOf(entries, v)
    ensures !a.logged ==> AfterAttempt(entries, m, a) == entries
  {
  }

  // ----- one run -----

  ghost predicate AllRunnable(entries: seq<Entry>, vs: seq<Version>) {
    forall v :: v in vs ==> Runnable(entries, v)
  }

  /** Whether the run attempts `v`. */
  function Tries(toRun: seq<Version>, attempts: nat -> Attempt, v: Version): nat {
    if v in toRun[..Attempted(toRun, attempts, 0)] then 1 else 0
  }

  lemma RestStaysRunnable(entries: seq<Entry>, toRun: seq<Version>, a: Attempt)
    requires toRun != [] && Order.Distinct(toRun) && AllRunnable(entries, toRun)
    ensures AllRunnable(AfterAttempt(entries, toRun[0], a), toRun[1..]) && Order.Distinct(toRun[1..])
  {
    assert toRun[0] in toRun;
    forall w | w in toRun[1..] ensures Runnable(AfterAttempt(entries, toRun[0], a), w) {
      assert w in toRun && w != toRun[0];
      assert Runnable(entries, w);
      AttemptEffect(entries, toRun[0], a, w);
    }
  }

  /** What happened to `v`: the run attempted it at a cost, or left its entries alone. */
  ghost predicate PaidIfTried(entries: seq<Entry>, after: seq<Entry>, tried: bool, v: Version) {
    if tried then RemainingOf(after, v) < RemainingOf(entries, v) else MarksOf(after, v) == MarksOf(entries, v)
  }

  lemma PaidOnce(entries: seq<Entry>, mid: seq<Entry>, after: seq<Entry>, first: bool, later: bool, v: Version)
    requires PaidIfTried(entries, mid, first, v) && PaidIfTried(mid, after, later, v) && !(first && later)
    ensures PaidIfTried(entries, after, first || later, v)
  {
  }

  lemma LoggedAttemptPays(entries: seq<Entry>, m: Version, a: Attempt, v: Version)
    requires Runnable(entries, m) && a.logged
    ensures PaidIfTried(entries, AfterAttempt(entries, m, a), v == m, v)
  {
    AttemptEffect(entries, m, a, v);
  }

  /** The version whose attempt the run could not record, if any; the run stops there. */
  function LostIn(toRun: seq<Version>, attempts: nat -> Attempt, first: nat): (r: Option<Version>)
    ensures r.Some? ==> r.value in toRun
    decreases toRun
  {
    if toRun == [] then None
    else if !attempts(first).logged then Some(toRun[0])
    else if GoesOn(attempts(first)) then LostIn(toRun[1..], attempts, first + 1)
    else None
  }

  /** The run attempts `v` and records it. */
  predicate Recorded(toRun: seq<Version>, attempts: nat -> Attempt, first: nat, v: Version) {
    v in toRun[..Attempted(toRun, attempts, first)] && LostIn(toRun, attempts, first) != Some(v)
  }

  /**
   * Over a run, each version attempted and recorded loses at least one remaining attempt; the others,
   * also one whose record was lost, keep their entries.
   */
  lemma {:induction false} RunEffect(entries: seq<Entry>, toRun: seq<Version>, attempts: nat -> Attempt, first: nat, v: Version)
    requires Order.Distinct(toRun) && AllRunnable(entries, toRun)
    ensures PaidIfTried(entries, AfterRunning(entries, toRun, attempts, first), Recorded(toRun, attempts, first, v), v)
    decreases toRun
  {
    if toRun != [] && attempts(first).logged {
      var m, a := toRun[0], attempts(first);
      var next := AfterAttempt(entries, m, a);
      assert m in toRun;
      LoggedAttemptPays(entries, m, a, v);
      if GoesOn(a) {
        RestStaysRunnable(entries, toRun, a);
        RunEffect(next, toRun[1..], attempts, first + 1, v);
        RecordedStep(toRun, attempts, first, v);
        PaidOnce(entries, next, AfterRunning(next, toRun[1..], attempts, first + 1), v == m,
                 Recorded(toRun[1..], attempts, first + 1, v), v);
      } else {
        assert toRun[..1] == [m];
      }
    }
  }

  lemma RecordedStep(toRun: seq<Version>, attempts: nat -> Attempt, first: nat, v: Version)
    requires toRun != [] && Order.Distinct(toRun) && GoesOn(attempts(first))
    ensures Recorded(toRun, attempts, first, v) <==> v == toRun[0] || Recorded(toRun[1..], attempts, first + 1, v)
    ensures !(v == toRun[0] && Recorded(toRun[1..], attempts, first + 1, v))
  {
    TriedStep(toRun, attempts, first, v);
  }

  lemma TriedStep(toRun: seq<Version>, attempts: nat -> Attempt, first: nat, v: Version)
    requires toRun != [] && Order.Distinct(toRun) && GoesOn(attempts(first))
    ensures v in toRun[..Attempted(toRun, attempts, first)] <==>
            v == toRun[0] || v in toRun[1..][..Attempted(toRun[1..], attempts, first + 1)]
    ensures !(v == toRun[0] && v in toRun[1..])
  {
  }

  lemma {:induction false} FilterDistinct(p: Version -> bool, vs: seq<Version>)
    requires Order.Distinct(vs)
    ensures Order.Distinct(Order.Filter(p, vs))
  {
    if vs != [] {
      FilterDistinct(p, vs[1..]);
      Order.FilterElements(p, vs[1..]);
      var rest := Order.Filter(p, vs[1..]);
      forall j | 0 <= j < |rest| ensures rest[j] != vs[0] {
        assert rest[j] in vs[1..];
      }
    }
  }

  /** Exactly the planned versions still to be done are run, each once. */
  lemma ToRunSpec(registry: seq<Version>, entries: seq<Entry>, scope: Scope)
    requires Order.Distinct(registry)
    ensures var toRun := ToRun(registry, entries, scope);
            && Order.Distinct(toRun) && AllRunnable(entries, toRun)
            && forall v :: v in toRun <==> v in registry && Planned(v, scope) && Runnable(entries, v)
  {
    var plan := PlanOf(registry, entries, scope);
    var partially, pending := WithStatus(entries, scope, PartiallyApplied), WithStatus(entries, scope, Pending);
    Order.FilterElements(partially, registry);
    Order.FilterElements(pending, registry);
    FilterDistinct(partially, registry);
    FilterDistinct(pending, registry);
    forall i, j | 0 <= i < |plan.partials| && 0 <= j < |plan.pending| ensures plan.partials[i] != plan.pending[j] {
      assert plan.partials[i] in plan.partials && plan.pending[j] in plan.pending;
    }
  }

  /** Of two versions filtered by status, both have it and they stand that way in the registry. */
  lemma SameStatusOrder(registry: seq<Version>, entries: seq<Entry>, scope: Scope, status: Status, i: nat, j: nat)
    requires i < j < |Order.Filter(WithStatus(entries, scope, status), registry)|
    ensures var f := Order.Filter(WithStatus(entries, scope, status), registry);
            StatusIn(entries, f[i]) == status && StatusIn(entries, f[j]) == status && Order.Before(registry, f[i], f[j])
  {
    Order.FilterKeepsOrder(WithStatus(entries, scope, status), registry, i, j);
    StatusOfFiltered(registry, entries, scope, status, i);
    StatusOfFiltered(registry, entries, scope, status, j);
  }

  lemma StatusOfFiltered(registry: seq<Version>, entries: seq<Entry>, scope: Scope, status: Status, i: nat)
    requires i < |Order.Filter(WithStatus(entries, scope, status), registry)|
    ensures StatusIn(entries, Order.Filter(WithStatus(entries, scope, status), registry)[i]) == status
  {
    var f := Order.Filter(WithStatus(entries, scope, status), registry);
    Order.FilterElements(WithStatus(entries, scope, status), registry);
    assert f[i] in f;
  }

  /** Of two versions run, the earlier is partial and the later pending, or they stand that way in the registry. */
  lemma ToRunOrder(registry: seq<Version>, entries: seq<Entry>, scope: Scope, i: nat, j: nat)
    requires i < j < |ToRun(registry, entries, scope)|
    ensures var v, w := ToRun(registry, entries, scope)[i], ToRun(registry, entries, scope)[j];
            if StatusIn(entries, v) == StatusIn(entries, w) then Order.Before(registry, v, w)
            else StatusIn(entries, v) == PartiallyApplied && StatusIn(entries, w) == Pending
  {
    var k := |PlanOf(registry, entries, scope).partials|;
    if j < k {
      SameStatusOrder(registry, entries, scope, PartiallyApplied, i, j);
    } else if k <= i {
      SameStatusOrder(registry, entries, scope, Pending, i - k, j - k);
    } else {
      StatusOfFiltered(registry, entries, scope, PartiallyApplied, i);
      StatusOfFiltered(registry, entries, scope, Pending, j - k);
    }
  }

  /** What is left to do, in registry order. */
  function ToDo(entries: seq<Entry>, scope: Scope): Version -> bool {
    (v: Version) => Planned(v, scope) && Runnable(entries, v)
  }

  /**
   * Versions run in registry order exactly when no pending version in scope stands before a partial one
   * in the registry.
   */
  lemma RegistryOrderExactly(registry: seq<Version>, entries: seq<Entry>, scope: Scope)
    ensures ToRun(registry, entries, scope) == Order.Filter(ToDo(entries, scope), registry) <==>
            Order.FirstsLead(WithStatus(entries, scope, PartiallyApplied), WithStatus(entries, scope, Pending), registry)
  {
    Order.FilterApartExactly(WithStatus(entries, scope, PartiallyApplied), WithStatus(entries, scope, Pending),
                             ToDo(entries, scope), registry);
  }

  lemma FilterPair(p: Version -> bool, v: Version, w: Version)
    ensures Order.Filter(p, [v, w]) == (if p(v) then [v] else []) + (if p(w) then [w] else [])
  {
    var one: seq<Version> := [w];
    assert [v, w][1..] == one && one[1..] == [];
    assert Order.Filter(p, one) == if p(w) then [w] else [];
  }

  lemma OnePartial(marks: seq<Mark>)
    requires marks == [Partial]
    ensures StatusOf(marks) == PartiallyApplied
  {
    assert marks[..0] == [] && TrailingPartials(marks[..0]) == 0;
    assert marks[0] == Partial;
  }

  lemma OneEntryStatus(v: Version, w: Version)
    requires v != w
    ensures StatusIn([Entry(w, Partial)], v) == Pending && StatusIn([Entry(w, Partial)], w) == PartiallyApplied
  {
    var none: seq<Entry> := [];
    assert MarksOf(none, v) == [] && MarksOf(none, w) == [];
    assert [Entry(w, Partial)] == none + [Entry(w, Partial)];
    MarksOfAppend(none, Entry(w, Partial), v);
    MarksOfAppend(none, Entry(w, Partial), w);
    OnePartial(MarksOf([Entry(w, Partial)], w));
  }

  /** It is not always so: with the second version begun and the first not, the second runs first. */
  lemma PartialOvertakesPending(v: Version, w: Version, scope: Scope)
    requires v != w && Planned(v, scope) && Planned(w, scope)
    ensures ToRun([v, w], [Entry(w, Partial)], scope) == [w, v]
  {
    var entries := [Entry(w, Partial)];
    OneEntryStatus(v, w);
    FilterPair(WithStatus(entries, scope, PartiallyApplied), v, w);
    FilterPair(WithStatus(entries, scope, Pending), v, w);
  }

  /** With its first write lost, a run leaves the ledger as it was; with it, never. */
  lemma ProgressExactly(registry: seq<Version>, entries: seq<Entry>, scope: Scope, attempts: nat -> Attempt)
    requires Order.Distinct(registry) && ToRun(registry, entries, scope) != []
    ensures AfterRunning(entries, ToRun(registry, entries, scope), attempts, 0) != entries <==> attempts(0).logged
  {
    var toRun := ToRun(registry, entries, scope);
    ToRunSpec(registry, entries, scope);
    assert toRun[0] in toRun;
    if attempts(0).logged {
      OutcomeIsWritten(entries, toRun[0], attempts(0));
      RunAppends(AfterAttempt(entries, toRun[0], attempts(0)), toRun[1..], attempts, 1);
    }
  }

  /** Nothing already in the ledger is ever removed. */
  lemma {:induction false} RunAppends(entries: seq<Entry>, toRun: seq<Version>, attempts: nat -> Attempt, first: nat)
    ensures entries <= AfterRunning(entries, toRun, attempts, first)
    decreases toRun
  {
    if toRun != [] {
      var next := AfterAttempt(entries, toRun[0], attempts(first));
      assert entries <= next;
      if GoesOn(attempts(first)) {
        RunAppends(next, toRun[1..], attempts, first + 1);
      }
    }
  }

  // ----- what an outcome does to the status -----

  /** The attempt lets the run go on: it finished, at least partially, and its record landed. */
  predicate Fine(a: Attempt) {
    a.logged && a.outcome in {Finished, FinishedPartially}
  }

  /** How far a run gets: every attempt but the last is fine, and the run fails and stops at the first that is not. */
  lemma {:induction false} AttemptedExactly(toRun: seq<Version>, attempts: nat -> Attempt, first: nat)
    ensures var end := first + Attempted(toRun, attempts, first);
            && (forall i: nat :: first <= i < end - 1 ==> Fine(attempts(i)))
            && (RunFailed(toRun, attempts, first) <==> end > first && !Fine(attempts(end - 1)))
            && (!RunFailed(toRun, attempts, first) ==> end == first + |toRun|)
    decreases toRun
  {
    if toRun != [] && GoesOn(attempts(first)) {
      AttemptedExactly(toRun[1..], attempts, first + 1);
    }
  }

  /** Two partials at the end. */
  predicate EndsInTwoPartials(marks: seq<Mark>) {
    |marks| >= 2 && marks[|marks| - 1] == Partial && marks[|marks| - 2] == Partial
  }

  lemma TwoPartialsCount(marks: seq<Mark>)
    ensures TrailingPartials(marks) >= 2 <==> EndsInTwoPartials(marks)
  {
    if marks != [] && marks[|marks| - 1] == Partial {
      var shorter := marks[..|marks| - 1];
      assert TrailingPartials(marks) == 1 + TrailingPartials(shorter);
    }
  }

  /** Finishing applies a version, and so does any outcome once it was complete; all else leaves it begun, or wedges it after two partials. */
  function StatusFor(outcome: Outcome, before: seq<Mark>): Status {
    if outcome == Finished || Complete in before then Applied
    else if EndsInTwoPartials(before) then Wedged
    else PartiallyApplied
  }

  lemma OneMorePartial(marks: seq<Mark>)
    ensures TrailingPartials(marks + [Partial]) == TrailingPartials(marks) + 1
  {
    assert (marks + [Partial])[..|marks|] == marks;
  }

  lemma MarkDecides(marks: seq<Mark>, outcome: Outcome)
    requires StatusOf(marks).Pending? || StatusOf(marks).PartiallyApplied?
    ensures StatusOf(marks + [MarkFor(outcome)]) == StatusFor(outcome, marks)
  {
    var mark := MarkFor(outcome);
    var longer := marks + [mark];
    assert longer[|marks|] == mark;
    assert Complete in longer <==> Complete in marks || mark == Complete;
    if mark == Partial {
      assert Partial in longer;
      OneMorePartial(marks);
      TwoPartialsCount(marks);
    }
  }

  lemma OutcomeDecides(entries: seq<Entry>, m: Version, a: Attempt)
    requires Runnable(entries, m) && a.logged
    ensures StatusIn(AfterAttempt(entries, m, a), m) == StatusFor(a.outcome, MarksOf(entries, m))
  {
    OutcomeIsWritten(entries, m, a);
    MarksOfAppend(entries, Entry(m, MarkFor(a.outcome)), m);
    MarkDecides(MarksOf(entries, m), a.outcome);
  }

  /** The attempt a run makes at `v`, if it gets there. */
  function AttemptOf(toRun: seq<Version>, attempts: nat -> Attempt, first: nat, v: Version): Option<Attempt>
    decreases toRun
  {
    if toRun == [] then None
    else if toRun[0] == v then Some(attempts(first))
    else if GoesOn(attempts(first)) then AttemptOf(toRun[1..], attempts, first + 1, v)
    else None
  }

  lemma {:induction false} AttemptOfAt(toRun: seq<Version>, attempts: nat -> Attempt, first: nat, i: nat)
    requires Order.Distinct(toRun) && first <= i < first + Attempted(toRun, attempts, first)
    ensures AttemptOf(toRun, attempts, first, toRun[i - first]) == Some(attempts(i))
    decreases toRun
  {
    if i > first {
      assert toRun[1..][i - (first + 1)] == toRun[i - first];
      AttemptOfAt(toRun[1..], attempts, first + 1, i);
    }
  }

  lemma {:induction false} AttemptedAt(toRun: seq<Version>, attempts: nat -> Attempt, first: nat, v: Version) returns (i: nat)
    requires AttemptOf(toRun, attempts, first, v).Some?
    ensures first <= i < first + Attempted(toRun, attempts, first)
    ensures toRun[i - first] == v && AttemptOf(toRun, attempts, first, v) == Some(attempts(i))
    decreases toRun
  {
    if toRun[0] == v {
      i := first;
    } else {
      i := AttemptedAt(toRun[1..], attempts, first + 1, v);
      assert toRun[1..][i - (first + 1)] == toRun[i - first];
    }
  }

  lemma {:induction false} AttemptsOnlyListed(toRun: seq<Version>, attempts: nat -> Attempt, first: nat, v: Version)
    requires v !in toRun
    ensures AttemptOf(toRun, attempts, first, v) == None
    decreases toRun
  {
    if toRun != [] {
      assert toRun[0] in toRun;
      AttemptsOnlyListed(toRun[1..], attempts, first + 1, v);
    }
  }

  predicate IsRecorded(a: Option<Attempt>) {
    a.Some? && a.value.logged
  }

  /** A run leaves alone what it does not attempt, or attempts without a record. */
  lemma {:induction false} RunLeaves(entries: seq<Entry>, toRun: seq<Version>, attempts: nat -> Attempt, first: nat, v: Version)
    requires !IsRecorded(AttemptOf(toRun, attempts, first, v))
    ensures MarksOf(AfterRunning(entries, toRun, attempts, first), v) == MarksOf(entries, v)
    decreases toRun
  {
    if toRun != [] {
      var m, a := toRun[0], attempts(first);
      var next := AfterAttempt(entries, m, a);
      MarksOfAppend(entries, Entry(m, MarkFor(a.outcome)), v);
      assert MarksOf(next, v) == MarksOf(entries, v);
      if GoesOn(a) {
        RunLeaves(next, toRun[1..], attempts, first + 1, v);
      }
    }
  }

  /** The first of a run: what follows leaves it alone. */
  lemma FirstDecides(entries: seq<Entry>, toRun: seq<Version>, attempts: nat -> Attempt, first: nat)
    requires toRun != [] && Order.Distinct(toRun) && AllRunnable(entries, toRun) && attempts(first).logged
    ensures StatusIn(AfterRunning(entries, toRun, attempts, first), toRun[0]) ==
            StatusFor(attempts(first).outcome, MarksOf(entries, toRun[0]))
  {
    var m, a := toRun[0], attempts(first);
    assert m in toRun;
    OutcomeDecides(entries, m, a);
    if GoesOn(a) {
      AttemptsOnlyListed(toRun[1..], attempts, first + 1, m);
      RunLeaves(AfterAttempt(entries, m, a), toRun[1..], attempts, first + 1, m);
    }
  }

  /** After the first attempt of a run the others stand as before. */
  lemma LaterStand(entries: seq<Entry>, toRun: seq<Version>, a: Attempt, v: Version)
    requires toRun != [] && Order.Distinct(toRun) && AllRunnable(entries, toRun) && v != toRun[0]
    ensures var next := AfterAttempt(entries, toRun[0], a);
            AllRunnable(next, toRun[1..]) && Order.Distinct(toRun[1..]) && MarksOf(next, v) == MarksOf(entries, v)
  {
    assert toRun[0] in toRun;
    RestStaysRunnable(entries, toRun, a);
    AttemptEffect(entries, toRun[0], a, v);
  }

  /** A recorded attempt decides the status its version has after the run. */
  lemma {:induction false} RunDecides(entries: seq<Entry>, toRun: seq<Version>, attempts: nat -> Attempt, first: nat, v: Version)
    requires Order.Distinct(toRun) && AllRunnable(entries, toRun) && IsRecorded(AttemptOf(toRun, attempts, first, v))
    ensures StatusIn(AfterRunning(entries, toRun, attempts, first), v) ==
            StatusFor(AttemptOf(toRun, attempts, first, v).value.outcome, MarksOf(entries, v))
    decreases toRun
  {
    if toRun[0] == v {
      FirstDecides(entries, toRun, attempts, first);
    } else {
      LaterStand(entries, toRun, attempts(first), v);
      RunDecides(AfterAttempt(entries, toRun[0], attempts(first)), toRun[1..], attempts, first + 1, v);
    }
  }

  /**
   * After a run each version attempted and recorded is applied exactly when its orchestrator finished or an earlier
   * entry of it is complete. Otherwise a partial finish, a reported failure or an exception leaves it begun, or wedged
   * if it was the third in a row. Every other version, also one whose record was lost, has the status it had.
   */
  lemma StatusAfterRun(registry: seq<Version>, entries: seq<Entry>, scope: Scope, attempts: nat -> Attempt, v: Version)
    requires Order.Distinct(registry)
    ensures var toRun := ToRun(registry, entries, scope);
            var n, end := Attempted(toRun, attempts, 0), StatusIn(AfterRunning(entries, toRun, attempts, 0), v);
            && (forall i: nat :: i < n && toRun[i] == v && attempts(i).logged ==>
                  && (end == Applied <==> attempts(i).outcome == Finished || Complete in MarksOf(entries, v))
                  && (end != Applied ==> end == if EndsInTwoPartials(MarksOf(entries, v)) then Wedged else PartiallyApplied))
            && ((forall i: nat :: i < n && toRun[i] == v ==> !attempts(i).logged) ==> end == StatusIn(entries, v))
  {
    var toRun := ToRun(registry, entries, scope);
    ToRunSpec(registry, entries, scope);
    forall i: nat | i < Attempted(toRun, attempts, 0) && toRun[i] == v
      ensures AttemptOf(toRun, attempts, 0, v) == Some(attempts(i))
    {
      AttemptOfAt(toRun, attempts, 0, i);
    }
    if IsRecorded(AttemptOf(toRun, attempts, 0, v)) {
      RunDecides(entries, toRun, attempts, 0, v);
      var i := AttemptedAt(toRun, attempts, 0, v);
    } else {
      RunLeaves(entries, toRun, attempts, 0, v);
    }
  }

  /** A completed version forced to retry, whose new attempt throws, is applied again: no later run comes back to it. */
  lemma FailedRetryIsApplied(v: Version, entries: seq<Entry>, attempts: nat -> Attempt)
    requires entries == [Entry(v, Complete)] && attempts(0) == Attempt(Threw, true)
    ensures var forced, all := entries + [Entry(v, Retry)], Scope((w: Version) => false, None);
            && ToRun([v], forced, all) == [v]
            && StatusIn(AfterRunning(forced, [v], attempts, 0), v) == Applied
  {
    var forced, all := entries + [Entry(v, Retry)], Scope((w: Version) => false, None);
    ForceRetryMakesPending(entries, v, v);
    MarksOfAppend(entries, Entry(v, Retry), v);
    CompleteOnRecord(v, entries);
    FilterOne(WithStatus(forced, all, PartiallyApplied), v);
    FilterOne(WithStatus(forced, all, Pending), v);
    assert [v][0] == v && AllRunnable(forced, [v]);
    FirstDecides(forced, [v], attempts, 0);
  }

  lemma CompleteOnRecord(v: Version, entries: seq<Entry>)
    requires entries == [Entry(v, Complete)]
    ensures MarksOf(entries, v) == [Complete]
  {
    var none: seq<Entry> := [];
    assert entries == none + [Entry(v, Complete)] && MarksOf(none, v) == [];
    MarksOfAppend(none, Entry(v, Complete), v);
  }

  lemma FilterOne(p: Version -> bool, v: Version)
    ensures Order.Filter(p, [v]) == if p(v) then [v] else []
  {
  }

  // ----- the status, the plan and the guard -----

  /** A version is wedged exactly after three partials in a row, with no complete ever. */
  lemma WedgedExactly(marks: seq<Mark>)
    ensures StatusOf(marks) == Wedged <==>
            Complete !in marks && |marks| >= 3 && marks[|marks| - 3] == Partial && EndsInTwoPartials(marks)
  {
    if EndsInTwoPartials(marks) {
      var k := |marks| - 2;
      assert marks[..k + 1][..k] == marks[..k];
      assert TrailingPartials(marks) == 1 + TrailingPartials(marks[..k + 1]);
      assert TrailingPartials(marks[..k + 1]) == 1 + TrailingPartials(marks[..k]);
    } else {
      TwoPartialsCount(marks);
    }
  }

  predicate EndsInTwoCompletes(marks: seq<Mark>) {
    |marks| >= 2 && marks[|marks| - 1] == Complete && marks[|marks| - 2] == Complete
  }

  /** The guard drops an entry only when it would be a second `complete` in a row, and always then. */
  lemma GuardExactly(entries: seq<Entry>, e: Entry, v: Version)
    ensures Appended(entries, e) == entries <==> EndsInTwoCompletes(MarksOf(entries + [e], e.version)) && e.mark == Complete
    ensures Appended(entries, e) == entries || Appended(entries, e) == entries + [e]
    ensures !EndsInTwoCompletes(MarksOf(entries, v)) ==> !EndsInTwoCompletes(MarksOf(Appended(entries, e), v))
    ensures e.mark == Complete && StatusIn(entries, e.version) != Pending ==> StatusIn(Appended(entries, e), e.version) == Applied
  {
    MarksOfAppend(entries, e, e.version);
    MarksOfAppend(entries, e, v);
    var marks := MarksOf(entries, e.version);
    assert (marks + [e.mark])[|marks|] == e.mark;
  }

  /** The plan takes each registered version that is asked about: the newer ones aside, the others by their status. */
  lemma PlanExactly(registry: seq<Version>, entries: seq<Entry>, scope: Scope, v: Version)
    ensures var plan := PlanOf(registry, entries, scope);
            var asked := v in registry && (scope.only == None || scope.only == Some(v));
            && (v in plan.skippedFuture <==> asked && scope.isFuture(v))
            && (v in plan.applied <==> asked && !scope.isFuture(v) && StatusIn(entries, v) == Applied)
            && (v in plan.partials <==> asked && !scope.isFuture(v) && StatusIn(entries, v) == PartiallyApplied)
            && (v in plan.pending <==> asked && !scope.isFuture(v) && StatusIn(entries, v) == Pending)
            && (v in plan.wedged <==> asked && !scope.isFuture(v) && StatusIn(entries, v) == Wedged)
  {
    Order.FilterElements(WithStatus(entries, scope, Applied), registry);
    Order.FilterElements(WithStatus(entries, scope, PartiallyApplied), registry);
    Order.FilterElements(WithStatus(entries, scope, Pending), registry);
    Order.FilterElements(WithStatus(entries, scope, Wedged), registry);
    Order.FilterElements(Future(scope), registry);
  }

  // ----- repeated runs -----

  /** One run after the other: run `i` meets the attempts `runs(i)`. */
  function Run(registry: seq<Version>, scope: Scope, runs: nat -> (nat -> Attempt)): (seq<Entry>, nat) -> seq<Entry> {
    (entries: seq<Entry>, i: nat) => AfterRunning(entries, ToRun(registry, entries, scope), runs(i), 0)
  }

  function NothingToRun(registry: seq<Version>, scope: Scope): seq<Entry> -> bool {
    (entries: seq<Entry>) => ToRun(registry, entries, scope) == []
  }

  function TotalRemaining(registry: seq<Version>, entries: seq<Entry>): nat {
    if registry == [] then 0 else RemainingOf(entries, registry[0]) + TotalRemaining(registry[1..], entries)
  }

  function TotalOver(registry: seq<Version>): seq<Entry> -> nat {
    (entries: seq<Entry>) => TotalRemaining(registry, entries)
  }

  function Anything(): seq<Entry> -> bool {
    (entries: seq<Entry>) => true
  }

  lemma {:induction false} TotalAtMost(registry: seq<Version>, entries: seq<Entry>)
    ensures TotalRemaining(registry, entries) <= MAX_CONSECUTIVE_PARTIALS * |registry|
  {
    if registry != [] {
      RemainingExactly(MarksOf(entries, registry[0]));
      TotalAtMost(registry[1..], entries);
    }
  }

  lemma {:induction false} TotalFalls(registry: seq<Version>, entries: seq<Entry>, after: seq<Entry>, m: Version)
    requires forall v :: RemainingOf(after, v) <= RemainingOf(entries, v)
    requires RemainingOf(after, m) < RemainingOf(entries, m)
    ensures TotalRemaining(registry, after) <= TotalRemaining(registry, entries)
    ensures m in registry ==> TotalRemaining(registry, after) < TotalRemaining(registry, entries)
  {
    if registry != [] {
      TotalFalls(registry[1..], entries, after, m);
    }
  }

  /** A run never raises the measure, and lowers it exactly when it has work and its first write lands. */
  lemma RunLowersTotal(registry: seq<Version>, entries: seq<Entry>, scope: Scope, attempts: nat -> Attempt)
    requires Order.Distinct(registry)
    ensures var toRun := ToRun(registry, entries, scope);
            var before, after := TotalRemaining(registry, entries),
                                 TotalRemaining(registry, AfterRunning(entries, toRun, attempts, 0));
            after <= before && (after < before <==> toRun != [] && attempts(0).logged)
  {
    var toRun := ToRun(registry, entries, scope);
    var after := AfterRunning(entries, toRun, attempts, 0);
    ToRunSpec(registry, entries, scope);
    if toRun != [] && attempts(0).logged {
      forall v ensures RemainingOf(after, v) <= RemainingOf(entries, v) {
        RunEffect(entries, toRun, attempts, 0, v);
      }
      FirstIsRecorded(toRun, attempts);
      assert toRun[0] in toRun;
      RunEffect(entries, toRun, attempts, 0, toRun[0]);
      TotalFalls(registry, entries, after, toRun[0]);
    }
  }

  lemma FirstIsRecorded(toRun: seq<Version>, attempts: nat -> Attempt)
    requires toRun != [] && Order.Distinct(toRun) && attempts(0).logged
    ensures Recorded(toRun, attempts, 0, toRun[0])
  {
    assert toRun[0] in toRun[..Attempted(toRun, attempts, 0)];
  }

  /** How many of `k` runs have work. */
  function BusyRuns(registry: seq<Version>, entries: seq<Entry>, scope: Scope, runs: nat -> (nat -> Attempt),
                    start: nat, k: nat): nat
    decreases k
  {
    if k == 0 then 0
    else
      var toRun := ToRun(registry, entries, scope);
      (if toRun != [] then 1 else 0) +
      BusyRuns(registry, AfterRunning(entries, toRun, runs(start), 0), scope, runs, start + 1, k - 1)
  }

  /** How many of those lose their first write, and with it the whole run. */
  function LostRuns(registry: seq<Version>, entries: seq<Entry>, scope: Scope, runs: nat -> (nat -> Attempt),
                    start: nat, k: nat): nat
    decreases k
  {
    if k == 0 then 0
    else
      var toRun := ToRun(registry, entries, scope);
      (if toRun != [] && !runs(start)(0).logged then 1 else 0) +
      LostRuns(registry, AfterRunning(entries, toRun, runs(start), 0), scope, runs, start + 1, k - 1)
  }

  /**
   * Whatever the orchestrators do and whichever writes are lost: the runs with work number at most three
   * for each registered version, and one for each run that loses its first write.
   */
  lemma {:induction false} BusyRunsBounded(registry: seq<Version>, entries: seq<Entry>, scope: Scope,
                                           runs: nat -> (nat -> Attempt), start: nat, k: nat)
    requires Order.Distinct(registry)
    ensures BusyRuns(registry, entries, scope, runs, start, k)
            <= TotalRemaining(registry, entries) + LostRuns(registry, entries, scope, runs, start, k)
    ensures TotalRemaining(registry, entries) <= MAX_CONSECUTIVE_PARTIALS * |registry|
    decreases k
  {
    TotalAtMost(registry, entries);
    if k > 0 {
      RunLowersTotal(registry, entries, scope, runs(start));
      BusyRunsBounded(registry, AfterRunning(entries, ToRun(registry, entries, scope), runs(start), 0), scope, runs, start + 1, k - 1);
    }
  }

  /**
   * If every run's first write lands, runs end: after at most three times as many as there are versions,
   * every planned version is applied or wedged.
   */
  lemma RunsEnd(registry: seq<Version>, entries: seq<Entry>, scope: Scope, runs: nat -> (nat -> Attempt))
    returns (k: nat)
    requires Order.Distinct(registry) && forall i: nat :: runs(i)(0).logged
    ensures k <= MAX_CONSECUTIVE_PARTIALS * |registry|
    ensures var end := Iterate(Run(registry, scope, runs), entries, 0, k);
            forall v :: v in registry && Planned(v, scope) ==> StatusIn(end, v).Applied? || StatusIn(end, v).Wedged?
  {
    forall es, i: nat | !NothingToRun(registry, scope)(es)
      ensures TotalOver(registry)(Run(registry, scope, runs)(es, i)) < TotalOver(registry)(es)
    {
      RunLowersTotal(registry, es, scope, runs(i));
    }
    k := Reaches(Run(registry, scope, runs), Anything(), NothingToRun(registry, scope), TotalOver(registry), entries, 0);
    TotalAtMost(registry, entries);
    var end := Iterate(Run(registry, scope, runs), entries, 0, k);
    ToRunSpec(registry, end, scope);
    forall v | v in registry && Planned(v, scope) ensures StatusIn(end, v).Applied? || StatusIn(end, v).Wedged? {
      assert v !in ToRun(registry, end, scope);
    }
  }

  /** How often `k` runs attempt `v`. */
  function TimesTried(registry: seq<Version>, entries: seq<Entry>, scope: Scope, runs: nat -> (nat -> Attempt),
                      start: nat, k: nat, v: Version): nat
    decreases k
  {
    if k == 0 then 0
    else
      Tries(ToRun(registry, entries, scope), runs(start), v) +
      TimesTried(registry, Run(registry, scope, runs)(entries, start), scope, runs, start + 1, k - 1, v)
  }

  /** Whether the run attempts `v` and loses the record of it. */
  function Loses(toRun: seq<Version>, attempts: nat -> Attempt, v: Version): nat {
    if LostIn(toRun, attempts, 0) == Some(v) then 1 else 0
  }

  function TimesLost(registry: seq<Version>, entries: seq<Entry>, scope: Scope, runs: nat -> (nat -> Attempt),
                     start: nat, k: nat, v: Version): nat
    decreases k
  {
    if k == 0 then 0
    else
      Loses(ToRun(registry, entries, scope), runs(start), v) +
      TimesLost(registry, Run(registry, scope, runs)(entries, start), scope, runs, start + 1, k - 1, v)
  }

  /** An attempt is paid for, or its record is lost. */
  lemma TriedCosts(registry: seq<Version>, entries: seq<Entry>, scope: Scope, attempts: nat -> Attempt, v: Version)
    requires Order.Distinct(registry)
    ensures var toRun := ToRun(registry, entries, scope);
            Tries(toRun, attempts, v) + RemainingOf(AfterRunning(entries, toRun, attempts, 0), v)
            <= RemainingOf(entries, v) + Loses(toRun, attempts, v)
  {
    ToRunSpec(registry, entries, scope);
    RunEffect(entries, ToRun(registry, entries, scope), attempts, 0, v);
  }

  lemma {:induction false} TriesBounded(registry: seq<Version>, entries: seq<Entry>, scope: Scope,
                                        runs: nat -> (nat -> Attempt), start: nat, k: nat, v: Version)
    requires Order.Distinct(registry)
    ensures TimesTried(registry, entries, scope, runs, start, k, v)
            <= RemainingOf(entries, v) + TimesLost(registry, entries, scope, runs, start, k, v)
    decreases k
  {
    if k > 0 {
      TriedCosts(registry, entries, scope, runs(start), v);
      TriesBounded(registry, Run(registry, scope, runs)(entries, start), scope, runs, start + 1, k - 1, v);
    }
  }

  /** However many runs there are, a version is attempted at most three times, and once more per record lost. */
  lemma AtMostThreeTries(registry: seq<Version>, entries: seq<Entry>, scope: Scope,
                         runs: nat -> (nat -> Attempt), start: nat, k: nat, v: Version)
    requires Order.Distinct(registry)
    ensures var lost := TimesLost(registry, entries, scope, runs, start, k, v);
            TimesTried(registry, entries, scope, runs, start, k, v) <= RemainingOf(entries, v) + lost <= 3 + lost
  {
    TriesBounded(registry, entries, scope, runs, start, k, v);
    RemainingExactly(MarksOf(entries, v));
  }

  /** Without its records a version is attempted for ever: every run repeats the first. */
  lemma {:induction false} LostWritesRepeat(registry: seq<Version>, entries: seq<Entry>, scope: Scope,
                                            runs: nat -> (nat -> Attempt), start: nat, k: nat)
    requires ToRun(registry, entries, scope) != [] && forall i: nat :: !runs(i)(0).logged
    ensures TimesTried(registry, entries, scope, runs, start, k, ToRun(registry, entries, scope)[0]) == k
    ensures Iterate(Run(registry, scope, runs), entries, start, k) == entries
    decreases k
  {
    if k > 0 {
      var toRun := ToRun(registry, entries, scope);
      assert toRun[..1] == [toRun[0]];
      assert Run(registry, scope, runs)(entries, start) == entries;
      LostWritesRepeat(registry, entries, scope, runs, start + 1, k - 1);
    }
  }

  // ----- the force flags -----

  predicate EndsInRetry(marks: seq<Mark>) {
    marks != [] && marks[|marks| - 1] == Retry
  }

  /** A retry at the end stays at the end, and unlisted or unwedged versions are not touched. */
  lemma {:induction false} ForceMarks(entries: seq<Entry>, seen: seq<Entry>, registry: seq<Version>, v: Version)
    ensures var before, after := MarksOf(entries, v), MarksOf(AfterForce(entries, seen, registry), v);
            && (v in registry && StatusIn(seen, v) == Wedged ==> EndsInRetry(after))
            && (v !in registry || StatusIn(seen, v) != Wedged ==> after == before)
            && (EndsInRetry(before) ==> EndsInRetry(after))
    decreases registry
  {
    if registry != [] {
      var m := registry[0];
      if StatusIn(seen, m) == Wedged {
        MarksOfAppend(entries, Entry(m, Retry), v);
        ForceMarks(entries + [Entry(m, Retry)], seen, registry[1..], v);
      } else {
        ForceMarks(entries, seen, registry[1..], v);
      }
    }
  }

  /** The force pass moves exactly the wedged registered versions to pending and leaves every other status alone. */
  lemma ForceUnwedgesExactly(entries: seq<Entry>, registry: seq<Version>, v: Version)
    ensures StatusIn(AfterForce(entries, entries, registry), v) ==
            if v in registry && StatusIn(entries, v) == Wedged then Pending else StatusIn(entries, v)
  {
    ForceMarks(entries, entries, registry, v);
    var after := MarksOf(AfterForce(entries, entries, registry), v);
    assert EndsInRetry(after) ==> StatusOf(after) == Pending;
  }

  /** `--force-retry` makes its version pending, even a complete one, and touches no other. */
  lemma ForceRetryMakesPending(entries: seq<Entry>, version: Version, v: Version)
    ensures StatusIn(entries + [Entry(version, Retry)], v) == if v == version then Pending else StatusIn(entries, v)
  {
    MarksOfAppend(entries, Entry(version, Retry), v);
  }
}
