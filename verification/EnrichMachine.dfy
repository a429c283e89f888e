/** The enrich run cut into its smallest steps, so that a crash may fall between any two of them. */
module EnrichMachine {
  import opened Common
  import opened Enrich
  import opened Iteration

  /**
   * Where the run stands with the page `left[0]`: not claimed; worked on, with the work durable but memory unaware;
   * noted in memory, the flush still to be considered; the flush under way. Then the last write, the clear, the end.
   */
  datatype Stage = Ready | Worked | Kept | Writing | Closing(clean: bool) | Clearing | Over

  /**
   * The run with its history: the pages ever completed since the checkpoint was last cleared, how often a completed
   * page was completed again, how many writes failed in all, and how many since the last that landed.
   */
  datatype Machine = Machine(run: Run, left: seq<string>, stage: Stage,
                             completed: set<string>, again: nat, failed: nat, since: nat)

  predicate Due(r: Run, x: Setting) {
    !x.dryRun && |r.done| - r.lastFlush >= CHECKPOINT_FLUSH_EVERY
  }

  function Written(m: Machine, x: Setting): Machine {
    var landed := x.lands(m.run.writes);
    m.(run := Record(m.run, x),
       failed := if landed then m.failed else m.failed + 1,
       since := if landed then 0 else m.since + 1)
  }

  function Finished(m: Machine, page: string): Machine {
    m.(completed := m.completed + {page}, again := if page in m.completed then m.again + 1 else m.again)
  }

  function Step(m: Machine, x: Setting, abort: Option<nat>): Machine {
    match m.stage
    case Ready =>
      if m.left == [] then m.(stage := if x.dryRun then Over else Closing(abort.None?))
      else (if Completes(x.world(m.left[0]), x.dryRun) then Finished(m, m.left[0]) else m).(stage := Worked)
    case Worked =>
      if m.left == [] then m else m.(run := Noted(m.run, m.left[0], x), stage := Kept)
    case Kept =>
      if m.left == [] then m
      else (match EndingOf(x.world(m.left[0]), x.dryRun)
            case OutOfBudget => m.(run := m.run.(c := Unreported(m.run.c)), stage := Closing(false))
            case Returned =>
              if Due(m.run, x) then m.(run := m.run.(lastFlush := |m.run.done|), stage := Writing)
              else m.(left := m.left[1..], stage := Ready)
            case Threw => m.(left := m.left[1..], stage := Ready))
    case Writing =>
      if m.left == [] then m else Written(m, x).(left := m.left[1..], stage := Ready)
    case Closing(clean) => Written(m, x).(stage := if clean then Clearing else Over)
    case Clearing => m.(run := m.run.(stored := {}), completed := {}, stage := Over)
    case Over => m
  }

  function Stepping(x: Setting, abort: Option<nat>): Machine -> Machine {
    m => Step(m, x, abort)
  }

  function Steps(m: Machine, x: Setting, abort: Option<nat>, k: nat): Machine {
    Advance(Stepping(x, abort), m, k)
  }

  /** What outlives a process. */
  datatype Disk = Disk(stored: set<string>, completed: set<string>, again: nat, failed: nat, crashes: nat)

  /** One invocation and how many steps it gets before the process dies. */
  datatype Session = Session(candidates: seq<string>, x: Setting, force: bool, abort: Option<nat>, steps: nat)

  function Started(d: Disk, s: Session): Machine {
    if s.candidates == [] then Machine(Fresh(d.stored, false).(done := {}), [], Over, d.completed, d.again, d.failed, 0)
    else
      var start := Fresh(d.stored, s.force);
      Machine(start, Claimed(Unfinished(s.candidates, start.done), s.abort), Ready,
              if s.force then {} else d.completed, d.again, d.failed, 0)
  }

  function Played(d: Disk, s: Session): Machine {
    Steps(Started(d, s), s.x, s.abort, s.steps)
  }

  /** A session that does not get to its end has crashed. */
  function After(d: Disk, s: Session): Disk {
    var m := Played(d, s);
    Disk(m.run.stored, m.completed, m.again, m.failed, if m.stage.Over? then d.crashes else d.crashes + 1)
  }

  function History(sessions: seq<Session>): Disk {
    if sessions == [] then Disk({}, {}, 0, 0, 0)
    else After(History(sessions[..|sessions| - 1]), sessions[|sessions| - 1])
  }

  // ----- uninterrupted, the steps are the run -----

  lemma StepsAdd(m: Machine, x: Setting, abort: Option<nat>, j: nat, k: nat)
    ensures Steps(m, x, abort, j + k) == Steps(Steps(m, x, abort, j), x, abort, k)
  {
    AdvanceAdd(Stepping(x, abort), m, j, k);
  }

  lemma OverStays(m: Machine, x: Setting, abort: Option<nat>, k: nat)
    requires m.stage.Over?
    ensures Steps(m, x, abort, k) == m
    decreases k
  {
    if k > 0 {
      OverStays(m, x, abort, k - 1);
    }
  }

  /** One page takes three or four steps and leaves what `OnItem` leaves. */
  lemma ItemSteps(m: Machine, x: Setting, abort: Option<nat>) returns (k: nat)
    requires m.stage.Ready? && m.left != []
    ensures var e := EndingOf(x.world(m.left[0]), x.dryRun);
            var after := Steps(m, x, abort, k);
            var next := OnItem(m.run, m.left[0], x);
            if e == OutOfBudget then after.stage == Closing(false) && after.run == next.(c := Unreported(next.c))
            else after.stage == Ready && after.left == m.left[1..] && after.run == next
  {
    var e := EndingOf(x.world(m.left[0]), x.dryRun);
    var a := Step(m, x, abort);
    var b := Step(a, x, abort);
    var c := Step(b, x, abort);
    assert b.stage == Kept && b.left == m.left && b.run == Noted(m.run, m.left[0], x);
    StepsAdd(m, x, abort, 1, 1);
    StepsAdd(m, x, abort, 2, 1);
    assert Steps(m, x, abort, 1) == a && Steps(a, x, abort, 1) == b && Steps(b, x, abort, 1) == c;
    if e == Returned && Due(b.run, x) {
      StepsAdd(m, x, abort, 3, 1);
      assert Steps(c, x, abort, 1) == Step(c, x, abort);
      k := 4;
    } else {
      k := 3;
    }
  }

  lemma StopsFirst(pages: seq<string>, x: Setting)
    requires pages != []
    ensures StopsOnBudget(pages, x) <==> EndingOf(x.world(pages[0]), x.dryRun) == OutOfBudget || StopsOnBudget(pages[1..], x)
  {
  }

  lemma {:induction false} PoolSteps(m: Machine, x: Setting, abort: Option<nat>) returns (k: nat)
    requires m.stage.Ready?
    ensures var after := Steps(m, x, abort, k);
            var r := Pool(m.run, m.left, x);
            if StopsOnBudget(m.left, x) then after.stage == Closing(false) && after.run == r.(c := Unreported(r.c))
            else after.stage == Ready && after.left == [] && after.run == r
    decreases m.left
  {
    if m.left == [] {
      k := 0;
    } else {
      StopsFirst(m.left, x);
      var j := ItemSteps(m, x, abort);
      var next := Steps(m, x, abort, j);
      if EndingOf(x.world(m.left[0]), x.dryRun) == OutOfBudget {
        k := j;
      } else {
        var rest := PoolSteps(next, x, abort);
        StepsAdd(m, x, abort, j, rest);
        k := j + rest;
      }
    }
  }

  lemma CloseSteps(m: Machine, x: Setting, abort: Option<nat>) returns (k: nat)
    requires m.stage.Closing?
    ensures var after := Steps(m, x, abort, k);
            && after.stage.Over?
            && after.run == if m.stage.clean then Record(m.run, x).(stored := {}) else Record(m.run, x)
  {
    var a := Step(m, x, abort);
    assert Steps(m, x, abort, 1) == a;
    if m.stage.clean {
      StepsAdd(m, x, abort, 1, 1);
      assert Steps(a, x, abort, 1) == Step(a, x, abort);
      k := 2;
    } else {
      k := 1;
    }
  }

  lemma FinishSteps(m: Machine, x: Setting, abort: Option<nat>) returns (k: nat)
    requires m.stage.Ready? && m.left == []
    ensures var after := Steps(m, x, abort, k);
            && after.stage.Over?
            && after.run == if x.dryRun then m.run
                            else if abort.Some? then Record(m.run, x) else Record(m.run, x).(stored := {})
  {
    var a := Step(m, x, abort);
    assert Steps(m, x, abort, 1) == a;
    if x.dryRun {
      k := 1;
    } else {
      var rest := CloseSteps(a, x, abort);
      StepsAdd(m, x, abort, 1, rest);
      k := 1 + rest;
    }
  }

  /** Given enough steps, a session ends where the run ends, and stays there. */
  lemma StepsRefineCore(d: Disk, s: Session) returns (enough: nat)
    ensures forall k: nat :: k >= enough ==>
      var m := Steps(Started(d, s), s.x, s.abort, k);
      m.stage.Over? && m.run == Core(d.stored, s.candidates, s.x, s.force, s.abort)
  {
    var m := Started(d, s);
    enough := 0;
    if s.candidates != [] {
      var j := PoolSteps(m, s.x, s.abort);
      var n := Steps(m, s.x, s.abort, j);
      var i;
      if StopsOnBudget(m.left, s.x) {
        i := CloseSteps(n, s.x, s.abort);
      } else {
        i := FinishSteps(n, s.x, s.abort);
      }
      StepsAdd(m, s.x, s.abort, j, i);
      enough := j + i;
    }
    forall k: nat | k >= enough
      ensures Steps(m, s.x, s.abort, k) == Steps(m, s.x, s.abort, enough)
    {
      StepsAdd(m, s.x, s.abort, enough, k - enough);
      OverStays(Steps(m, s.x, s.abort, enough), s.x, s.abort, k - enough);
    }
  }
}
