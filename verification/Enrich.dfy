/** The checkpointed enrich run with one worker (src/commands/enrich.ts, src/core/worker-pool.ts, src/core/op-checkpoint.ts). */
module Enrich {
  import opened Common

  const CHECKPOINT_FLUSH_EVERY: nat := 25

  // ----- one page -----

  /** What synthesis and the write do for a page that is grounded. */
  datatype Synthesis = SynthesisThrows | OverBudget | SaysNothing | WriteThrows | Writes

  /** What the world holds for a page when its turn comes. */
  datatype World = LockHeld | LookupThrows | Gone | NotGrounded | Grounded(synthesis: Synthesis)

  datatype Counters = Counters(enriched: nat, insufficient: nat, lockSkipped: nat, disappeared: nat, wouldEnrich: nat, errored: nat)

  /** How work on a page ends: returning, throwing an ordinary error, or throwing the error that stops the pool. */
  datatype Ending = Returned | Threw | OutOfBudget

  function EndingOf(world: World, dryRun: bool): Ending {
    match world
    case LookupThrows => Threw
    case Grounded(synthesis) =>
      if dryRun then Returned
      else (match synthesis
            case SynthesisThrows => Threw
            case OverBudget => OutOfBudget
            case WriteThrows => Threw
            case _ => Returned)
    case _ => Returned
  }

  /** The page counts as completed and is not looked at again by a resumed run. */
  predicate Completes(world: World, dryRun: bool) {
    !dryRun && (world.NotGrounded? || (world.Grounded? && (world.synthesis.SaysNothing? || world.synthesis.Writes?)))
  }

  function Count(c: Counters, world: World, dryRun: bool): Counters {
    match world
    case LockHeld => c.(lockSkipped := c.lockSkipped + 1)
    case LookupThrows => c.(errored := c.errored + 1)
    case Gone => c.(disappeared := c.disappeared + 1)
    case NotGrounded => c.(insufficient := c.insufficient + 1)
    case Grounded(synthesis) =>
      if dryRun then c.(wouldEnrich := c.wouldEnrich + 1)
      else (match synthesis
            case SaysNothing => c.(insufficient := c.insufficient + 1)
            case Writes => c.(enriched := c.enriched + 1)
            case _ => c.(errored := c.errored + 1))
  }

  // ----- the run as functions -----

  /** In memory: counters, completed keys, size at the last flush. In the store: the checkpoint, and how many writes it has seen. */
  datatype Run = Run(c: Counters, done: set<string>, lastFlush: nat, stored: set<string>, writes: nat)

  /** What a run meets: the world page by page, whether it is a dry run, and which checkpoint writes land. */
  datatype Setting = Setting(world: string -> World, dryRun: bool, lands: nat -> bool)

  /** `recordCompleted` replaces the stored set, or fails without an error. */
  function Record(r: Run, x: Setting): Run {
    r.(stored := if x.lands(r.writes) then r.done else r.stored, writes := r.writes + 1)
  }

  /** The check after each page that returned. */
  function MaybeFlush(r: Run, x: Setting): Run {
    if !x.dryRun && |r.done| - r.lastFlush >= CHECKPOINT_FLUSH_EVERY then Record(r.(lastFlush := |r.done|), x) else r
  }

  function Noted(r: Run, page: string, x: Setting): Run {
    r.(c := Count(r.c, x.world(page), x.dryRun),
       done := if Completes(x.world(page), x.dryRun) then r.done + {page} else r.done)
  }

  function OnItem(r: Run, page: string, x: Setting): Run {
    var noted := Noted(r, page, x);
    if EndingOf(x.world(page), x.dryRun) == Returned then MaybeFlush(noted, x) else noted
  }

  /** The pool with one worker: pages in order, stopping after the page that exhausts the budget. */
  function Pool(r: Run, pages: seq<string>, x: Setting): Run
    decreases pages
  {
    if pages == [] then r
    else
      var next := OnItem(r, pages[0], x);
      if EndingOf(x.world(pages[0]), x.dryRun) == OutOfBudget then next else Pool(next, pages[1..], x)
  }

  predicate StopsOnBudget(pages: seq<string>, x: Setting) {
    exists i :: 0 <= i < |pages| && EndingOf(x.world(pages[i]), x.dryRun) == OutOfBudget
  }

  function Unfinished(candidates: seq<string>, done: set<string>): seq<string> {
    if candidates == [] then []
    else (if candidates[0] in done then [] else [candidates[0]]) + Unfinished(candidates[1..], done)
  }

  function Fresh(stored: set<string>, force: bool): Run {
    var kept := if force then {} else stored;
    Run(Counters(0, 0, 0, 0, 0, 0), kept, 0, kept, 0)
  }

  /** The pages claimed before the caller aborts, if it does. */
  function Claimed(pending: seq<string>, abort: Option<nat>): seq<string> {
    if abort.Some? && abort.value < |pending| then pending[..abort.value] else pending
  }

  /** A pool that throws never hands its error count to the result. */
  function Unreported(c: Counters): Counters {
    c.(errored := 0)
  }

  /** A whole run; the caller may abort once some number of pages is claimed. */
  function Core(stored: set<string>, candidates: seq<string>, x: Setting, force: bool, abort: Option<nat>): Run {
    if candidates == [] then Fresh(stored, false).(done := {})
    else
      var start := Fresh(stored, force);
      var claimed := Claimed(Unfinished(candidates, start.done), abort);
      var r := Pool(start, claimed, x);
      if StopsOnBudget(claimed, x) then Record(r.(c := Unreported(r.c)), x)
      else if x.dryRun then r
      else if abort.Some? then Record(r, x)
      else Record(r, x).(stored := {})
  }

  // ----- the run as it updates its state -----

  class EnrichRun {
    var c: Counters
    var done: set<string>
    var lastFlush: nat
    var stored: set<string>
    var writes: nat

    ghost function Now(): Run
      reads this
    {
      Run(c, done, lastFlush, stored, writes)
    }

    constructor (checkpoint: set<string>)
      ensures stored == checkpoint
    {
      stored := checkpoint;
      c, done, lastFlush, writes := Counters(0, 0, 0, 0, 0, 0), {}, 0, 0;
    }

    method RecordCompleted(x: Setting)
      modifies this
      ensures Now() == Record(old(Now()), x)
    {
      if x.lands(writes) {
        stored := done;
      }
      writes := writes + 1;
    }

    /** One page under its lock, branch by branch. */
    method EnrichOne(page: string, x: Setting) returns (ending: Ending)
      modifies this
      ensures ending == EndingOf(x.world(page), x.dryRun)
      ensures Now() == if ending == Returned then Noted(old(Now()), page, x) else old(Now())
    {
      var world := x.world(page);
      if world.LockHeld? {
        c := c.(lockSkipped := c.lockSkipped + 1);
        return Returned;
      }
      if world.LookupThrows? {
        return Threw;
      }
      if world.Gone? {
        c := c.(disappeared := c.disappeared + 1);
        return Returned;
      }
      if world.NotGrounded? {
        c := c.(insufficient := c.insufficient + 1);
        if !x.dryRun {
          done := done + {page};
        }
        return Returned;
      }
      if x.dryRun {
        c := c.(wouldEnrich := c.wouldEnrich + 1);
        return Returned;
      }
      match world.synthesis
      case SynthesisThrows => return Threw;
      case OverBudget => return OutOfBudget;
      case SaysNothing =>
        c := c.(insufficient := c.insufficient + 1);
        done := done + {page};
        return Returned;
      case WriteThrows => return Threw;
      case Writes =>
        c := c.(enriched := c.enriched + 1);
        done := done + {page};
        return Returned;
    }

    /** The worker's loop; errors are collected by the pool, the budget error ends it. */
    method RunPool(pages: seq<string>, x: Setting) returns (stopped: bool)
      modifies this
      ensures Now() == Pool(old(Now()), pages, x)
      ensures stopped == StopsOnBudget(pages, x)
    {
      for i := 0 to |pages|
        invariant Pool(Now(), pages[i..], x) == Pool(old(Now()), pages, x)
        invariant forall j :: 0 <= j < i ==> EndingOf(x.world(pages[j]), x.dryRun) != OutOfBudget
      {
        assert pages[i..][1..] == pages[i + 1..];
        var ending := EnrichOne(pages[i], x);
        if ending != Returned {
          c := c.(errored := c.errored + 1);
          if ending == OutOfBudget {
            return true;
          }
          continue;
        }
        if !x.dryRun && |done| - lastFlush >= CHECKPOINT_FLUSH_EVERY {
          lastFlush := |done|;
          RecordCompleted(x);
        }
      }
      return false;
    }

    method RunEnrichCore(candidates: seq<string>, x: Setting, force: bool, abort: Option<nat>)
      modifies this
      ensures Now() == Core(old(stored), candidates, x, force, abort)
    {
      c, done, lastFlush, writes := Counters(0, 0, 0, 0, 0, 0), {}, 0, 0;
      if candidates == [] {
        return;
      }
      if force {
        stored := {};
      }
      done := stored;
      var pending := Unfinished(candidates, done);
      var stopped := RunPool(Claimed(pending, abort), x);
      if stopped {
        c := Unreported(c);
        RecordCompleted(x);
      } else if !x.dryRun {
        RecordCompleted(x);
        if abort.None? {
          stored := {};
        }
      }
    }
  }
}
