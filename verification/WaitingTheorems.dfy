/** How long a healthy source can wait while others keep failing and return after their cooldowns. */
module WaitingTheorems {
  import opened Common
  import opened Fanout
  import opened CooldownTheorems
  import opened FairnessTheorems
  import opened Iteration
  import Order

  // ----- runs with failures -----

  /** How a dispatched cycle ends, and when. */
  datatype Ended = Succeeds(at: int) | Fails(at: int)

  /** One tick: when it happens, and how the cycles it dispatches end. */
  datatype Round = Round(now: int, outcome: string -> Ended)

  /** The sources, and each one's failed cycles. */
  datatype World = World(sources: seq<Source>, failures: string -> seq<int>)

  /** A run, with the world each tick finds and the one after the last. */
  datatype Run = Run(start: World, policy: Policy, rounds: seq<Round>, worlds: seq<World>)

  /** The gate of one tick: failures are looked up over the last `capMin` minutes. */
  function GateOf(w: World, p: Policy, now: int): Gate {
    var ids := set s | s in w.sources :: s.id;
    Gate(now, p.floorMin,
         map id | id in ids && RecentFailure(w.failures(id), now, p.opts.capMin).Some?
           :: RecentFailure(w.failures(id), now, p.opts.capMin).value,
         p.opts)
  }

  lemma GateIsCooldown(w: World, p: Policy, now: int, s: Source)
    requires s in w.sources
    ensures InCooldown(s, GateOf(w, p, now)) <==>
            IsSourceInCooldown(w.failures(s.id), ReadLastSuccessAt(s), now, now, p.opts)
  {
    var ids := set r | r in w.sources :: r.id;
    assert s.id in ids;
  }

  function DispatchedIn(w: World, p: Policy, now: int): seq<Source> {
    Select(w.sources, p.fanoutMax, GateOf(w, p, now), p.idLe).dispatch
  }

  function AfterSource(s: Source, done: seq<Source>, outcome: string -> Ended): Source {
    if HasId(done, s.id) && outcome(s.id).Succeeds? then
      s.(lastFullCycleAt := At(outcome(s.id).at), lastSourceCycleAt := At(outcome(s.id).at))
    else s
  }

  function AfterFailures(w: World, done: seq<Source>, outcome: string -> Ended): string -> seq<int> {
    (id: string) => w.failures(id) + if HasId(done, id) && outcome(id).Fails? then [outcome(id).at] else []
  }

  function AfterRound(w: World, p: Policy, round: Round): (r: World)
    ensures |r.sources| == |w.sources|
  {
    var done := DispatchedIn(w, p, round.now);
    World(Order.Map((s: Source) => AfterSource(s, done, round.outcome), w.sources), AfterFailures(w, done, round.outcome))
  }

  /** The worlds follow from the start, tick by tick. */
  ghost predicate Follows(run: Run) {
    && |run.worlds| == |run.rounds| + 1 && run.worlds[0] == run.start
    && forall k :: 0 <= k < |run.rounds| ==> run.worlds[k + 1] == AfterRound(run.worlds[k], run.policy, run.rounds[k])
  }

  /** What tick `k` finds. */
  function WorldAt(run: Run, k: nat): World {
    if k < |run.worlds| then run.worlds[k] else run.start
  }

  /** Source `i` as tick `k` finds it. */
  function SourceAt(run: Run, k: nat, i: nat): Source
    requires i < |run.start.sources|
  {
    var w := WorldAt(run, k);
    if i < |w.sources| then w.sources[i] else run.start.sources[i]
  }

  lemma WorldStep(run: Run, k: nat)
    requires Follows(run) && k < |run.rounds|
    ensures WorldAt(run, k + 1) == AfterRound(WorldAt(run, k), run.policy, run.rounds[k])
  {
  }

  /** Every start has its run. */
  lemma {:induction false} RunExists(start: World, policy: Policy, rounds: seq<Round>) returns (run: Run)
    ensures Follows(run) && run.start == start && run.policy == policy && run.rounds == rounds
  {
    if rounds == [] {
      run := Run(start, policy, rounds, [start]);
    } else {
      var k := |rounds| - 1;
      var before := RunExists(start, policy, rounds[..k]);
      run := Run(start, policy, rounds, before.worlds + [AfterRound(before.worlds[k], policy, rounds[k])]);
    }
  }

  /** 1 when tick `k` dispatches source `i`. */
  function Hit(run: Run, k: nat, i: nat): nat
    requires k < |run.rounds| && i < |run.start.sources|
  {
    if HasId(DispatchedIn(WorldAt(run, k), run.policy, run.rounds[k].now), run.start.sources[i].id) then 1 else 0
  }

  function HitFn(run: Run, i: nat): nat -> nat
    requires i < |run.start.sources|
  {
    (k: nat) => if k < |run.rounds| then Hit(run, k, i) else 0
  }

  /** How often the first `k` ticks dispatch source `i`. */
  function Hits(run: Run, k: nat, i: nat): nat
    requires i < |run.start.sources|
  {
    Sum(HitFn(run, i), k)
  }

  /** Some dispatch of source `i` in the first `k` ticks fails. */
  predicate EverFails(run: Run, k: nat, i: nat)
    requires k <= |run.rounds| && i < |run.start.sources|
  {
    k > 0 && (EverFails(run, k - 1, i)
              || (Hit(run, k - 1, i) == 1 && run.rounds[k - 1].outcome(run.start.sources[i].id).Fails?))
  }

  /** When source `i` was last dispatched before tick `k`. */
  function LastHit(run: Run, k: nat, i: nat): int
    requires 0 < |run.rounds| && k <= |run.rounds| && i < |run.start.sources|
  {
    if k == 0 then run.rounds[0].now
    else if Hit(run, k - 1, i) == 1 then run.rounds[k - 1].now
    else LastHit(run, k - 1, i)
  }

  /** Cycles end between their tick and the next. */
  ghost predicate InTime(rounds: seq<Round>) {
    && (forall k, id :: 0 <= k < |rounds| ==> rounds[k].now <= rounds[k].outcome(id).at)
    && (forall k :: 0 <= k < |rounds| - 1 ==> rounds[k].now <= rounds[k + 1].now)
  }

  predicate Before(t: Option<int>, now: int) {
    t.None? || t.value < now
  }

  /** Cooldowns are on, and no source claims a success that lies in the future. */
  ghost predicate Proper(run: Run) {
    && Follows(run) && Sound(run.policy) && run.policy.opts.baseMin > 0 && DistinctIds(run.start.sources)
    && run.rounds != [] && InTime(run.rounds)
    && forall s :: s in run.start.sources ==> Before(ReadLastSuccessAt(s), run.rounds[0].now)
  }

  lemma {:induction false} LaterRound(rounds: seq<Round>, j: nat, k: nat)
    requires InTime(rounds) && j <= k < |rounds|
    ensures rounds[j].now <= rounds[k].now
  {
    if j < k {
      LaterRound(rounds, j, k - 1);
    }
  }

  /** No tick adds, drops or renames a source. */
  predicate SameIdsAt(run: Run, k: nat) {
    var w := WorldAt(run, k);
    && |w.sources| == |run.start.sources|
    && forall i :: 0 <= i < |w.sources| ==> w.sources[i].id == run.start.sources[i].id
  }

  lemma KeepsIds(w: World, p: Policy, round: Round)
    ensures var next := AfterRound(w, p, round);
            |next.sources| == |w.sources| && forall i :: 0 <= i < |w.sources| ==> next.sources[i].id == w.sources[i].id
  {
  }

  lemma SameIdsStep(run: Run, k: nat)
    requires Follows(run) && k < |run.rounds| && SameIdsAt(run, k)
    ensures SameIdsAt(run, k + 1)
  {
    WorldStep(run, k);
    KeepsIds(WorldAt(run, k), run.policy, run.rounds[k]);
  }

  lemma SameIds(run: Run, k: nat)
    requires Follows(run) && k <= |run.rounds|
    ensures SameIdsAt(run, k)
  {
    for j := 0 to k
      invariant SameIdsAt(run, j)
    {
      SameIdsStep(run, j);
    }
  }

  lemma IdsDistinct(run: Run, k: nat)
    requires Follows(run) && k <= |run.rounds| && DistinctIds(run.start.sources)
    ensures DistinctIds(WorldAt(run, k).sources)
  {
    var now := WorldAt(run, k).sources;
    SameIds(run, k);
    forall i, j | 0 <= i < j < |now| ensures now[i].id != now[j].id {
    }
  }

  // ----- one tick that leaves a healthy source waiting -----

  /** The source is stale and out of cooldown. */
  predicate Healthy(w: World, p: Policy, now: int, s: Source) {
    && IsSourceStale(s, now, p.floorMin)
    && !IsSourceInCooldown(w.failures(s.id), ReadLastSuccessAt(s), now, now, p.opts)
  }

  lemma QueueOfHealthy(w: World, p: Policy, now: int)
    requires Sound(p)
    ensures var q := Queue(w.sources, GateOf(w, p, now), p.idLe);
            && Order.Sorted(Older(p.idLe), q)
            && forall s :: s in q <==> s in w.sources && Healthy(w, p, now, s)
  {
    var gate := GateOf(w, p, now);
    OlderIsTotalPreorder(p.idLe);
    Order.SortSorted(Older(p.idLe), Order.Filter(Eligible(gate), w.sources));
    Order.SortElements(Older(p.idLe), Order.Filter(Eligible(gate), w.sources));
    Order.FilterElements(Eligible(gate), w.sources);
    forall s | s in w.sources ensures Eligible(gate)(s) <==> Healthy(w, p, now, s) {
      GateIsCooldown(w, p, now, s);
    }
  }

  /** The tick is full, and what it dispatches is healthy and no younger than the one left out. */
  lemma FullTick(w: World, p: Policy, now: int, h: Source)
    requires Sound(p) && h in w.sources && Healthy(w, p, now, h)
    requires h !in DispatchedIn(w, p, now)
    ensures |DispatchedIn(w, p, now)| == p.fanoutMax
    ensures forall s :: s in DispatchedIn(w, p, now) ==> s in w.sources && Healthy(w, p, now, s) && Older(p.idLe)(s, h)
  {
    var q := Queue(w.sources, GateOf(w, p, now), p.idLe);
    var n := Taken(q, p.fanoutMax);
    QueueOfHealthy(w, p, now);
    assert DispatchedIn(w, p, now) == q[..n];
    var j :| 0 <= j < |q| && q[j] == h;
    assert j >= n;
    forall s | s in q[..n] ensures s in q && Older(p.idLe)(s, h) {
      var i :| 0 <= i < n && q[i] == s;
    }
  }

  lemma DispatchIdsDistinct(w: World, p: Policy, now: int)
    requires DistinctIds(w.sources)
    ensures DistinctIds(DispatchedIn(w, p, now))
  {
    var gate := GateOf(w, p, now);
    DistinctIdsFilter(Eligible(gate), w.sources);
    DistinctIdsSort(Older(p.idLe), Order.Filter(Eligible(gate), w.sources));
  }

  // ----- adding up -----

  function Sum(f: nat -> nat, n: nat): nat {
    if n == 0 then 0 else Sum(f, n - 1) + f(n - 1)
  }

  lemma {:induction false} SumAtLeast(f: nat -> nat, g: nat -> nat, h: nat -> nat, n: nat)
    requires forall i: nat :: i < n ==> f(i) >= g(i) + h(i)
    ensures Sum(f, n) >= Sum(g, n) + Sum(h, n)
  {
    if n > 0 {
      SumAtLeast(f, g, h, n - 1);
    }
  }

  lemma {:induction false} SumZero(f: nat -> nat, j: nat, k: nat)
    requires j < k && Sum(f, k) == 0
    ensures Sum(f, j) == 0 && f(j) == 0 && Sum(f, j + 1) == 0
  {
    if j < k - 1 {
      SumZero(f, j, k - 1);
    }
  }

  lemma {:induction false} SumHolds(f: nat -> nat, n: nat, i: nat)
    requires i < n
    ensures Sum(f, n) >= f(i)
  {
    if i < n - 1 {
      SumHolds(f, n - 1, i);
    }
  }

  lemma Distribute(a: nat, b: nat, c: nat)
    ensures (a + b) * c == a * c + b * c
  {
  }

  predicate WeighedAt(f: nat -> nat, g: nat -> nat, h: nat -> nat, i: nat, gap: nat, time: nat) {
    f(i) * gap <= g(i) * gap + h(i) * time
  }

  lemma {:induction false} SumWeighted(f: nat -> nat, g: nat -> nat, h: nat -> nat, n: nat, gap: nat, time: nat)
    requires forall i: nat :: i < n ==> WeighedAt(f, g, h, i, gap, time)
    ensures Sum(f, n) * gap <= Sum(g, n) * gap + Sum(h, n) * time
  {
    if n > 0 {
      SumWeighted(f, g, h, n - 1, gap, time);
      assert WeighedAt(f, g, h, n - 1, gap, time);
      Distribute(Sum(f, n - 1), f(n - 1), gap);
      Distribute(Sum(g, n - 1), g(n - 1), gap);
      Distribute(Sum(h, n - 1), h(n - 1), time);
    }
  }

  function OthersThan(h: nat): nat -> nat {
    (i: nat) => if i == h then 0 else 1
  }

  lemma {:induction false} SumOthers(h: nat, n: nat)
    ensures Sum(OthersThan(h), n) == if h < n then n - 1 else n
  {
    if n > 0 {
      SumOthers(h, n - 1);
    }
  }

  // ----- every full tick spends its places -----

  function HitOf(done: seq<Source>, sources: seq<Source>): nat -> nat {
    (i: nat) => if i < |sources| && HasId(done, sources[i].id) then 1 else 0
  }

  function IsId(sources: seq<Source>, id: string): nat -> nat {
    (i: nat) => if i < |sources| && sources[i].id == id then 1 else 0
  }

  /** Sources dispatched together, each once, are counted at that many places. */
  lemma {:induction false} PlacesSpent(done: seq<Source>, sources: seq<Source>)
    requires DistinctIds(done) && forall s :: s in done ==> HasId(sources, s.id)
    ensures Sum(HitOf(done, sources), |sources|) >= |done|
  {
    if done != [] {
      var s, rest := done[0], done[1..];
      forall r | r in rest ensures HasId(sources, r.id) {
        assert r in done;
      }
      PlacesSpent(rest, sources);
      assert s in done;
      var k :| 0 <= k < |sources| && sources[k].id == s.id;
      SumHolds(IsId(sources, s.id), |sources|, k);
      forall i: nat | i < |sources|
        ensures HitOf(done, sources)(i) >= HitOf(rest, sources)(i) + IsId(sources, s.id)(i)
      {
        HasIdStep(done, sources[i].id);
      }
      SumAtLeast(HitOf(done, sources), HitOf(rest, sources), IsId(sources, s.id), |sources|);
    }
  }

  lemma InHasId(done: seq<Source>, s: Source)
    ensures s in done ==> HasId(done, s.id)
  {
  }

  lemma HasIdStep(done: seq<Source>, id: string)
    requires done != [] && DistinctIds(done)
    ensures HasId(done, id) <==> done[0].id == id || HasId(done[1..], id)
    ensures !(done[0].id == id && HasId(done[1..], id))
  {
    if i :| 0 <= i < |done| && done[i].id == id {
      assert i == 0 || done[1..][i - 1] == done[i];
    }
    if i :| 0 <= i < |done[1..]| && done[1..][i].id == id {
      assert done[i + 1].id == id;
    }
  }

  function HitsOf(run: Run, k: nat): nat -> nat
    requires k <= |run.rounds|
  {
    (i: nat) => if i < |run.start.sources| then Hits(run, k, i) else 0
  }

  function HitAt(run: Run, k: nat): nat -> nat
    requires k < |run.rounds|
  {
    (i: nat) => if i < |run.start.sources| then Hit(run, k, i) else 0
  }

  // ----- a healthy source stays healthy while it waits -----

  /** The source has succeeded since the first tick. */
  predicate Renewed(s: Source, since: int) {
    s.lastFullCycleAt.At? && s.lastFullCycleAt.ms >= since
  }

  /** The first `k` ticks do not dispatch source `h`. */
  predicate Waits(run: Run, k: nat, h: nat)
    requires k <= |run.rounds| && h < |run.start.sources|
  {
    Hits(run, k, h) == 0
  }

  /** What a round does to source number `i`. */
  lemma RoundStep(w: World, p: Policy, round: Round, i: nat)
    requires i < |w.sources|
    ensures var next, s, ended := AfterRound(w, p, round), w.sources[i], round.outcome(w.sources[i].id);
            var hit := HasId(DispatchedIn(w, p, round.now), s.id);
            && (if hit && ended.Succeeds? then Renewed(next.sources[i], ended.at) else next.sources[i] == s)
            && next.failures(s.id) == if hit && ended.Fails? then w.failures(s.id) + [ended.at] else w.failures(s.id)
  {
    assert w.failures(w.sources[i].id) + [] == w.failures(w.sources[i].id);
  }

  /** The same, in the run. */
  lemma SourceStep(run: Run, k: nat, i: nat)
    requires Follows(run) && k < |run.rounds| && i < |run.start.sources|
    ensures var s, next, id := SourceAt(run, k, i), SourceAt(run, k + 1, i), run.start.sources[i].id;
            var hit, ended := Hit(run, k, i) == 1, run.rounds[k].outcome(id);
            && s.id == id
            && (if hit && ended.Succeeds? then Renewed(next, ended.at) else next == s)
            && WorldAt(run, k + 1).failures(id) ==
               if hit && ended.Fails? then WorldAt(run, k).failures(id) + [ended.at] else WorldAt(run, k).failures(id)
  {
    SameIds(run, k);
    WorldStep(run, k);
    RoundStep(WorldAt(run, k), run.policy, run.rounds[k], i);
  }

  lemma HitsStep(run: Run, k: nat, i: nat)
    requires k < |run.rounds| && i < |run.start.sources|
    ensures Hits(run, k + 1, i) == Hits(run, k, i) + Hit(run, k, i)
  {
    HitFnIsHit(run, k, i);
  }

  lemma HitFnIsHit(run: Run, k: nat, i: nat)
    requires k < |run.rounds| && i < |run.start.sources|
    ensures HitFn(run, i)(k) == Hit(run, k, i)
  {
  }

  lemma WaitsBefore(run: Run, j: nat, k: nat, h: nat)
    requires j < k <= |run.rounds| && h < |run.start.sources| && Waits(run, k, h)
    ensures Waits(run, j, h) && Waits(run, j + 1, h) && Hit(run, j, h) == 0
  {
    SumZero(HitFn(run, h), j, k);
    HitFnIsHit(run, j, h);
  }

  predicate UntouchedAt(run: Run, k: nat, h: nat)
    requires h < |run.start.sources|
  {
    var s := run.start.sources[h];
    SourceAt(run, k, h) == s && WorldAt(run, k).failures(s.id) == run.start.failures(s.id)
  }

  lemma UntouchedStep(run: Run, k: nat, h: nat)
    requires Follows(run) && k < |run.rounds| && h < |run.start.sources| && Hit(run, k, h) == 0 && UntouchedAt(run, k, h)
    ensures UntouchedAt(run, k + 1, h)
  {
    SourceStep(run, k, h);
  }

  lemma Untouched(run: Run, k: nat, h: nat)
    requires Follows(run) && k <= |run.rounds| && h < |run.start.sources| && Waits(run, k, h)
    ensures UntouchedAt(run, k, h)
  {
    for j := 0 to k
      invariant UntouchedAt(run, j, h)
    {
      WaitsBefore(run, j, k, h);
      UntouchedStep(run, j, h);
    }
  }

  lemma StaysHealthy(run: Run, k: nat, h: nat)
    requires Proper(run) && k < |run.rounds| && h < |run.start.sources| && Waits(run, k, h)
    requires Healthy(run.start, run.policy, run.rounds[0].now, run.start.sources[h])
    ensures SourceAt(run, k, h) == run.start.sources[h]
    ensures Healthy(WorldAt(run, k), run.policy, run.rounds[k].now, run.start.sources[h])
  {
    var s := run.start.sources[h];
    Untouched(run, k, h);
    LaterRound(run.rounds, 0, k);
    StaleStays(s, run.rounds[0].now, run.rounds[k].now, run.policy.floorMin);
    DispatchClaimAgree(run.start.failures(s.id), ReadLastSuccessAt(s), run.rounds[0].now, run.rounds[0].now,
                       ReadLastSuccessAt(s), run.rounds[k].now, run.rounds[k].now, run.policy.opts);
  }

  /** A tick while `h` waits, in terms of source numbers. */
  lemma WaitingTick(run: Run, k: nat, h: nat)
    requires Proper(run) && k < |run.rounds| && h < |run.start.sources| && Waits(run, k + 1, h)
    requires Healthy(run.start, run.policy, run.rounds[0].now, run.start.sources[h])
    ensures |DispatchedIn(WorldAt(run, k), run.policy, run.rounds[k].now)| == run.policy.fanoutMax
    ensures forall i: nat :: i < |run.start.sources| && Hit(run, k, i) == 1 ==>
              var s := SourceAt(run, k, i);
              && Healthy(WorldAt(run, k), run.policy, run.rounds[k].now, s)
              && Older(run.policy.idLe)(s, run.start.sources[h])
  {
    var w, now, s := WorldAt(run, k), run.rounds[k].now, run.start.sources[h];
    var done := DispatchedIn(w, run.policy, now);
    assert Hit(run, k, h) == 0;
    StaysHealthy(run, k, h);
    SameIds(run, k);
    assert s in w.sources;
    InHasId(done, s);
    FullTick(w, run.policy, now, s);
    IdsDistinct(run, k);
    forall i: nat | i < |run.start.sources| && Hit(run, k, i) == 1
      ensures SourceAt(run, k, i) in done
    {
      var j :| 0 <= j < |done| && done[j].id == w.sources[i].id;
      assert done[j] in done;
      SameIdSameSource(w.sources, done[j], w.sources[i]);
    }
  }

  lemma PlacesAtTick(run: Run, k: nat)
    requires Follows(run) && k < |run.rounds| && DistinctIds(run.start.sources)
    ensures Sum(HitAt(run, k), |run.start.sources|)
            >= |DispatchedIn(WorldAt(run, k), run.policy, run.rounds[k].now)|
  {
    var w, n, now := WorldAt(run, k), |run.start.sources|, run.rounds[k].now;
    var done := DispatchedIn(w, run.policy, now);
    IdsDistinct(run, k);
    DispatchIdsDistinct(w, run.policy, now);
    FromSources(w, run.policy, now);
    PlacesSpent(done, w.sources);
    SameIds(run, k);
    forall i: nat | i < n ensures HitAt(run, k)(i) >= HitOf(done, w.sources)(i) + Nothing()(i) {
    }
    SumAtLeast(HitAt(run, k), HitOf(done, w.sources), Nothing(), n);
  }

  lemma TickSpends(run: Run, k: nat, h: nat)
    requires Proper(run) && k < |run.rounds| && h < |run.start.sources| && Waits(run, k + 1, h)
    requires Healthy(run.start, run.policy, run.rounds[0].now, run.start.sources[h])
    ensures Sum(HitAt(run, k), |run.start.sources|) >= run.policy.fanoutMax
  {
    WaitingTick(run, k, h);
    PlacesAtTick(run, k);
  }

  function Nothing(): nat -> nat {
    (i: nat) => 0
  }

  lemma FromSources(w: World, p: Policy, now: int)
    ensures forall s :: s in DispatchedIn(w, p, now) ==> HasId(w.sources, s.id)
  {
    var gate := GateOf(w, p, now);
    Order.SortElements(Older(p.idLe), Order.Filter(Eligible(gate), w.sources));
    Order.FilterElements(Eligible(gate), w.sources);
    forall s | s in DispatchedIn(w, p, now) ensures HasId(w.sources, s.id) {
      assert s in Queue(w.sources, gate, p.idLe);
      var i :| 0 <= i < |w.sources| && w.sources[i] == s;
    }
  }

  lemma SumStep(run: Run, k: nat)
    requires k < |run.rounds|
    ensures var n := |run.start.sources|;
            Sum(HitsOf(run, k + 1), n) >= Sum(HitsOf(run, k), n) + Sum(HitAt(run, k), n)
  {
    forall i: nat | i < |run.start.sources|
      ensures HitsOf(run, k + 1)(i) >= HitsOf(run, k)(i) + HitAt(run, k)(i)
    {
      HitsStep(run, k, i);
    }
    SumAtLeast(HitsOf(run, k + 1), HitsOf(run, k), HitAt(run, k), |run.start.sources|);
  }

  predicate SpentAt(run: Run, k: nat)
    requires k <= |run.rounds|
  {
    Sum(HitsOf(run, k), |run.start.sources|) >= Times(run.policy.fanoutMax, k)
  }

  lemma SpentStep(run: Run, k: nat, h: nat)
    requires Proper(run) && k < |run.rounds| && h < |run.start.sources| && Waits(run, k + 1, h)
    requires Healthy(run.start, run.policy, run.rounds[0].now, run.start.sources[h])
    requires SpentAt(run, k)
    ensures SpentAt(run, k + 1)
  {
    TickSpends(run, k, h);
    SumStep(run, k);
  }

  lemma NoneSpent(run: Run)
    ensures SpentAt(run, 0)
  {
  }

  lemma AllSpent(run: Run, k: nat, h: nat)
    requires Proper(run) && k <= |run.rounds| && h < |run.start.sources| && Waits(run, k, h)
    requires Healthy(run.start, run.policy, run.rounds[0].now, run.start.sources[h])
    ensures SpentAt(run, k)
  {
    NoneSpent(run);
    for j := 0 to k
      invariant SpentAt(run, j)
    {
      WaitsBefore(run, j, k, h);
      SpentStep(run, j, h);
    }
  }

  // ----- what each source can have had -----

  function Gap(p: Policy): int {
    Min(p.opts.baseMin, p.opts.capMin) * MS_PER_MIN
  }

  /** The gaps between `n` dispatches, each `gap` long. */
  function Gaps(n: nat, gap: int): int {
    if n <= 1 then 0 else Gaps(n - 1, gap) + gap
  }

  lemma {:induction false} GapsIsProduct(n: nat, gap: int)
    requires n > 0
    ensures Gaps(n, gap) == (n - 1) * gap
  {
    if n > 1 {
      GapsIsProduct(n - 1, gap);
    }
  }

  /**
   * What is known of a source dispatched `n` times, last at `last`: its dispatches lie `gap` apart since `first`,
   * it took more than one only by failing, and it is renewed, or as it was and failed after its last dispatch.
   */
  predicate AccountOf(s: Source, origin: Source, history: seq<int>, n: nat, fails: bool, first: int, last: int, gap: int) {
    && first <= last
    && Gaps(n, gap) <= last - first
    && (n > 1 ==> fails)
    && (Renewed(s, first) || (s == origin && (n > 0 ==> fails && history != [] && Latest(history) >= last)))
  }

  /** Source `i` after `k` ticks. */
  predicate Account(run: Run, k: nat, i: nat)
    requires 0 < |run.rounds| && k <= |run.rounds| && i < |run.start.sources|
  {
    AccountOf(SourceAt(run, k, i), run.start.sources[i], WorldAt(run, k).failures(run.start.sources[i].id),
              Hits(run, k, i), EverFails(run, k, i), run.rounds[0].now, LastHit(run, k, i), Gap(run.policy))
  }

  /** A dispatch that fails at `at` or renews the source keeps the account. */
  lemma AccountGoesOn(s: Source, next: Source, origin: Source, history: seq<int>, n: nat, fails: bool,
                      first: int, last: int, gap: int, now: int, ended: Ended)
    requires AccountOf(s, origin, history, n, fails, first, last, gap)
    requires s == origin && first <= now <= ended.at && (n > 0 ==> fails && now >= last + gap)
    requires if ended.Fails? then next == s else Renewed(next, ended.at)
    ensures AccountOf(next, origin, if ended.Fails? then history + [ended.at] else history,
                      n + 1, fails || ended.Fails?, first, now, gap)
  {
    OneMore(n, gap, last - first, now - first);
    LatestGrows(history, ended.at);
  }

  lemma LatestGrows(history: seq<int>, t: int)
    ensures Latest(history + [t]) >= t && (history != [] ==> Latest(history + [t]) >= Latest(history))
  {
    var longer := history + [t];
    LatestSpec(longer);
    assert longer[|history|] == t && t in longer;
    if history != [] {
      LatestSpec(history);
      assert Latest(history) in longer;
    }
  }

  /** A renewed source sorts behind one that was stale at the first tick. */
  lemma RenewedIsYounger(s: Source, h: Source, p: Policy, first: int)
    requires Sound(p) && Renewed(s, first) && IsSourceStale(h, first, p.floorMin)
    ensures !Older(p.idLe)(s, h)
  {
  }

  /** A failed source that is dispatched again has waited out the shortest cooldown. */
  lemma WaitedOut(history: seq<int>, success: Option<int>, now: int, p: Policy)
    requires p.opts.baseMin > 0 && StillFailed(history, success)
    requires !IsSourceInCooldown(history, success, now, now, p.opts)
    ensures now - Latest(history) >= Gap(p)
  {
    if now - Latest(history) < Gap(p) {
      HeldAtLeast(history, success, now, now, p.opts);
    }
  }

  /** What `Hits`, `EverFails` and `LastHit` become with one more tick. */
  lemma TalliesStep(run: Run, k: nat, i: nat)
    requires k < |run.rounds| && i < |run.start.sources|
    ensures var hit, id := Hit(run, k, i) == 1, run.start.sources[i].id;
            && Hits(run, k + 1, i) == Hits(run, k, i) + Hit(run, k, i)
            && EverFails(run, k + 1, i) == (EverFails(run, k, i) || (hit && run.rounds[k].outcome(id).Fails?))
            && LastHit(run, k + 1, i) == if hit then run.rounds[k].now else LastHit(run, k, i)
  {
    HitsStep(run, k, i);
  }

  lemma QuietTick(run: Run, k: nat, i: nat)
    requires Follows(run) && 0 < |run.rounds| && k < |run.rounds| && i < |run.start.sources|
    requires Account(run, k, i) && Hit(run, k, i) == 0
    ensures Account(run, k + 1, i)
  {
    SourceStep(run, k, i);
    TalliesStep(run, k, i);
    var id := run.start.sources[i].id;
    assert SourceAt(run, k + 1, i) == SourceAt(run, k, i);
    assert WorldAt(run, k + 1).failures(id) == WorldAt(run, k).failures(id);
    assert Hits(run, k + 1, i) == Hits(run, k, i) && EverFails(run, k + 1, i) == EverFails(run, k, i);
    assert LastHit(run, k + 1, i) == LastHit(run, k, i);
  }

  /** Source `i` as tick `k` finds it is not renewed and not in cooldown. */
  predicate ReadyAgain(run: Run, k: nat, i: nat)
    requires k < |run.rounds| && i < |run.start.sources|
  {
    var s, now := SourceAt(run, k, i), run.rounds[k].now;
    && !Renewed(s, run.rounds[0].now)
    && !IsSourceInCooldown(WorldAt(run, k).failures(run.start.sources[i].id), ReadLastSuccessAt(s), now, now, run.policy.opts)
  }

  /** A source dispatched while `h` waits has not been renewed, and is healthy. */
  lemma NotRenewed(run: Run, k: nat, h: nat, i: nat)
    requires Proper(run) && k < |run.rounds| && h < |run.start.sources| && i < |run.start.sources|
    requires Waits(run, k + 1, h) && Healthy(run.start, run.policy, run.rounds[0].now, run.start.sources[h])
    requires Hit(run, k, i) == 1
    ensures ReadyAgain(run, k, i)
  {
    WaitingTick(run, k, h);
    SameIds(run, k);
    assert IsSourceStale(run.start.sources[h], run.rounds[0].now, run.policy.floorMin);
    if Renewed(SourceAt(run, k, i), run.rounds[0].now) {
      RenewedIsYounger(SourceAt(run, k, i), run.start.sources[h], run.policy, run.rounds[0].now);
    }
  }

  lemma AgainAfterIn(s: Source, origin: Source, history: seq<int>, n: nat, fails: bool, p: Policy,
                     first: int, last: int, now: int)
    requires AccountOf(s, origin, history, n, fails, first, last, Gap(p)) && !Renewed(s, first)
    requires p.opts.baseMin > 0 && Before(ReadLastSuccessAt(origin), first)
    requires !IsSourceInCooldown(history, ReadLastSuccessAt(s), now, now, p.opts)
    ensures s == origin && (n > 0 ==> fails && now >= last + Gap(p))
  {
    if n > 0 {
      WaitedOut(history, ReadLastSuccessAt(s), now, p);
    }
  }

  /** The times of a dispatched source that has been dispatched before. */
  lemma AgainAfter(run: Run, k: nat, i: nat)
    requires k < |run.rounds| && i < |run.start.sources| && run.policy.opts.baseMin > 0
    requires Account(run, k, i) && ReadyAgain(run, k, i)
    requires Before(ReadLastSuccessAt(run.start.sources[i]), run.rounds[0].now)
    ensures SourceAt(run, k, i) == run.start.sources[i]
    ensures Hits(run, k, i) > 0 ==> EverFails(run, k, i) && run.rounds[k].now >= LastHit(run, k, i) + Gap(run.policy)
  {
    var origin := run.start.sources[i];
    AgainAfterIn(SourceAt(run, k, i), origin, WorldAt(run, k).failures(origin.id), Hits(run, k, i), EverFails(run, k, i),
                 run.policy, run.rounds[0].now, LastHit(run, k, i), run.rounds[k].now);
  }

  lemma OneMore(n: nat, gap: int, early: int, late: int)
    requires n > 0 ==> Gaps(n, gap) <= early && late >= early + gap
    requires late >= 0
    ensures Gaps(n + 1, gap) <= late
  {
  }

  lemma HitTick(run: Run, k: nat, i: nat)
    requires Follows(run) && k < |run.rounds| && i < |run.start.sources| && run.policy.opts.baseMin > 0
    requires Account(run, k, i) && ReadyAgain(run, k, i) && Hit(run, k, i) == 1
    requires Before(ReadLastSuccessAt(run.start.sources[i]), run.rounds[0].now)
    requires run.rounds[0].now <= run.rounds[k].now <= run.rounds[k].outcome(run.start.sources[i].id).at
    ensures Account(run, k + 1, i)
  {
    var origin, ended := run.start.sources[i], run.rounds[k].outcome(run.start.sources[i].id);
    AgainAfter(run, k, i);
    SourceStep(run, k, i);
    TalliesStep(run, k, i);
    AccountGoesOn(SourceAt(run, k, i), SourceAt(run, k + 1, i), origin, WorldAt(run, k).failures(origin.id),
                  Hits(run, k, i), EverFails(run, k, i), run.rounds[0].now, LastHit(run, k, i), Gap(run.policy),
                  run.rounds[k].now, ended);
  }

  lemma AccountStarts(run: Run, i: nat)
    requires Follows(run) && 0 < |run.rounds| && i < |run.start.sources|
    ensures Account(run, 0, i)
  {
  }

  lemma AccountHolds(run: Run, k: nat, h: nat, i: nat)
    requires Proper(run) && k <= |run.rounds| && h < |run.start.sources| && i < |run.start.sources|
    requires Waits(run, k, h) && Healthy(run.start, run.policy, run.rounds[0].now, run.start.sources[h])
    ensures Account(run, k, i)
  {
    AccountStarts(run, i);
    for j := 0 to k
      invariant Account(run, j, i)
    {
      WaitsBefore(run, j, k, h);
      if Hit(run, j, i) == 0 {
        QuietTick(run, j, i);
      } else {
        NotRenewed(run, j, h, i);
        LaterRound(run.rounds, 0, j);
        assert run.start.sources[i] in run.start.sources;
        HitTick(run, j, i);
      }
    }
  }

  // ----- the bound -----

  /** 1 for each source of which some dispatch fails in the first `k` ticks. */
  function Failing(run: Run, k: nat): nat -> nat
    requires k <= |run.rounds|
  {
    (i: nat) => if i < |run.start.sources| && EverFails(run, k, i) then 1 else 0
  }

  lemma {:induction false} LastHitBy(run: Run, k: nat, i: nat)
    requires InTime(run.rounds) && 0 < k <= |run.rounds| && i < |run.start.sources|
    ensures LastHit(run, k, i) <= run.rounds[k - 1].now
  {
    if k > 1 {
      LastHitBy(run, k - 1, i);
    }
  }

  lemma OwnBound(n: nat, fails: nat, own: nat, gap: nat, early: int, time: nat)
    requires n > 0 ==> Gaps(n, gap) <= early <= time && own == 1
    requires fails == 0 ==> n <= 1
    ensures n * gap <= own * gap + fails * time
  {
    if n > 0 {
      GapsIsProduct(n, gap);
      assert n * gap == (n - 1) * gap + gap;
      if fails > 0 {
        assert fails * time >= time;
      }
    }
  }

  /** What one source takes: a place of its own if it is not `h`, and one more per `gap` while it keeps failing. */
  lemma SourceBound(run: Run, k: nat, h: nat, i: nat, gap: nat, time: nat)
    requires Proper(run) && 0 < k <= |run.rounds| && h < |run.start.sources| && i < |run.start.sources|
    requires Waits(run, k, h) && Healthy(run.start, run.policy, run.rounds[0].now, run.start.sources[h])
    requires gap == Gap(run.policy) && time == run.rounds[k - 1].now - run.rounds[0].now
    ensures WeighedAt(HitsOf(run, k), OthersThan(h), Failing(run, k), i, gap, time)
  {
    AccountHolds(run, k, h, i);
    LastHitBy(run, k, i);
    var n, fails, own := Hits(run, k, i), Failing(run, k)(i), OthersThan(h)(i);
    OwnBound(n, fails, own, gap, LastHit(run, k, i) - run.rounds[0].now, time);
    assert HitsOf(run, k)(i) == n;
  }

  lemma EachBound(run: Run, k: nat, h: nat, gap: nat, time: nat)
    requires Proper(run) && 0 < k <= |run.rounds| && h < |run.start.sources|
    requires Waits(run, k, h) && Healthy(run.start, run.policy, run.rounds[0].now, run.start.sources[h])
    requires gap == Gap(run.policy) && time == run.rounds[k - 1].now - run.rounds[0].now
    ensures var n := |run.start.sources|;
            Sum(HitsOf(run, k), n) * gap <= (n - 1) * gap + Sum(Failing(run, k), n) * time
  {
    var n := |run.start.sources|;
    forall i: nat | i < n
      ensures WeighedAt(HitsOf(run, k), OthersThan(h), Failing(run, k), i, gap, time)
    {
      SourceBound(run, k, h, i, gap, time);
    }
    SumWeighted(HitsOf(run, k), OthersThan(h), Failing(run, k), n, gap, time);
    SumOthers(h, n);
  }

  /**
   * While a healthy source waits through `k` full ticks, every place goes to another source: each of the `N - 1`
   * others has one, and each that fails one more per shortest cooldown. So `k * fanoutMax` cannot exceed that.
   */
  lemma WaitBounded(run: Run, k: nat, h: nat, gap: nat, time: nat)
    requires Proper(run) && 0 < k <= |run.rounds| && h < |run.start.sources|
    requires Waits(run, k, h) && Healthy(run.start, run.policy, run.rounds[0].now, run.start.sources[h])
    requires gap == Gap(run.policy) && time == run.rounds[k - 1].now - run.rounds[0].now
    ensures var n := |run.start.sources|;
            (k * run.policy.fanoutMax) * gap <= (n - 1) * gap + Sum(Failing(run, k), n) * time
  {
    EachBound(run, k, h, gap, time);
    AllSpent(run, k, h);
    TimesIsProduct(k, run.policy.fanoutMax);
    TimesAtMost(k * run.policy.fanoutMax, Sum(HitsOf(run, k), |run.start.sources|), gap);
  }

  lemma TimesAtMost(a: nat, b: nat, c: nat)
    requires a <= b
    ensures a * c <= b * c
  {
  }

  // ----- without enough room it can wait for ever -----

  /** `a` has never completed a cycle, `b` is stale; `a` fails at every tick, and ticks are the cap or more apart. */
  ghost predicate Starving(run: Run, a: Source, b: Source) {
    && Sound(run.policy) && run.policy.fanoutMax == 1 && run.policy.opts.capMin >= 0
    && a.id != b.id && a.lastFullCycleAt == Missing && a.lastSourceCycleAt == Missing
    && ReadLastFullCycleAt(b).Some?
    && Follows(run) && run.start == World([a, b], (id: string) => [])
    && (forall k :: 0 <= k < |run.rounds| ==> IsSourceStale(b, run.rounds[k].now, run.policy.floorMin))
    && (forall k :: 0 <= k < |run.rounds| ==> run.rounds[k].outcome(a.id) == Fails(run.rounds[k].now))
    && (forall k :: 0 <= k < |run.rounds| - 1 ==>
          run.rounds[k + 1].now - run.rounds[k].now >= run.policy.opts.capMin * MS_PER_MIN)
  }

  lemma {:induction false} EmptyWindow(history: seq<int>, asked: int, sinceMin: int)
    requires forall k :: 0 <= k < |history| ==> history[k] <= asked - sinceMin * MS_PER_MIN
    ensures InWindow(history, asked, sinceMin) == []
  {
    if history != [] {
      EmptyWindow(history[1..], asked, sinceMin);
    }
  }

  lemma FilterBoth(p: Source -> bool, a: Source, b: Source)
    requires p(a) && p(b)
    ensures Order.Filter(p, [a, b]) == [a, b]
  {
    Order.FilterAll(p, [a, b]);
  }

  lemma SortBoth(le: (Source, Source) -> bool, a: Source, b: Source)
    requires le(a, b)
    ensures Order.Sort(le, [a, b]) == [a, b]
  {
    var one, none: seq<Source> := [b], [];
    assert [a, b][1..] == one && one[1..] == none;
    assert Order.Sort(le, one) == one;
  }

  /** Of two healthy sources and one place, the older gets it. */
  lemma OlderTakesThePlace(w: World, p: Policy, now: int, a: Source, b: Source)
    requires w.sources == [a, b] && p.fanoutMax == 1 && Older(p.idLe)(a, b)
    requires Healthy(w, p, now, a) && Healthy(w, p, now, b)
    ensures DispatchedIn(w, p, now) == [a]
  {
    var gate := GateOf(w, p, now);
    assert w.sources[0] == a && w.sources[1] == b;
    GateIsCooldown(w, p, now, a);
    GateIsCooldown(w, p, now, b);
    FilterBoth(Eligible(gate), a, b);
    SortBoth(Older(p.idLe), a, b);
    assert [a, b][..1] == [a];
  }

  /** Before tick `k` nothing has changed but the failures of `a`, all of them out of the window by then. */
  predicate Starved(run: Run, k: nat, a: Source, b: Source)
    requires k <= |run.rounds|
  {
    var w := WorldAt(run, k);
    && w.sources == [a, b] && w.failures(b.id) == []
    && forall j :: 0 <= j < |w.failures(a.id)| ==> k > 0 && w.failures(a.id)[j] <= run.rounds[k - 1].now
  }

  lemma StarvingTick(run: Run, k: nat, a: Source, b: Source)
    requires Starving(run, a, b) && k < |run.rounds| && Starved(run, k, a, b)
    ensures DispatchedIn(WorldAt(run, k), run.policy, run.rounds[k].now) == [a]
  {
    var w, now, p := WorldAt(run, k), run.rounds[k].now, run.policy;
    assert k > 0 ==> run.rounds[k - 1 + 1].now - run.rounds[k - 1].now >= p.opts.capMin * MS_PER_MIN;
    EmptyWindow(w.failures(a.id), now, p.opts.capMin);
    OlderTakesThePlace(w, p, now, a, b);
  }

  /** A round that dispatches `a` alone and sees it fail. */
  lemma FailingRound(w: World, p: Policy, round: Round, a: Source, b: Source)
    requires w.sources == [a, b] && a.id != b.id && DispatchedIn(w, p, round.now) == [a]
    requires round.outcome(a.id).Fails?
    ensures var next := AfterRound(w, p, round);
            && next.sources == [a, b] && next.failures(b.id) == w.failures(b.id)
            && next.failures(a.id) == w.failures(a.id) + [round.outcome(a.id).at]
  {
    OnlyId(a, b.id);
    RoundStep(w, p, round, 0);
    RoundStep(w, p, round, 1);
    var next := AfterRound(w, p, round);
    assert next.sources[0] == a && next.sources[1] == b;
  }

  lemma OnlyId(a: Source, id: string)
    ensures HasId([a], a.id) && (HasId([a], id) <==> id == a.id)
  {
    assert [a][0].id == a.id;
  }

  lemma StarvingStep(run: Run, k: nat, a: Source, b: Source)
    requires Starving(run, a, b) && k < |run.rounds| && Starved(run, k, a, b)
    ensures Starved(run, k + 1, a, b)
  {
    StarvingTick(run, k, a, b);
    FailingRound(WorldAt(run, k), run.policy, run.rounds[k], a, b);
    WorldStep(run, k);
    assert k > 0 ==> run.rounds[k - 1 + 1].now - run.rounds[k - 1].now >= 0;
  }

  lemma StarvingHits(run: Run, k: nat, a: Source, b: Source)
    requires Starving(run, a, b) && k < |run.rounds| && Starved(run, k, a, b)
    ensures Hit(run, k, 0) == 1 && Hit(run, k, 1) == 0
  {
    StarvingTick(run, k, a, b);
    OnlyId(a, b.id);
  }

  /** Every tick so far went to source 0, and none to source 1. */
  predicate AllToFirst(run: Run, k: nat, a: Source, b: Source)
    requires k <= |run.rounds| && |run.start.sources| == 2
  {
    Starved(run, k, a, b) && Hits(run, k, 0) == k && Waits(run, k, 1)
  }

  lemma AllToFirstStep(run: Run, k: nat, a: Source, b: Source)
    requires Starving(run, a, b) && k < |run.rounds| && AllToFirst(run, k, a, b)
    ensures AllToFirst(run, k + 1, a, b)
  {
    StarvingStep(run, k, a, b);
    StarvingHits(run, k, a, b);
    HitsStep(run, k, 0);
    HitsStep(run, k, 1);
  }

  lemma AllToFirstStart(run: Run, a: Source, b: Source)
    requires Starving(run, a, b)
    ensures AllToFirst(run, 0, a, b)
  {
  }

  /** With one place, one source that keeps failing, and ticks the cap apart, a stale healthy source waits for ever. */
  lemma StarvesForever(run: Run, k: nat, a: Source, b: Source)
    requires Starving(run, a, b) && k <= |run.rounds|
    ensures AllToFirst(run, k, a, b)
  {
    AllToFirstStart(run, a, b);
    for j := 0 to k
      invariant AllToFirst(run, j, a, b)
    {
      AllToFirstStep(run, j, a, b);
    }
  }
}
