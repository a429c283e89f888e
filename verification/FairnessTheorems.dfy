/** The dispatcher serves sources oldest first, and no stale source waits longer than its rank allows. */
module FairnessTheorems {
  import opened Fanout
  import opened Iteration
  import Order

  lemma OlderIsTotalPreorder(idLe: (string, string) -> bool)
    requires Order.TotalOrder(idLe)
    ensures Order.TotalPreorder(Older(idLe))
  {
  }

  // ----- one tick -----

  lemma ClassesPartition(sources: seq<Source>, gate: Gate)
    ensures multiset(Order.Filter(Fresh(gate), sources)) + multiset(Order.Filter(Held(gate), sources))
            + multiset(Order.Filter(Eligible(gate), sources)) == multiset(sources)
  {
    Order.ThreeWays(Fresh(gate), Held(gate), Eligible(gate), sources);
  }

  /**
   * Every source lands in exactly one of the four lists; dispatch and cap together are the stale sources
   * outside cooldown in age order, cut at `fanoutMax`.
   */
  lemma SelectPartitions(sources: seq<Source>, fanoutMax: nat, gate: Gate, idLe: (string, string) -> bool)
    requires Order.TotalOrder(idLe)
    ensures var r := Select(sources, fanoutMax, gate, idLe);
            && multiset(r.skippedFresh) + multiset(r.skippedCooldown) + multiset(r.dispatch + r.skippedCap) == multiset(sources)
            && (forall s :: s in r.skippedFresh ==> !IsSourceStale(s, gate.now, gate.floorMin))
            && (forall s :: s in r.skippedCooldown ==> IsSourceStale(s, gate.now, gate.floorMin) && InCooldown(s, gate))
            && (forall s :: s in r.dispatch + r.skippedCap ==> IsSourceStale(s, gate.now, gate.floorMin) && !InCooldown(s, gate))
            && Order.Sorted(Older(idLe), r.dispatch + r.skippedCap)
            && |r.dispatch| <= fanoutMax && (r.skippedCap != [] ==> |r.dispatch| == fanoutMax)
  {
    var r := Select(sources, fanoutMax, gate, idLe);
    var queue := Queue(sources, gate, idLe);
    assert r.dispatch + r.skippedCap == queue;
    OlderIsTotalPreorder(idLe);
    Order.SortSorted(Older(idLe), Order.Filter(Eligible(gate), sources));
    Order.SortElements(Older(idLe), Order.Filter(Eligible(gate), sources));
    ClassesPartition(sources, gate);
    Order.FilterElements(Fresh(gate), sources);
    Order.FilterElements(Held(gate), sources);
    Order.FilterElements(Eligible(gate), sources);
  }

  // ----- runs without failures -----

  /** What stays fixed over a run. */
  datatype Policy = Policy(fanoutMax: nat, floorMin: int, opts: CooldownOpts, idLe: (string, string) -> bool)

  ghost predicate Sound(p: Policy) {
    p.fanoutMax >= 1 && p.floorMin >= 1 && Order.TotalOrder(p.idLe)
  }

  ghost predicate DistinctIds(sources: seq<Source>) {
    forall i, j :: 0 <= i < j < |sources| ==> sources[i].id != sources[j].id
  }

  function Quiet(p: Policy, now: int): Gate {
    Gate(now, p.floorMin, map[], p.opts)
  }

  function QueueAt(sources: seq<Source>, p: Policy, now: int): seq<Source> {
    Queue(sources, Quiet(p, now), p.idLe)
  }

  function Dispatched(sources: seq<Source>, p: Policy, now: int): seq<Source> {
    Select(sources, p.fanoutMax, Quiet(p, now), p.idLe).dispatch
  }

  predicate HasId(queue: seq<Source>, id: string) {
    exists i :: 0 <= i < |queue| && queue[i].id == id
  }

  /** The stamps a successful cycle writes: both fields, when it ends. */
  function Stamped(src: Source, done: seq<Source>, stamps: string -> int): Source {
    if HasId(done, src.id) then src.(lastFullCycleAt := At(stamps(src.id)), lastSourceCycleAt := At(stamps(src.id)))
    else src
  }

  /** Every dispatched cycle succeeds before the next tick. */
  function AfterTick(sources: seq<Source>, p: Policy, now: int, stamps: string -> int): (r: seq<Source>)
    ensures |r| == |sources|
  {
    var done := Dispatched(sources, p, now);
    Order.Map((src: Source) => Stamped(src, done, stamps), sources)
  }

  /** One tick of a run: when it happens, and when the cycles it dispatches end. */
  datatype Tick = Tick(now: int, stamps: string -> int)

  ghost predicate Timely(ticks: seq<Tick>) {
    && (forall i :: 0 <= i < |ticks| - 1 ==> ticks[i].now <= ticks[i + 1].now)
    && (forall i, id :: 0 <= i < |ticks| ==> ticks[i].stamps(id) >= ticks[i].now)
  }

  // ----- what one tick does to the queue -----

  lemma QueueElements(sources: seq<Source>, p: Policy, now: int)
    ensures var q := QueueAt(sources, p, now);
            forall s :: s in q <==> s in sources && IsSourceStale(s, now, p.floorMin)
  {
    Order.SortElements(Older(p.idLe), Order.Filter(Eligible(Quiet(p, now)), sources));
    Order.FilterElements(Eligible(Quiet(p, now)), sources);
  }

  lemma {:induction false} DistinctIdsFilter(f: Source -> bool, sources: seq<Source>)
    requires DistinctIds(sources)
    ensures DistinctIds(Order.Filter(f, sources))
  {
    if sources != [] {
      DistinctIdsFilter(f, sources[1..]);
      Order.FilterElements(f, sources[1..]);
      var rest := Order.Filter(f, sources[1..]);
      forall j | 0 <= j < |rest| ensures rest[j].id != sources[0].id {
        assert rest[j] in sources[1..];
      }
    }
  }

  lemma {:induction false} DistinctIdsInsert(le: (Source, Source) -> bool, x: Source, s: seq<Source>)
    requires DistinctIds([x] + s)
    ensures DistinctIds(Order.Insert(le, x, s))
  {
    if s != [] && !le(x, s[0]) {
      var before, after := [x] + s, [x] + s[1..];
      forall i, j | 0 <= i < j < |after| ensures after[i].id != after[j].id {
        assert after[i] == before[if i == 0 then 0 else i + 1] && after[j] == before[j + 1];
      }
      DistinctIdsInsert(le, x, s[1..]);
      var t := Order.Insert(le, x, s[1..]);
      Order.InsertElements(le, x, s[1..]);
      forall j | 0 <= j < |t| ensures t[j].id != s[0].id {
        assert t[j] in t;
        assert t[j] == x || t[j] in s[1..];
        if t[j] == x {
          assert ([x] + s)[0].id != ([x] + s)[1].id;
        } else {
          var k :| 0 <= k < |s[1..]| && s[1..][k] == t[j];
          assert ([x] + s)[1].id != ([x] + s)[k + 2].id;
        }
      }
    }
  }

  lemma {:induction false} DistinctIdsSort(le: (Source, Source) -> bool, s: seq<Source>)
    requires DistinctIds(s)
    ensures DistinctIds(Order.Sort(le, s))
  {
    if s != [] {
      DistinctIdsSort(le, s[1..]);
      var t := Order.Sort(le, s[1..]);
      Order.SortElements(le, s[1..]);
      forall j | 0 <= j < |t| ensures t[j].id != s[0].id {
        assert t[j] in s[1..];
      }
      assert DistinctIds([s[0]] + t);
      DistinctIdsInsert(le, s[0], t);
    }
  }

  /** The queue: in age order, each source once. */
  lemma QueueSpec(sources: seq<Source>, p: Policy, now: int)
    requires Sound(p) && DistinctIds(sources)
    ensures Order.Sorted(Older(p.idLe), QueueAt(sources, p, now)) && DistinctIds(QueueAt(sources, p, now))
  {
    OlderIsTotalPreorder(p.idLe);
    Order.SortSorted(Older(p.idLe), Order.Filter(Eligible(Quiet(p, now)), sources));
    DistinctIdsFilter(Eligible(Quiet(p, now)), sources);
    DistinctIdsSort(Older(p.idLe), Order.Filter(Eligible(Quiet(p, now)), sources));
  }

  // ----- the undispatched part of the queue moves up -----

  /** A source waiting at `now` sorts strictly before anything stale later that was not waiting. */
  lemma WaitingSortsFirst(x: Source, y: Source, p: Policy, now: int)
    requires Sound(p) && IsSourceStale(x, now, p.floorMin) && !IsSourceStale(y, now, p.floorMin)
    ensures Older(p.idLe)(x, y) && !Older(p.idLe)(y, x)
  {
  }

  /** Filtering the waiting sources out of the stale ones of either tick gives the same list. */
  lemma {:induction false} WaitingUnmoved(sources: seq<Source>, waiting: Source -> bool, stale: Source -> bool,
                                          step: Source -> Source)
    requires forall s :: s in sources ==> (waiting(s) ==> stale(s) && step(s) == s) && (waiting(step(s)) <==> waiting(s))
    ensures Order.Filter(waiting, Order.Filter(stale, Order.Map(step, sources))) == Order.Filter(waiting, sources)
  {
    if sources != [] {
      WaitingUnmoved(sources[1..], waiting, stale, step);
      assert sources[0] in sources;
      assert Order.Map(step, sources)[1..] == Order.Map(step, sources[1..]);
      var rest := Order.Filter(stale, Order.Map(step, sources[1..]));
      assert ([step(sources[0])] + rest)[1..] == rest;
    }
  }

  lemma HeadSize(q: seq<Source>, n: nat, head: Source -> bool)
    requires n <= |q| && forall i :: 0 <= i < |q| ==> (head(q[i]) <==> i < n)
    ensures |Order.Filter(head, q)| == n
  {
    assert q == q[..n] + q[n..];
    Order.FilterConcat(head, q[..n], q[n..]);
    Order.FilterAll(head, q[..n]);
    Order.FilterNone(head, q[n..]);
  }

  /** The part of a sorted queue after position `n` is the sort of its own members. */
  lemma TailIsSortOfTail(le: (Source, Source) -> bool, stale: seq<Source>, n: nat,
                         head: Source -> bool, tail: Source -> bool)
    requires n <= |stale| && forall s :: tail(s) == !head(s)
    requires forall i :: 0 <= i < |stale| ==> (head(Order.Sort(le, stale)[i]) <==> i < n)
    requires Order.Separates(le, head, stale)
    ensures Order.Sort(le, Order.Filter(tail, stale)) == Order.Sort(le, stale)[n..]
  {
    var q := Order.Sort(le, stale);
    Order.SortSplit(le, head, tail, stale);
    Order.SortFilterSize(le, head, stale);
    HeadSize(q, n, head);
  }

  function OneOf(queue: seq<Source>): Source -> bool {
    (s: Source) => HasId(queue, s.id)
  }

  function NotOneOf(queue: seq<Source>): Source -> bool {
    (s: Source) => !HasId(queue, s.id)
  }

  /** In a queue without repeated ids, membership by id tells positions apart. */
  lemma PositionsById(q: seq<Source>, n: nat, i: nat)
    requires DistinctIds(q) && n <= |q| && i < |q|
    ensures HasId(q[..n], q[i].id) <==> i < n
    ensures HasId(q[n..], q[i].id) <==> i >= n
  {
  }

  lemma SameIdSameSource(sources: seq<Source>, a: Source, b: Source)
    requires DistinctIds(sources) && a in sources && b in sources && a.id == b.id
    ensures a == b
  {
  }

  /** Membership by id is membership, for a queue of these sources. */
  lemma MemberById(sources: seq<Source>, q: seq<Source>, n: nat, s: Source)
    requires DistinctIds(sources) && DistinctIds(q) && n <= |q| && s in sources
    requires forall x :: x in q ==> x in sources
    ensures s in q <==> HasId(q[..n], s.id) || HasId(q[n..], s.id)
    ensures !(HasId(q[..n], s.id) && HasId(q[n..], s.id))
  {
    if HasId(q[..n], s.id) {
      var i :| 0 <= i < n && q[..n][i].id == s.id;
      assert q[i] in q;
      SameIdSameSource(sources, q[i], s);
      PositionsById(q, n, i);
    } else if HasId(q[n..], s.id) {
      var i :| 0 <= i < |q| - n && q[n..][i].id == s.id;
      assert q[n + i] in q;
      SameIdSameSource(sources, q[n + i], s);
    } else if s in q {
      var i :| 0 <= i < |q| && q[i] == s;
      PositionsById(q, n, i);
    }
  }

  /** A source is stale exactly when it is dispatched or waiting, and never both. */
  lemma WaitingAt(sources: seq<Source>, p: Policy, now: int, s: Source)
    requires Sound(p) && DistinctIds(sources) && s in sources
    ensures var q := QueueAt(sources, p, now); var n := Taken(q, p.fanoutMax);
            && (IsSourceStale(s, now, p.floorMin) <==> HasId(q[..n], s.id) || HasId(q[n..], s.id))
            && !(HasId(q[..n], s.id) && HasId(q[n..], s.id))
  {
    var q := QueueAt(sources, p, now);
    QueueElements(sources, p, now);
    QueueSpec(sources, p, now);
    MemberById(sources, q, Taken(q, p.fanoutMax), s);
  }

  /** The undispatched queue is the sort of the waiting sources. */
  lemma WaitingIsSorted(sources: seq<Source>, p: Policy, now: int)
    requires Sound(p) && DistinctIds(sources)
    ensures var q := QueueAt(sources, p, now); var n := Taken(q, p.fanoutMax);
            q[n..] == Order.Sort(Older(p.idLe), Order.Filter(OneOf(q[n..]), sources))
  {
    var q := QueueAt(sources, p, now);
    var n := Taken(q, p.fanoutMax);
    var eligible := Eligible(Quiet(p, now));
    var stale := Order.Filter(eligible, sources);
    QueueSpec(sources, p, now);
    QueueElements(sources, p, now);
    Order.FilterElements(eligible, sources);
    forall i | 0 <= i < |q| ensures OneOf(q[..n])(q[i]) <==> i < n {
      PositionsById(q, n, i);
    }
    HeadSortsFirst(sources, p, now);
    TailIsSortOfTail(Older(p.idLe), stale, n, OneOf(q[..n]), NotOneOf(q[..n]));
    forall s | s in stale ensures NotOneOf(q[..n])(s) == OneOf(q[n..])(s) {
      WaitingAt(sources, p, now, s);
    }
    Order.FilterAgree(NotOneOf(q[..n]), OneOf(q[n..]), stale);
    forall s | s in sources && OneOf(q[n..])(s) ensures eligible(s) {
      WaitingAt(sources, p, now, s);
    }
    WaitingUnmoved(sources, OneOf(q[n..]), eligible, Same());
    assert Order.Map(Same(), sources) == sources;
  }

  function Same(): Source -> Source {
    (s: Source) => s
  }

  lemma HeadPair(q: seq<Source>, idLe: (string, string) -> bool, n: nat, x: Source, y: Source)
    requires Order.TotalOrder(idLe) && Order.Sorted(Older(idLe), q) && DistinctIds(q) && n <= |q|
    requires x in q && y in q && HasId(q[..n], x.id) && !HasId(q[..n], y.id)
    ensures Older(idLe)(x, y) && !Older(idLe)(y, x)
  {
  }

  lemma HeadSortsFirst(sources: seq<Source>, p: Policy, now: int)
    requires Sound(p) && DistinctIds(sources)
    ensures var q := QueueAt(sources, p, now); var n := Taken(q, p.fanoutMax);
            Order.Separates(Older(p.idLe), OneOf(q[..n]), Order.Filter(Eligible(Quiet(p, now)), sources))
  {
    var q := QueueAt(sources, p, now);
    var n := Taken(q, p.fanoutMax);
    var stale := Order.Filter(Eligible(Quiet(p, now)), sources);
    QueueSpec(sources, p, now);
    Order.SortElements(Older(p.idLe), stale);
    forall x, y | x in stale && y in stale && OneOf(q[..n])(x) && !OneOf(q[..n])(y)
      ensures Older(p.idLe)(x, y) && !Older(p.idLe)(y, x)
    {
      HeadPair(q, p.idLe, n, x, y);
    }
  }

  /** After the tick, a waiting source is as it was, and nothing else turns stale with an older stamp. */
  lemma StepOfSource(sources: seq<Source>, p: Policy, now: int, stamps: string -> int, s: Source)
    requires Sound(p) && DistinctIds(sources) && s in sources
    requires forall id :: stamps(id) >= now
    ensures var q := QueueAt(sources, p, now); var n := Taken(q, p.fanoutMax);
            var s' := Stamped(s, q[..n], stamps);
            && s'.id == s.id
            && (HasId(q[n..], s.id) ==> s' == s && IsSourceStale(s, now, p.floorMin))
            && (!HasId(q[n..], s.id) ==> !IsSourceStale(s', now, p.floorMin))
  {
    WaitingAt(sources, p, now, s);
  }

  lemma StaleStays(s: Source, now: int, now': int, floorMin: int)
    requires now <= now' && IsSourceStale(s, now, floorMin)
    ensures IsSourceStale(s, now', floorMin)
  {
  }

  function StampedWith(done: seq<Source>, stamps: string -> int): Source -> Source {
    (s: Source) => Stamped(s, done, stamps)
  }

  /** What was not dispatched heads the next queue, in the same order. */
  lemma QueueMovesUp(sources: seq<Source>, p: Policy, now: int, stamps: string -> int, now': int)
    requires Sound(p) && DistinctIds(sources) && now <= now'
    requires forall id :: stamps(id) >= now
    ensures var q := QueueAt(sources, p, now);
            q[Taken(q, p.fanoutMax)..] <= QueueAt(AfterTick(sources, p, now, stamps), p, now')
  {
    var q := QueueAt(sources, p, now);
    var n := Taken(q, p.fanoutMax);
    var sources' := AfterTick(sources, p, now, stamps);
    var waiting, others := OneOf(q[n..]), NotOneOf(q[n..]);
    var eligible' := Eligible(Quiet(p, now'));
    var stale' := Order.Filter(eligible', sources');
    var step := StampedWith(q[..n], stamps);
    assert sources' == Order.Map(step, sources);
    forall s | s in sources
      ensures (waiting(s) ==> eligible'(s) && step(s) == s) && (waiting(step(s)) <==> waiting(s))
    {
      StepOfSource(sources, p, now, stamps, s);
      if waiting(s) {
        StaleStays(s, now, now', p.floorMin);
      }
    }
    WaitingUnmoved(sources, waiting, eligible', step);
    WaitingIsSorted(sources, p, now);
    assert Order.Separates(Older(p.idLe), waiting, stale') by {
      Order.FilterElements(eligible', sources');
      forall x, y | x in stale' && y in stale' && waiting(x) && !waiting(y)
        ensures Older(p.idLe)(x, y) && !Older(p.idLe)(y, x)
      {
        NewcomerSortsLast(sources, p, now, stamps, x, y);
      }
    }
    Order.SortSplit(Older(p.idLe), waiting, others, stale');
  }

  lemma NewcomerSortsLast(sources: seq<Source>, p: Policy, now: int, stamps: string -> int, x: Source, y: Source)
    requires Sound(p) && DistinctIds(sources) && forall id :: stamps(id) >= now
    requires x in AfterTick(sources, p, now, stamps) && y in AfterTick(sources, p, now, stamps)
    requires var q := QueueAt(sources, p, now); var n := Taken(q, p.fanoutMax);
             HasId(q[n..], x.id) && !HasId(q[n..], y.id)
    ensures Older(p.idLe)(x, y) && !Older(p.idLe)(y, x)
  {
    var sources' := AfterTick(sources, p, now, stamps);
    var i :| 0 <= i < |sources'| && sources'[i] == x;
    var j :| 0 <= j < |sources'| && sources'[j] == y;
    StepOfSource(sources, p, now, stamps, sources[i]);
    StepOfSource(sources, p, now, stamps, sources[j]);
    WaitingSortsFirst(x, y, p, now);
  }

  // ----- whole runs -----

  lemma AfterTickDistinct(sources: seq<Source>, p: Policy, now: int, stamps: string -> int)
    requires DistinctIds(sources)
    ensures DistinctIds(AfterTick(sources, p, now, stamps))
  {
  }

  /** The sources when tick `k` looks at them. */
  function SourcesAt(sources: seq<Source>, p: Policy, ticks: seq<Tick>, k: nat): seq<Source>
    requires k <= |ticks|
    decreases k
  {
    if k == 0 then sources
    else SourcesAt(AfterTick(sources, p, ticks[0].now, ticks[0].stamps), p, ticks[1..], k - 1)
  }

  /** The queue tick `k` sees. */
  function QueueOf(sources: seq<Source>, p: Policy, ticks: seq<Tick>, k: nat): seq<Source>
    requires k < |ticks|
  {
    QueueAt(SourcesAt(sources, p, ticks, k), p, ticks[k].now)
  }

  lemma TimelyTail(ticks: seq<Tick>)
    requires Timely(ticks) && ticks != []
    ensures Timely(ticks[1..])
  {
  }

  /** When tick `k` looks, `s` stands at place `i` of the queue. */
  ghost predicate StandsAt(sources: seq<Source>, p: Policy, ticks: seq<Tick>, k: nat, i: nat, s: Source)
    requires k < |ticks|
  {
    i < |QueueOf(sources, p, ticks, k)| && QueueOf(sources, p, ticks, k)[i] == s
  }

  /** One tick moves everything it does not dispatch up by exactly `fanoutMax` places. */
  lemma OneTickUp(sources: seq<Source>, p: Policy, ticks: seq<Tick>, i: nat, s: Source) returns (next: seq<Source>)
    requires Sound(p) && DistinctIds(sources) && Timely(ticks) && |ticks| > 1
    requires StandsAt(sources, p, ticks, 0, p.fanoutMax + i, s)
    ensures next == AfterTick(sources, p, ticks[0].now, ticks[0].stamps)
    ensures DistinctIds(next) && Timely(ticks[1..]) && StandsAt(next, p, ticks[1..], 0, i, s)
  {
    next := AfterTick(sources, p, ticks[0].now, ticks[0].stamps);
    QueueMovesUp(sources, p, ticks[0].now, ticks[0].stamps, ticks[1].now);
    AfterTickDistinct(sources, p, ticks[0].now, ticks[0].stamps);
    TimelyTail(ticks);
  }

  lemma StandsLater(sources: seq<Source>, p: Policy, ticks: seq<Tick>, k: nat, i: nat, s: Source)
    requires 0 < k < |ticks|
    requires StandsAt(AfterTick(sources, p, ticks[0].now, ticks[0].stamps), p, ticks[1..], k - 1, i, s)
    ensures StandsAt(sources, p, ticks, k, i, s)
  {
  }

  /** Every tick moves a waiting source up by exactly `fanoutMax` places until it is dispatched. */
  lemma {:induction false} MovesUp(sources: seq<Source>, p: Policy, ticks: seq<Tick>, k: nat, i: nat, s: Source)
    requires Sound(p) && DistinctIds(sources) && Timely(ticks) && k < |ticks|
    requires StandsAt(sources, p, ticks, 0, Times(p.fanoutMax, k) + i, s)
    ensures StandsAt(sources, p, ticks, k, i, s)
    decreases k
  {
    if k > 0 {
      var place := Times(p.fanoutMax, k - 1) + i;
      assert p.fanoutMax + place == Times(p.fanoutMax, k) + i;
      var next := OneTickUp(sources, p, ticks, place, s);
      MovesUp(next, p, ticks[1..], k - 1, i, s);
      StandsLater(sources, p, ticks, k, i, s);
    }
  }

  ghost predicate DispatchedAtTick(sources: seq<Source>, p: Policy, ticks: seq<Tick>, k: nat, s: Source)
    requires k < |ticks|
  {
    s in Dispatched(SourcesAt(sources, p, ticks, k), p, ticks[k].now)
  }

  lemma FrontIsDispatched(sources: seq<Source>, p: Policy, ticks: seq<Tick>, k: nat, i: nat, s: Source)
    requires k < |ticks| && StandsAt(sources, p, ticks, k, i, s) && i < p.fanoutMax
    ensures DispatchedAtTick(sources, p, ticks, k, s)
  {
  }

  lemma RestIsNotDispatched(sources: seq<Source>, p: Policy, ticks: seq<Tick>, k: nat, i: nat, s: Source)
    requires Sound(p) && DistinctIds(sources) && k < |ticks|
    requires StandsAt(sources, p, ticks, k, i, s) && i >= p.fanoutMax
    ensures !DispatchedAtTick(sources, p, ticks, k, s)
  {
    var now := SourcesAt(sources, p, ticks, k);
    SourcesAtDistinct(sources, p, ticks, k);
    QueueSpec(now, p, ticks[k].now);
    var q := QueueOf(sources, p, ticks, k);
    PositionsById(q, Taken(q, p.fanoutMax), i);
    if s in q[..Taken(q, p.fanoutMax)] {
      assert HasId(q[..Taken(q, p.fanoutMax)], s.id);
    }
  }

  lemma NotBeforeItsRound(sources: seq<Source>, p: Policy, ticks: seq<Tick>, j: nat, k: nat, i: nat, s: Source)
    requires Sound(p) && DistinctIds(sources) && Timely(ticks) && j < k < |ticks|
    requires StandsAt(sources, p, ticks, 0, Times(p.fanoutMax, k) + i, s)
    ensures !DispatchedAtTick(sources, p, ticks, j, s)
  {
    var ahead := TimesBetween(j, k, p.fanoutMax);
    MovesUp(sources, p, ticks, j, ahead + i, s);
    RestIsNotDispatched(sources, p, ticks, j, ahead + i, s);
  }

  /** The rank written as full rounds and a remainder. */
  lemma DispatchedInRound(sources: seq<Source>, p: Policy, ticks: seq<Tick>, k: nat, i: nat, s: Source)
    requires Sound(p) && DistinctIds(sources) && Timely(ticks) && k < |ticks| && i < p.fanoutMax
    requires StandsAt(sources, p, ticks, 0, Times(p.fanoutMax, k) + i, s)
    ensures DispatchedAtTick(sources, p, ticks, k, s)
    ensures forall j: nat :: j < k ==> !DispatchedAtTick(sources, p, ticks, j, s)
  {
    MovesUp(sources, p, ticks, k, i, s);
    FrontIsDispatched(sources, p, ticks, k, i, s);
    forall j: nat | j < k ensures !DispatchedAtTick(sources, p, ticks, j, s) {
      NotBeforeItsRound(sources, p, ticks, j, k, i, s);
    }
  }

  lemma {:induction false} TimesBetween(j: nat, k: nat, f: nat) returns (ahead: nat)
    requires j < k
    ensures Times(f, k) == Times(f, j) + ahead && ahead >= f
    decreases k
  {
    if j == k - 1 {
      ahead := f;
    } else {
      var rest := TimesBetween(j, k - 1, f);
      ahead := rest + f;
    }
  }

  lemma {:induction false} TimesIsProduct(k: nat, f: nat)
    ensures Times(f, k) == k * f
  {
    if k > 0 {
      TimesIsProduct(k - 1, f);
      assert k * f == (k - 1) * f + f;
    }
  }

  lemma RankAsTimes(f: nat, r: nat)
    requires f >= 1
    ensures r == Times(f, r / f) + r % f && r % f < f
  {
    TimesIsProduct(r / f, f);
    assert r == f * (r / f) + r % f;
  }

  /**
   * Fairness: with no failures and every dispatched cycle succeeding before the next tick, the source of
   * rank `r` is dispatched at tick `r / fanoutMax`, counting from 0, and at no tick before it.
   */
  lemma DispatchedByRank(sources: seq<Source>, p: Policy, ticks: seq<Tick>, r: nat)
    requires Sound(p) && DistinctIds(sources) && Timely(ticks) && ticks != []
    requires r < |QueueOf(sources, p, ticks, 0)| && r / p.fanoutMax < |ticks|
    ensures DispatchedAtTick(sources, p, ticks, r / p.fanoutMax, QueueOf(sources, p, ticks, 0)[r])
    ensures forall j: nat :: j < r / p.fanoutMax ==>
      !DispatchedAtTick(sources, p, ticks, j, QueueOf(sources, p, ticks, 0)[r])
  {
    var s := QueueOf(sources, p, ticks, 0)[r];
    RankAsTimes(p.fanoutMax, r);
    assert StandsAt(sources, p, ticks, 0, r, s);
    DispatchedInRound(sources, p, ticks, r / p.fanoutMax, r % p.fanoutMax, s);
  }

  lemma {:induction false} SourcesAtDistinct(sources: seq<Source>, p: Policy, ticks: seq<Tick>, k: nat)
    requires DistinctIds(sources) && k <= |ticks|
    ensures DistinctIds(SourcesAt(sources, p, ticks, k))
    decreases k
  {
    if k > 0 {
      AfterTickDistinct(sources, p, ticks[0].now, ticks[0].stamps);
      SourcesAtDistinct(AfterTick(sources, p, ticks[0].now, ticks[0].stamps), p, ticks[1..], k - 1);
    }
  }

  /** A rank below `ticks * f` falls in one of the first `ticks` rounds. */
  lemma RoundOf(r: nat, f: nat, ticks: nat) returns (k: nat, i: nat)
    requires f >= 1 && r < ticks * f
    ensures k < ticks && i < f && r == Times(f, k) + i
  {
    k, i := r / f, r % f;
    RankAsTimes(f, r);
    TimesIsProduct(k, f);
    CancelFactor(k, ticks, f);
  }

  lemma CancelFactor(a: nat, b: nat, f: nat)
    requires a * f < b * f
    ensures a < b
  {
  }

  /** So nobody waits more than `ceil(N / fanoutMax)` ticks, whatever turns stale meanwhile. */
  lemma NobodyWaitsLonger(sources: seq<Source>, p: Policy, ticks: seq<Tick>, s: Source)
    requires Sound(p) && DistinctIds(sources) && Timely(ticks) && ticks != []
    requires s in sources && IsSourceStale(s, ticks[0].now, p.floorMin)
    requires |ticks| * p.fanoutMax >= |sources|
    ensures exists k: nat :: k < |ticks| && DispatchedAtTick(sources, p, ticks, k, s)
  {
    var r := RankOf(sources, p, ticks, s);
    var k, i := RoundOf(r, p.fanoutMax, |ticks|);
    DispatchedInRound(sources, p, ticks, k, i, s);
  }

  lemma RankOf(sources: seq<Source>, p: Policy, ticks: seq<Tick>, s: Source) returns (r: nat)
    requires ticks != [] && s in sources && IsSourceStale(s, ticks[0].now, p.floorMin)
    ensures r < |sources| && StandsAt(sources, p, ticks, 0, r, s)
  {
    QueueElements(sources, p, ticks[0].now);
    var q := QueueOf(sources, p, ticks, 0);
    r :| 0 <= r < |q| && q[r] == s;
    FilterSize(Eligible(Quiet(p, ticks[0].now)), sources);
  }

  lemma {:induction false} FilterSize(f: Source -> bool, sources: seq<Source>)
    ensures |Order.Filter(f, sources)| <= |sources|
  {
    if sources != [] {
      FilterSize(f, sources[1..]);
    }
  }
}
