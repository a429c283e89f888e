/** What the dispatch gates read of a source, field by field, and the order in which they let sources through. */
module GateTheorems {
  import opened Common
  import opened Fanout
  import opened FairnessTheorems
  import Order

  // ----- the length of a cooldown -----

  /** The cooldown doubles with each failure up to the fifth, and is cut at the cap. */
  lemma CooldownDoubles(count: int, opts: CooldownOpts)
    ensures count <= 0 || opts.baseMin <= 0 ==> CooldownMinForCount(count, opts) == 0
    ensures count > 0 && opts.baseMin > 0 ==>
              var factor := if count >= 5 then 16 else [1, 2, 4, 8][count - 1];
              && CooldownMinForCount(count, opts) <= opts.baseMin * factor
              && CooldownMinForCount(count, opts) <= opts.capMin
              && (CooldownMinForCount(count, opts) == opts.baseMin * factor || CooldownMinForCount(count, opts) == opts.capMin)
  {
    PowersOfTwo();
  }

  lemma PowersOfTwo()
    ensures Pow2(0) == 1 && Pow2(1) == 2 && Pow2(2) == 4 && Pow2(3) == 8 && Pow2(4) == 16
  {
    assert Pow2(2) == 2 * Pow2(1) && Pow2(3) == 2 * Pow2(2) && Pow2(4) == 2 * Pow2(3);
  }

  /** The window counts each failure later than its cutoff, and no other. */
  lemma {:induction false} WindowCounts(history: seq<int>, asked: int, sinceMin: int, t: int)
    ensures multiset(InWindow(history, asked, sinceMin))[t] == if asked - t < sinceMin * 60_000 then multiset(history)[t] else 0
  {
    if history != [] {
      WindowCounts(history[1..], asked, sinceMin, t);
      assert history == [history[0]] + history[1..];
    }
  }

  // ----- the two stamps -----

  /** No full cycle on record, or one at least `floorMin` minutes old; the per-source stamp plays no part. */
  predicate IsDue(s: Source, now: int, floorMin: int) {
    s.lastFullCycleAt.At? ==> now - s.lastFullCycleAt.ms >= floorMin * 60_000
  }

  /** The per-source stamp tells of a success at `t` or later, or the full-cycle stamp does and there is no per-source one. */
  predicate SucceededSince(s: Source, t: int) {
    || (s.lastSourceCycleAt.At? && s.lastSourceCycleAt.ms >= t)
    || (s.lastSourceCycleAt.Missing? && s.lastFullCycleAt.At? && s.lastFullCycleAt.ms >= t)
  }

  /** A failure on record, no success since, and less time gone by than the cooldown for that many failures. */
  predicate IsHeldBack(s: Source, gate: Gate) {
    && gate.opts.baseMin > 0
    && s.id in gate.failures
    && gate.failures[s.id].count > 0
    && !SucceededSince(s, gate.failures[s.id].lastFailedAt)
    && gate.now - gate.failures[s.id].lastFailedAt < CooldownMinForCount(gate.failures[s.id].count, gate.opts) * 60_000
  }

  lemma GatesByField(s: Source, gate: Gate)
    ensures IsSourceStale(s, gate.now, gate.floorMin) <==> IsDue(s, gate.now, gate.floorMin)
    ensures InCooldown(s, gate) <==> IsHeldBack(s, gate)
  {
  }

  /** Which list a source is in, in terms of its fields. */
  lemma SelectByField(sources: seq<Source>, fanoutMax: nat, gate: Gate, idLe: (string, string) -> bool, s: Source)
    requires s in sources
    ensures var r := Select(sources, fanoutMax, gate, idLe);
            && (s in r.skippedFresh <==> !IsDue(s, gate.now, gate.floorMin))
            && (s in r.skippedCooldown <==> IsDue(s, gate.now, gate.floorMin) && IsHeldBack(s, gate))
            && (s in r.dispatch + r.skippedCap <==> IsDue(s, gate.now, gate.floorMin) && !IsHeldBack(s, gate))
  {
    var queue, n := Queue(sources, gate, idLe), Taken(Queue(sources, gate, idLe), fanoutMax);
    GatesByField(s, gate);
    Order.FilterElements(Fresh(gate), sources);
    Order.FilterElements(Held(gate), sources);
    Order.FilterElements(Eligible(gate), sources);
    Order.SortElements(Older(idLe), Order.Filter(Eligible(gate), sources));
    assert queue[..n] + queue[n..] == queue;
  }

  /**
   * A per-source success at or after the last failure frees a source whatever the full-cycle stamp says; an older or
   * unparseable per-source stamp is not rescued by any full-cycle stamp; without one the full-cycle stamp takes its place.
   */
  lemma StampThatCounts(s: Source, gate: Gate, other: Stamp)
    ensures s.lastSourceCycleAt.At? && s.id in gate.failures && s.lastSourceCycleAt.ms >= gate.failures[s.id].lastFailedAt ==>
              !InCooldown(s, gate)
    ensures !s.lastSourceCycleAt.Missing? ==> (InCooldown(s.(lastFullCycleAt := other), gate) <==> InCooldown(s, gate))
    ensures s.lastSourceCycleAt.Missing? ==>
              (InCooldown(s, gate) <==> InCooldown(s.(lastSourceCycleAt := s.lastFullCycleAt), gate))
  {
  }

  // ----- the order of dispatch -----

  /** Never completed before ever completed, then by the time of the full cycle, then by id. */
  predicate GoesFirst(a: Source, b: Source, idLe: (string, string) -> bool) {
    if a.lastFullCycleAt.At? && b.lastFullCycleAt.At? && a.lastFullCycleAt.ms != b.lastFullCycleAt.ms
    then a.lastFullCycleAt.ms < b.lastFullCycleAt.ms
    else if a.lastFullCycleAt.At? != b.lastFullCycleAt.At? then b.lastFullCycleAt.At?
    else idLe(a.id, b.id)
  }

  lemma OlderGoesFirst(a: Source, b: Source, idLe: (string, string) -> bool)
    ensures Older(idLe)(a, b) <==> GoesFirst(a, b, idLe)
  {
  }

  /** The sources not held back go in that order, and the first `fanoutMax` of them go now. */
  lemma DispatchInOrder(sources: seq<Source>, fanoutMax: nat, gate: Gate, idLe: (string, string) -> bool)
    requires Order.TotalOrder(idLe)
    ensures var r := Select(sources, fanoutMax, gate, idLe);
            var line := r.dispatch + r.skippedCap;
            && (forall i, j :: 0 <= i < j < |line| ==> GoesFirst(line[i], line[j], idLe))
            && |r.dispatch| == if |line| <= fanoutMax then |line| else fanoutMax
  {
    var r := Select(sources, fanoutMax, gate, idLe);
    var line := r.dispatch + r.skippedCap;
    SelectPartitions(sources, fanoutMax, gate, idLe);
    InOrderByField(line, idLe);
    assert r.skippedCap == [] ==> line == r.dispatch;
  }

  lemma InOrderByField(line: seq<Source>, idLe: (string, string) -> bool)
    requires Order.Sorted(Older(idLe), line)
    ensures forall i, j :: 0 <= i < j < |line| ==> GoesFirst(line[i], line[j], idLe)
  {
    forall i, j | 0 <= i < j < |line| ensures GoesFirst(line[i], line[j], idLe) {
      OlderGoesFirst(line[i], line[j], idLe);
    }
  }
}
