/** Per-source autopilot dispatch: freshness gate, failure cooldown, oldest-first cap (src/commands/autopilot-fanout.ts). */
module Fanout {
  import opened Common
  import Order

  const MS_PER_MIN: int := 60_000
  const FAILURE_COOLDOWN_EXP_CAP: nat := 4

  /** A timestamp field of a source's config: absent (or empty), a string no date parses from, or a time in ms. */
  datatype Stamp = Missing | Unparseable | At(ms: int)

  datatype Source = Source(id: string, lastFullCycleAt: Stamp, lastSourceCycleAt: Stamp)

  datatype SourceFailure = SourceFailure(count: nat, lastFailedAt: int)

  datatype CooldownOpts = CooldownOpts(baseMin: int, capMin: int)

  function Parsed(stamp: Stamp): Option<int> {
    match stamp
    case At(ms) => Some(ms)
    case _ => None
  }

  function ReadLastFullCycleAt(src: Source): Option<int> {
    Parsed(src.lastFullCycleAt)
  }

  /** The newer field wins whenever it is present, even when no date parses from it. */
  function ReadLastSuccessAt(src: Source): Option<int> {
    Parsed(if src.lastSourceCycleAt.Missing? then src.lastFullCycleAt else src.lastSourceCycleAt)
  }

  predicate IsSourceStale(src: Source, now: int, floorMin: int) {
    match ReadLastFullCycleAt(src)
    case None => true
    case Some(last) => now - last >= floorMin * MS_PER_MIN
  }

  function Min(a: int, b: int): int {
    if a <= b then a else b
  }

  function Pow2(n: nat): nat {
    if n == 0 then 1 else 2 * Pow2(n - 1)
  }

  function CooldownMinForCount(count: int, opts: CooldownOpts): int {
    if count <= 0 || opts.baseMin <= 0 then 0
    else Min(opts.baseMin * Pow2(Min(count - 1, FAILURE_COOLDOWN_EXP_CAP)), opts.capMin)
  }

  predicate IsInFailureCooldown(failure: Option<SourceFailure>, lastSuccessAt: Option<int>, now: int, opts: CooldownOpts) {
    && opts.baseMin > 0
    && failure.Some? && failure.value.count > 0
    && !(lastSuccessAt.Some? && lastSuccessAt.value >= failure.value.lastFailedAt)
    && now - failure.value.lastFailedAt < CooldownMinForCount(failure.value.count, opts) * MS_PER_MIN
  }

  // ----- the failure window -----

  /** The failures later than the cutoff of a query issued at `asked`. */
  function InWindow(history: seq<int>, asked: int, sinceMin: int): seq<int> {
    if history == [] then []
    else (if history[0] > asked - sinceMin * MS_PER_MIN then [history[0]] else [])
         + InWindow(history[1..], asked, sinceMin)
  }

  function Latest(times: seq<int>): int
    requires times != []
  {
    if |times| == 1 then times[0]
    else
      var rest := Latest(times[1..]);
      if times[0] > rest then times[0] else rest
  }

  /** The grouped row of one source: how many failures, and the latest. */
  function Summary(times: seq<int>): Option<SourceFailure> {
    if times == [] then None else Some(SourceFailure(|times|, Latest(times)))
  }

  /** One source's recent failures: its dead or failed cycle jobs are `history`, the query is issued at `asked`. */
  function RecentFailure(history: seq<int>, asked: int, sinceMin: int): Option<SourceFailure> {
    Summary(InWindow(history, asked, sinceMin))
  }

  /** The claim-time guard, and equally the dispatch gate: the window is `capMin` minutes. */
  predicate IsSourceInCooldown(history: seq<int>, lastSuccessAt: Option<int>, asked: int, now: int, opts: CooldownOpts) {
    IsInFailureCooldown(RecentFailure(history, asked, opts.capMin), lastSuccessAt, now, opts)
  }

  // ----- selection -----

  /** Oldest first, sources that never completed a cycle before all others; ids break ties by `idLe`. */
  predicate OldestFirst(a: Source, b: Source, idLe: (string, string) -> bool) {
    var la, lb := ReadLastFullCycleAt(a), ReadLastFullCycleAt(b);
    if la == lb then idLe(a.id, b.id)
    else la.None? || (lb.Some? && la.value <= lb.value)
  }

  function Older(idLe: (string, string) -> bool): (Source, Source) -> bool {
    (a: Source, b: Source) => OldestFirst(a, b, idLe)
  }

  /** What the gates need: the clock, the floor, failures by source and the cooldown knobs. */
  datatype Gate = Gate(now: int, floorMin: int, failures: map<string, SourceFailure>, opts: CooldownOpts)

  function FailureOf(src: Source, gate: Gate): Option<SourceFailure> {
    if src.id in gate.failures then Some(gate.failures[src.id]) else None
  }

  predicate InCooldown(src: Source, gate: Gate) {
    IsInFailureCooldown(FailureOf(src, gate), ReadLastSuccessAt(src), gate.now, gate.opts)
  }

  function Fresh(gate: Gate): Source -> bool {
    (src: Source) => !IsSourceStale(src, gate.now, gate.floorMin)
  }

  function Held(gate: Gate): Source -> bool {
    (src: Source) => IsSourceStale(src, gate.now, gate.floorMin) && InCooldown(src, gate)
  }

  function Eligible(gate: Gate): Source -> bool {
    (src: Source) => IsSourceStale(src, gate.now, gate.floorMin) && !InCooldown(src, gate)
  }

  /** The eligible sources in dispatch order. */
  function Queue(sources: seq<Source>, gate: Gate, idLe: (string, string) -> bool): seq<Source> {
    Order.Sort(Older(idLe), Order.Filter(Eligible(gate), sources))
  }

  function Taken(queue: seq<Source>, fanoutMax: nat): (n: nat)
    ensures n <= |queue| && n <= fanoutMax
  {
    if |queue| <= fanoutMax then |queue| else fanoutMax
  }

  datatype Selection = Selection(dispatch: seq<Source>, skippedFresh: seq<Source>, skippedCap: seq<Source>,
                                 skippedCooldown: seq<Source>)

  function Select(sources: seq<Source>, fanoutMax: nat, gate: Gate, idLe: (string, string) -> bool): Selection {
    var queue := Queue(sources, gate, idLe);
    var n := Taken(queue, fanoutMax);
    Selection(queue[..n], Order.Filter(Fresh(gate), sources), queue[n..], Order.Filter(Held(gate), sources))
  }

  method SelectSourcesForDispatch(sources: seq<Source>, fanoutMax: nat, gate: Gate, idLe: (string, string) -> bool)
    returns (r: Selection)
    ensures r == Select(sources, fanoutMax, gate, idLe)
  {
    var stale: seq<Source>, upToDate: seq<Source>, cooldown: seq<Source> := [], [], [];
    for i := 0 to |sources|
      invariant upToDate == Order.Filter(Fresh(gate), sources[..i])
      invariant cooldown == Order.Filter(Held(gate), sources[..i])
      invariant stale == Order.Filter(Eligible(gate), sources[..i])
    {
      var s := sources[i];
      assert sources[..i + 1] == sources[..i] + [s];
      Order.FilterAppend(Fresh(gate), sources[..i], s);
      Order.FilterAppend(Held(gate), sources[..i], s);
      Order.FilterAppend(Eligible(gate), sources[..i], s);
      if !IsSourceStale(s, gate.now, gate.floorMin) {
        upToDate := upToDate + [s];
        continue;
      }
      if InCooldown(s, gate) {
        cooldown := cooldown + [s];
        continue;
      }
      stale := stale + [s];
    }
    assert sources[..|sources|] == sources;
    stale := Order.Sort(Older(idLe), stale);
    var n := Taken(stale, fanoutMax);
    r := Selection(stale[..n], upToDate, stale[n..], cooldown);
  }
}
