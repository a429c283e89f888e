/** Mining test-file durations from interleaved CI log events (scripts/mine-shard-weights.ts). */
module MineWeights {

  /** A test file starts in a job; timestamps are whole milliseconds, so rounding a gap changes nothing. */
  datatype TimingEvent = TimingEvent(job: string, timestampMs: int, file: string)

  type Weights = map<string, int>

  // ----- grouping -----

  /** The events of one job, in stream order. */
  function Projection(events: seq<TimingEvent>, job: string): seq<TimingEvent> {
    if events == [] then []
    else
      var k := |events| - 1;
      Projection(events[..k], job) + if events[k].job == job then [events[k]] else []
  }

  /** The jobs in order of first appearance: the insertion order of the Map. */
  function Jobs(events: seq<TimingEvent>): seq<string> {
    if events == [] then []
    else
      var k := |events| - 1;
      var earlier := Jobs(events[..k]);
      if events[k].job in earlier then earlier else earlier + [events[k].job]
  }

  lemma {:induction false} JobsCover(events: seq<TimingEvent>, job: string)
    ensures job in Jobs(events) <==> Projection(events, job) != []
  {
    if events != [] {
      JobsCover(events[..|events| - 1], job);
    }
  }

  /** A job keeps its place, each job has one, and a new job comes last. */
  lemma {:induction false} JobsByFirstAppearance(a: seq<TimingEvent>, b: seq<TimingEvent>)
    ensures Jobs(a) <= Jobs(a + b)
    ensures forall i, j :: 0 <= i < j < |Jobs(a)| ==> Jobs(a)[i] != Jobs(a)[j]
    decreases |a| + |b|
  {
    if b == [] {
      assert a + b == a;
      if a != [] {
        JobsByFirstAppearance(a[..|a| - 1], b);
      }
    } else {
      var k := |b| - 1;
      JobsByFirstAppearance(a, b[..k]);
      assert (a + b)[..|a + b| - 1] == a + b[..k];
    }
  }

  /** The buckets hold each job's projection. */
  ghost predicate Grouped(events: seq<TimingEvent>, byJob: map<string, seq<TimingEvent>>, order: seq<string>) {
    && order == Jobs(events)
    && (forall j :: Projection(events, j) == if j in byJob then byJob[j] else [])
    && (forall j :: j in byJob <==> j in order)
  }

  lemma GroupStep(events: seq<TimingEvent>, e: TimingEvent, byJob: map<string, seq<TimingEvent>>, order: seq<string>)
    requires Grouped(events, byJob, order)
    ensures var bucket := if e.job in byJob then byJob[e.job] else [];
            Grouped(events + [e], byJob[e.job := bucket + [e]], if e.job in byJob then order else order + [e.job])
  {
  }

  method GroupByJob(events: seq<TimingEvent>) returns (byJob: map<string, seq<TimingEvent>>, order: seq<string>)
    ensures Grouped(events, byJob, order)
  {
    byJob, order := map[], [];
    for i := 0 to |events|
      invariant Grouped(events[..i], byJob, order)
    {
      var e := events[i];
      assert events[..i + 1] == events[..i] + [e];
      GroupStep(events[..i], e, byJob, order);
      if e.job in byJob {
        byJob := byJob[e.job := byJob[e.job] + [e]];
      } else {
        byJob := byJob[e.job := [e]];
        order := order + [e.job];
      }
    }
    assert events[..|events|] == events;
  }

  // ----- gaps -----

  /** A file and how long it was observed to run. */
  datatype Observation = Observation(file: string, ms: int)

  function Gaps(es: seq<TimingEvent>): seq<Observation> {
    if |es| < 2 then []
    else
      var delta := es[1].timestampMs - es[0].timestampMs;
      (if delta < 0 then [] else [Observation(es[0].file, delta)]) + Gaps(es[1..])
  }

  function Note(w: Weights, o: Observation): Weights {
    if o.file !in w || o.ms > w[o.file] then w[o.file := o.ms] else w
  }

  function NoteAll(w: Weights, os: seq<Observation>): Weights
    decreases os
  {
    if os == [] then w else NoteAll(Note(w, os[0]), os[1..])
  }

  function NoteJobs(w: Weights, events: seq<TimingEvent>, jobs: seq<string>): Weights
    decreases jobs
  {
    if jobs == [] then w else NoteJobs(NoteAll(w, Gaps(Projection(events, jobs[0]))), events, jobs[1..])
  }

  function WeightsOf(events: seq<TimingEvent>): Weights {
    NoteJobs(map[], events, Jobs(events))
  }

  lemma GapsStep(w: Weights, es: seq<TimingEvent>, i: nat)
    requires i + 1 < |es|
    ensures var delta := es[i + 1].timestampMs - es[i].timestampMs;
            NoteAll(w, Gaps(es[i..])) ==
            NoteAll(if delta < 0 then w else Note(w, Observation(es[i].file, delta)), Gaps(es[i + 1..]))
  {
    assert es[i..][1..] == es[i + 1..];
    var rest := Gaps(es[i + 1..]);
    var delta := es[i + 1].timestampMs - es[i].timestampMs;
    if delta < 0 {
      assert Gaps(es[i..]) == [] + rest == rest;
    } else {
      assert ([Observation(es[i].file, delta)] + rest)[1..] == rest;
    }
  }

  method NoteBucket(weights: Weights, es: seq<TimingEvent>) returns (noted: Weights)
    ensures noted == NoteAll(weights, Gaps(es))
  {
    noted := weights;
    var i := 0;
    assert es[0..] == es;
    while i + 1 < |es|
      invariant 0 <= i && (i < |es| || i == 0)
      invariant NoteAll(noted, Gaps(es[i..])) == NoteAll(weights, Gaps(es))
    {
      GapsStep(noted, es, i);
      var delta := es[i + 1].timestampMs - es[i].timestampMs;
      if delta >= 0 && (es[i].file !in noted || delta > noted[es[i].file]) {
        noted := noted[es[i].file := delta];
      }
      i := i + 1;
    }
  }

  lemma NoteJobsStep(w: Weights, events: seq<TimingEvent>, jobs: seq<string>, k: nat)
    requires k < |jobs|
    ensures NoteJobs(w, events, jobs[k..]) ==
            NoteJobs(NoteAll(w, Gaps(Projection(events, jobs[k]))), events, jobs[k + 1..])
  {
    assert jobs[k..][1..] == jobs[k + 1..];
  }

  method ComputeWeights(events: seq<TimingEvent>) returns (weights: Weights)
    ensures weights == WeightsOf(events)
  {
    var byJob, order := GroupByJob(events);
    weights := map[];
    for k := 0 to |order|
      invariant NoteJobs(weights, events, order[k..]) == WeightsOf(events)
    {
      NoteJobsStep(weights, events, order, k);
      assert order[k] in order;
      weights := NoteBucket(weights, byJob[order[k]]);
    }
  }

  // ----- what the weights are -----

  /** Some job's log shows `file` followed, `ms` later, by the job's next file. */
  ghost predicate Observed(events: seq<TimingEvent>, job: string, file: string, ms: int) {
    Observation(file, ms) in Gaps(Projection(events, job))
  }

  /** `o` is the gap from event `i` to the next. */
  predicate GapAt(es: seq<TimingEvent>, o: Observation, i: int) {
    && 0 <= i && i + 1 < |es| && es[i].file == o.file
    && o.ms == es[i + 1].timestampMs - es[i].timestampMs && o.ms >= 0
  }

  lemma GapInTail(es: seq<TimingEvent>, o: Observation, i: int)
    requires es != [] && i > 0
    ensures GapAt(es, o, i) <==> GapAt(es[1..], o, i - 1)
  {
  }

  /** Position by position: a gap to the next event of the same job, never a negative one. */
  lemma {:induction false} GapsExactly(es: seq<TimingEvent>, o: Observation)
    ensures o in Gaps(es) <==> exists i :: GapAt(es, o, i)
  {
    if |es| >= 2 {
      GapsExactly(es[1..], o);
      if i :| GapAt(es, o, i) {
        if i > 0 {
          GapInTail(es, o, i);
        }
      }
      if i :| GapAt(es[1..], o, i) {
        GapInTail(es, o, i + 1);
      }
      if o == Observation(es[0].file, es[1].timestampMs - es[0].timestampMs) && o.ms >= 0 {
        assert GapAt(es, o, 0);
      }
    }
  }

  /** Event `i` is the last of the job. */
  ghost predicate LastOfJob(events: seq<TimingEvent>, job: string, i: int) {
    0 <= i < |events| && events[i].job == job && forall m :: i < m < |events| ==> events[m].job != job
  }

  /** Event `k` is the next of the job after event `i`, whatever other jobs log in between. */
  ghost predicate NextOfJob(events: seq<TimingEvent>, job: string, i: int, k: int) {
    0 <= k < |events| && events[k].job == job && LastOfJob(events[..k], job, i)
  }

  ghost predicate EndsIn(es: seq<TimingEvent>, a: TimingEvent) {
    es != [] && es[|es| - 1] == a
  }

  ghost predicate Adjacent(es: seq<TimingEvent>, a: TimingEvent, b: TimingEvent, p: int) {
    0 <= p && p + 1 < |es| && es[p] == a && es[p + 1] == b
  }

  ghost predicate Neighbours(es: seq<TimingEvent>, a: TimingEvent, b: TimingEvent) {
    exists p :: Adjacent(es, a, b, p)
  }

  lemma LastOfJobStep(events: seq<TimingEvent>, e: TimingEvent, job: string, i: int)
    ensures LastOfJob(events + [e], job, i) <==>
            if i == |events| then e.job == job else e.job != job && LastOfJob(events, job, i)
  {
    var longer := events + [e];
    assert longer[|events|] == e;
    assert forall m :: 0 <= m < |events| ==> longer[m] == events[m];
  }

  /** A job's events end in the last of them. */
  lemma {:induction false} ProjectionEnds(events: seq<TimingEvent>, job: string, a: TimingEvent)
    ensures EndsIn(Projection(events, job), a) <==> exists i :: LastOfJob(events, job, i) && events[i] == a
  {
    if events != [] {
      var k := |events| - 1;
      var front, e := events[..k], events[k];
      ProjectionEnds(front, job, a);
      assert front + [e] == events;
      forall i ensures LastOfJob(events, job, i) <==> if i == k then e.job == job else e.job != job && LastOfJob(front, job, i) {
        LastOfJobStep(front, e, job, i);
      }
    }
  }

  lemma NextOfJobStep(events: seq<TimingEvent>, e: TimingEvent, job: string, i: int, k: int)
    ensures NextOfJob(events + [e], job, i, k) <==>
            if k == |events| then e.job == job && LastOfJob(events, job, i) else NextOfJob(events, job, i, k)
  {
    var longer := events + [e];
    assert longer[..|events|] == events;
    if 0 <= k < |events| {
      assert longer[..k] == events[..k] && longer[k] == events[k];
    }
  }

  lemma AdjacentStep(es: seq<TimingEvent>, e: TimingEvent, a: TimingEvent, b: TimingEvent)
    ensures Neighbours(es + [e], a, b) <==> (EndsIn(es, a) && b == e) || Neighbours(es, a, b)
  {
    var longer := es + [e];
    if EndsIn(es, a) && b == e {
      assert Adjacent(longer, a, b, |es| - 1);
    }
    if p :| Adjacent(es, a, b, p) {
      assert Adjacent(longer, a, b, p);
    }
    if p :| Adjacent(longer, a, b, p) {
      assert p + 1 < |es| ==> Adjacent(es, a, b, p);
    }
  }

  /** `a` and then `b` are consecutive events of the job. */
  ghost predicate Consecutive(events: seq<TimingEvent>, job: string, a: TimingEvent, b: TimingEvent) {
    exists i, k :: NextOfJob(events, job, i, k) && events[i] == a && events[k] == b
  }

  lemma ConsecutiveStep(events: seq<TimingEvent>, e: TimingEvent, job: string, a: TimingEvent, b: TimingEvent)
    ensures Consecutive(events + [e], job, a, b) <==>
            || (e.job == job && b == e && exists i :: LastOfJob(events, job, i) && events[i] == a)
            || Consecutive(events, job, a, b)
  {
    var longer := events + [e];
    assert longer[|events|] == e;
    if i, k :| NextOfJob(longer, job, i, k) && longer[i] == a && longer[k] == b {
      NextOfJobStep(events, e, job, i, k);
      assert longer[i] == events[i];
    }
    if i, k :| NextOfJob(events, job, i, k) && events[i] == a && events[k] == b {
      NextOfJobStep(events, e, job, i, k);
      assert longer[i] == a && longer[k] == b;
    }
    if e.job == job && b == e {
      if i :| LastOfJob(events, job, i) && events[i] == a {
        NextOfJobStep(events, e, job, i, |events|);
        assert longer[i] == a;
      }
    }
  }

  /** The neighbours within a job's events are its consecutive events in the log. */
  lemma {:induction false} ProjectionNeighbours(events: seq<TimingEvent>, job: string, a: TimingEvent, b: TimingEvent)
    ensures Neighbours(Projection(events, job), a, b) <==> Consecutive(events, job, a, b)
  {
    if events != [] {
      var k := |events| - 1;
      var front, e := events[..k], events[k];
      var es := Projection(front, job);
      ProjectionNeighbours(front, job, a, b);
      assert front + [e] == events;
      ConsecutiveStep(front, e, job, a, b);
      if e.job == job {
        ProjectionEnds(front, job, a);
        AdjacentStep(es, e, a, b);
        assert Projection(events, job) == es + [e];
      } else {
        assert Projection(events, job) == es;
      }
    }
  }

  /** What a log shows of a file, in terms of the log itself: the time from an event of it to the job's next event. */
  lemma ObservedExactly(events: seq<TimingEvent>, job: string, file: string, ms: int)
    ensures Observed(events, job, file, ms) <==>
            ms >= 0 && exists a, b :: Consecutive(events, job, a, b) && a.file == file && b.timestampMs - a.timestampMs == ms
  {
    var es, o := Projection(events, job), Observation(file, ms);
    GapsExactly(es, o);
    if i :| GapAt(es, o, i) {
      assert Adjacent(es, es[i], es[i + 1], i);
      ProjectionNeighbours(events, job, es[i], es[i + 1]);
    }
    if a, b :| Consecutive(events, job, a, b) && a.file == file && b.timestampMs - a.timestampMs == ms && ms >= 0 {
      ProjectionNeighbours(events, job, a, b);
      var p :| Adjacent(es, a, b, p);
      assert GapAt(es, o, p);
    }
  }

  /** `r` is `w` with the observations folded in: for each file, the largest value seen. */
  ghost predicate Folded(w: Weights, os: seq<Observation>, r: Weights) {
    && (forall f :: f in r <==> f in w || exists o :: o in os && o.file == f)
    && (forall f :: f in w ==> f in r && r[f] >= w[f])
    && (forall o :: o in os ==> o.file in r && r[o.file] >= o.ms)
    && (forall f :: f in r ==> (f in w && r[f] == w[f]) || Observation(f, r[f]) in os)
  }

  lemma FoldedStep(w: Weights, o: Observation, os: seq<Observation>, r: Weights)
    requires Folded(Note(w, o), os, r)
    ensures Folded(w, [o] + os, r)
  {
  }

  lemma {:induction false} NoteAllSpec(w: Weights, os: seq<Observation>)
    ensures Folded(w, os, NoteAll(w, os))
    decreases os
  {
    if os != [] {
      NoteAllSpec(Note(w, os[0]), os[1..]);
      FoldedStep(w, os[0], os[1..], NoteAll(w, os));
      assert os == [os[0]] + os[1..];
    }
  }

  /** What folding in the gaps of `jobs` yields. */
  ghost predicate MaxOver(w: Weights, r: Weights, events: seq<TimingEvent>, jobs: seq<string>) {
    && (forall f :: f in r ==> (f in w && r[f] == w[f]) || exists j :: j in jobs && Observed(events, j, f, r[f]))
    && (forall f :: f in w ==> f in r && r[f] >= w[f])
    && (forall j, f, ms :: j in jobs && Observed(events, j, f, ms) ==> f in r && r[f] >= ms)
  }

  /** The gaps of one job folded in. */
  lemma NoteJobSpec(w: Weights, events: seq<TimingEvent>, job: string)
    ensures MaxOver(w, NoteAll(w, Gaps(Projection(events, job))), events, [job])
  {
    var os := Gaps(Projection(events, job));
    var r := NoteAll(w, os);
    NoteAllSpec(w, os);
    forall f | f in r ensures (f in w && r[f] == w[f]) || exists j :: j in [job] && Observed(events, j, f, r[f]) {
      assert Observation(f, r[f]) in os ==> Observed(events, job, f, r[f]) && job in [job];
    }
    forall j, f, ms | j in [job] && Observed(events, j, f, ms) ensures f in r && r[f] >= ms {
      assert Observation(f, ms).file in r && r[Observation(f, ms).file] >= Observation(f, ms).ms;
    }
  }

  lemma MaxOverBoth(w: Weights, mid: Weights, r: Weights, events: seq<TimingEvent>, a: seq<string>, b: seq<string>)
    requires MaxOver(w, mid, events, a) && MaxOver(mid, r, events, b)
    ensures MaxOver(w, r, events, a + b)
  {
    forall f | f in r ensures (f in w && r[f] == w[f]) || exists j :: j in a + b && Observed(events, j, f, r[f]) {
      if f in mid && r[f] == mid[f] {
        if !(f in w && r[f] == w[f]) {
          var j :| j in a && Observed(events, j, f, r[f]);
          assert j in a + b;
        }
      } else {
        var j :| j in b && Observed(events, j, f, r[f]);
        assert j in a + b;
      }
    }
  }

  lemma {:induction false} NoteJobsSpec(w: Weights, events: seq<TimingEvent>, jobs: seq<string>)
    ensures MaxOver(w, NoteJobs(w, events, jobs), events, jobs)
    decreases jobs
  {
    if jobs != [] {
      var mid := NoteAll(w, Gaps(Projection(events, jobs[0])));
      NoteJobSpec(w, events, jobs[0]);
      NoteJobsSpec(mid, events, jobs[1..]);
      MaxOverBoth(w, mid, NoteJobs(w, events, jobs), events, [jobs[0]], jobs[1..]);
      assert jobs == [jobs[0]] + jobs[1..];
    }
  }

  /** The mined weight of a file is the largest gap observed for it in any job, and only observed files have one. */
  lemma WeightsExactly(events: seq<TimingEvent>)
    ensures var w := WeightsOf(events);
            && (forall f :: f in w <==> exists j, ms :: Observed(events, j, f, ms))
            && (forall f :: f in w ==> exists j :: Observed(events, j, f, w[f]))
            && (forall j, f, ms :: Observed(events, j, f, ms) ==> f in w && ms <= w[f])
  {
    var w := WeightsOf(events);
    NoteJobsSpec(map[], events, Jobs(events));
    forall j, f, ms | Observed(events, j, f, ms) ensures f in w && ms <= w[f] {
      JobsCover(events, j);
    }
    forall f | f in w ensures exists j, ms :: Observed(events, j, f, ms) {
      var j :| j in Jobs(events) && Observed(events, j, f, w[f]);
    }
  }

  /** However the jobs' lines interleave in the log, the mined weights are the same. */
  lemma InterleavingIrrelevant(a: seq<TimingEvent>, b: seq<TimingEvent>)
    requires forall j :: Projection(a, j) == Projection(b, j)
    ensures WeightsOf(a) == WeightsOf(b)
  {
    WeightsExactly(a);
    WeightsExactly(b);
    forall j, f, ms ensures Observed(a, j, f, ms) <==> Observed(b, j, f, ms) {
    }
    WeightsBelow(a, b);
    WeightsBelow(b, a);
  }

  lemma WeightsBelow(a: seq<TimingEvent>, b: seq<TimingEvent>)
    requires forall j, f, ms :: Observed(a, j, f, ms) ==> Observed(b, j, f, ms)
    ensures forall f :: f in WeightsOf(a) ==> f in WeightsOf(b) && WeightsOf(a)[f] <= WeightsOf(b)[f]
  {
    WeightsExactly(a);
    WeightsExactly(b);
    forall f | f in WeightsOf(a) ensures f in WeightsOf(b) && WeightsOf(a)[f] <= WeightsOf(b)[f] {
      var j :| Observed(a, j, f, WeightsOf(a)[f]);
      assert Observed(b, j, f, WeightsOf(a)[f]);
    }
  }
}
