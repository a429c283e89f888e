/** Following a job's log by a timestamp watermark (src/commands/agent-logs.ts). */
module AgentLogs {
  import opened Common
  import Order

  /** One line of the timeline. Timestamps are fixed-width ISO strings, so they order like numbers. */
  datatype Event = Event(ts: int, line: string)

  /** What one poll finds: the audit events in time order, the message rows, and whether the job is over. */
  datatype Poll = Poll(audit: seq<Event>, messages: seq<Event>, terminal: bool)

  type Watermark = Option<int>

  predicate IsAfter(e: Event, since: Watermark) {
    since.None? || e.ts > since.value
  }

  function After(since: Watermark): Event -> bool {
    (e: Event) => IsAfter(e, since)
  }

  /** The audit reader keeps events at the watermark; the merge drops them. */
  function AtOrAfter(since: Watermark): Event -> bool {
    (e: Event) => since.None? || e.ts >= since.value
  }

  function ByTs(): (Event, Event) -> bool {
    (a: Event, b: Event) => a.ts <= b.ts
  }

  function Merged(poll: Poll, since: Watermark): seq<Event> {
    Order.Filter(After(since), Order.Filter(AtOrAfter(since), poll.audit)) + Order.Filter(After(since), poll.messages)
  }

  /** What one poll prints. */
  function Dump(poll: Poll, since: Watermark): seq<Event> {
    Order.Sort(ByTs(), Merged(poll, since))
  }

  function MaxTs(since: Watermark, printed: seq<Event>): Watermark
    decreases printed
  {
    if printed == [] then since
    else MaxTs(if since.None? || printed[0].ts > since.value then Some(printed[0].ts) else since, printed[1..])
  }

  /** Everything printed over a sequence of polls. */
  function Printed(since: Watermark, polls: seq<Poll>): seq<Event>
    decreases polls
  {
    if polls == [] then []
    else
      var lines := Dump(polls[0], since);
      lines + Printed(MaxTs(since, lines), polls[1..])
  }

  /** The polls taken: the first, and with `follow` the later ones up to the first that finds the job over. */
  function Taken(polls: seq<Poll>, follow: bool): seq<Poll>
    requires polls != []
  {
    if follow then [polls[0]] + UntilTerminal(polls[1..]) else [polls[0]]
  }

  function UntilTerminal(polls: seq<Poll>): seq<Poll> {
    if polls == [] then []
    else if polls[0].terminal then [polls[0]]
    else [polls[0]] + UntilTerminal(polls[1..])
  }

  class LogReader {
    var lastTs: Watermark
    var output: seq<Event>

    constructor (since: Watermark)
      ensures lastTs == since && output == []
    {
      lastTs := since;
      output := [];
    }

    method DumpSince(poll: Poll)
      modifies this
      ensures output == old(output) + Dump(poll, old(lastTs))
      ensures lastTs == MaxTs(old(lastTs), Dump(poll, old(lastTs)))
    {
      var sinceTs := lastTs;
      var lines := Order.Sort(ByTs(), Merged(poll, sinceTs));
      for i := 0 to |lines|
        invariant output == old(output) + lines[..i]
        invariant MaxTs(lastTs, lines[i..]) == MaxTs(sinceTs, lines)
      {
        assert lines[..i + 1] == lines[..i] + [lines[i]];
        assert lines[i..][1..] == lines[i + 1..];
        output := output + [lines[i]];
        if lastTs.None? || lines[i].ts > lastTs.value {
          lastTs := Some(lines[i].ts);
        }
      }
      assert lines[..|lines|] == lines;
    }

    /** The follow loop; running out of polls is the abort signal. */
    method Follow(polls: seq<Poll>)
      modifies this
      ensures output == old(output) + Printed(old(lastTs), UntilTerminal(polls))
    {
      var i := 0;
      ghost var total := output + Printed(lastTs, UntilTerminal(polls));
      while i < |polls|
        invariant 0 <= i <= |polls|
        invariant output + Printed(lastTs, UntilTerminal(polls[i..])) == total
      {
        FollowStep(output, lastTs, polls, i);
        DumpSince(polls[i]);
        i := i + 1;
        if polls[i - 1].terminal {
          return;
        }
      }
      assert output + [] == output;
    }

    /** `polls` is what the reader would find from now on. */
    method RunAgentLogs(polls: seq<Poll>, follow: bool)
      requires polls != []
      modifies this
      ensures output == old(output) + Printed(old(lastTs), Taken(polls, follow))
    {
      FirstStep(output, lastTs, polls, follow);
      DumpSince(polls[0]);
      if follow {
        Follow(polls[1..]);
      }
    }
  }

  lemma PrintedFirst(output: seq<Event>, since: Watermark, poll: Poll, rest: seq<Poll>)
    ensures var lines := Dump(poll, since);
            output + Printed(since, [poll] + rest) == output + lines + Printed(MaxTs(since, lines), rest)
  {
    assert ([poll] + rest)[1..] == rest;
  }

  lemma PrintedLast(output: seq<Event>, since: Watermark, poll: Poll)
    ensures output + Printed(since, [poll]) == output + Dump(poll, since)
  {
    PrintedFirst(output, since, poll, []);
    assert [poll] + [] == [poll];
    assert Printed(MaxTs(since, Dump(poll, since)), []) == [];
  }

  lemma FollowStep(output: seq<Event>, since: Watermark, polls: seq<Poll>, i: nat)
    requires i < |polls|
    ensures var lines := Dump(polls[i], since);
            output + Printed(since, UntilTerminal(polls[i..])) ==
            if polls[i].terminal then output + lines
            else output + lines + Printed(MaxTs(since, lines), UntilTerminal(polls[i + 1..]))
  {
    assert polls[i..][1..] == polls[i + 1..];
    if polls[i].terminal {
      PrintedLast(output, since, polls[i]);
    } else {
      PrintedFirst(output, since, polls[i], UntilTerminal(polls[i + 1..]));
    }
  }

  lemma FirstStep(output: seq<Event>, since: Watermark, polls: seq<Poll>, follow: bool)
    requires polls != []
    ensures var lines := Dump(polls[0], since);
            output + Printed(since, Taken(polls, follow)) ==
            if follow then output + lines + Printed(MaxTs(since, lines), UntilTerminal(polls[1..])) else output + lines
  {
    if follow {
      PrintedFirst(output, since, polls[0], UntilTerminal(polls[1..]));
    } else {
      PrintedLast(output, since, polls[0]);
    }
  }

  /** Which polls are taken: without following the first alone, otherwise all up to the first later one that finds the job over. */
  lemma TakenExactly(polls: seq<Poll>, follow: bool)
    requires polls != []
    ensures var taken := Taken(polls, follow);
            && taken != [] && taken <= polls
            && (!follow ==> |taken| == 1)
            && (follow ==> forall i :: 0 < i < |taken| - 1 ==> !polls[i].terminal)
            && (follow && |taken| < |polls| ==> |taken| > 1 && polls[|taken| - 1].terminal)
  {
    if follow {
      UntilTerminalExactly(polls[1..]);
      assert polls == [polls[0]] + polls[1..];
    }
  }

  lemma {:induction false} UntilTerminalExactly(polls: seq<Poll>)
    ensures var taken := UntilTerminal(polls);
            && taken <= polls && (polls != [] ==> taken != [])
            && (forall i :: 0 <= i < |taken| - 1 ==> !polls[i].terminal)
            && (|taken| < |polls| ==> polls[|taken| - 1].terminal)
  {
    if polls != [] && !polls[0].terminal {
      var rest := UntilTerminal(polls[1..]);
      UntilTerminalExactly(polls[1..]);
      assert polls == [polls[0]] + polls[1..];
      forall i | 0 <= i < |rest| ensures !([polls[0]] + rest)[i].terminal {
        assert i > 0 ==> ([polls[0]] + rest)[i] == polls[1..][i - 1];
      }
    }
  }

  // ----- one poll -----

  lemma ByTsIsTotalPreorder()
    ensures Order.TotalPreorder(ByTs())
  {
  }

  ghost predicate Visible(poll: Poll, e: Event) {
    e in poll.audit || e in poll.messages
  }

  /** A poll prints what it finds after the watermark, in time order. */
  lemma DumpSpec(poll: Poll, since: Watermark)
    ensures Order.Sorted(ByTs(), Dump(poll, since))
    ensures forall e :: e in Dump(poll, since) <==> Visible(poll, e) && IsAfter(e, since)
  {
    ByTsIsTotalPreorder();
    Order.SortSorted(ByTs(), Merged(poll, since));
    Order.SortElements(ByTs(), Merged(poll, since));
    Order.FilterElements(AtOrAfter(since), poll.audit);
    Order.FilterElements(After(since), Order.Filter(AtOrAfter(since), poll.audit));
    Order.FilterElements(After(since), poll.messages);
  }

  /** The events of one moment after the watermark. */
  function AtAfter(ts: int, since: Watermark): Event -> bool {
    (e: Event) => e.ts == ts && IsAfter(e, since)
  }

  /** Events of the same moment keep their order: audit events as read, then messages as read. */
  lemma TiesKeepOrder(poll: Poll, since: Watermark, ts: int)
    ensures Order.Filter(AtAfter(ts, since), Dump(poll, since)) ==
            Order.Filter(AtAfter(ts, since), poll.audit) + Order.Filter(AtAfter(ts, since), poll.messages)
  {
    var tied, kept := AtAfter(ts, since), Order.Filter(AtOrAfter(since), poll.audit);
    Order.SortStable(ByTs(), Merged(poll, since), tied);
    Order.FilterConcat(tied, Order.Filter(After(since), kept), Order.Filter(After(since), poll.messages));
    Order.FilterNested(tied, After(since), kept);
    Order.FilterNested(tied, AtOrAfter(since), poll.audit);
    Order.FilterNested(tied, After(since), poll.messages);
  }

  lemma {:induction false} MaxTsSpec(since: Watermark, printed: seq<Event>)
    ensures var w := MaxTs(since, printed);
            && (since.Some? || printed != [] ==> w.Some?)
            && (since.Some? ==> w.value >= since.value)
            && (forall e :: e in printed ==> w.Some? && e.ts <= w.value)
            && (w == since || exists e :: e in printed && w == Some(e.ts))
    decreases printed
  {
    if printed != [] {
      MaxTsSpec(if since.None? || printed[0].ts > since.value then Some(printed[0].ts) else since, printed[1..]);
      assert printed == [printed[0]] + printed[1..];
    }
  }

  // ----- any sequence of polls -----

  /** Everything printed is after the starting watermark. */
  lemma {:induction false} PrintedAfter(since: Watermark, polls: seq<Poll>)
    ensures forall e :: e in Printed(since, polls) ==> IsAfter(e, since)
    decreases polls
  {
    if polls != [] {
      var lines := Dump(polls[0], since);
      DumpSpec(polls[0], since);
      MaxTsSpec(since, lines);
      PrintedAfter(MaxTs(since, lines), polls[1..]);
    }
  }

  /** The output never goes back in time, whatever the polls find. */
  lemma {:induction false} OutputInOrder(since: Watermark, polls: seq<Poll>)
    ensures Order.Sorted(ByTs(), Printed(since, polls))
    decreases polls
  {
    if polls != [] {
      var lines := Dump(polls[0], since);
      var later := Printed(MaxTs(since, lines), polls[1..]);
      DumpSpec(polls[0], since);
      MaxTsSpec(since, lines);
      PrintedAfter(MaxTs(since, lines), polls[1..]);
      OutputInOrder(MaxTs(since, lines), polls[1..]);
      Order.SortedConcat(ByTs(), lines, later);
    }
  }

  /** No event is printed more often than a single poll shows it. */
  lemma {:induction false} PrintedOnce(since: Watermark, polls: seq<Poll>, e: Event, n: nat)
    requires forall i :: 0 <= i < |polls| ==> multiset(polls[i].audit + polls[i].messages)[e] <= n
    ensures multiset(Printed(since, polls))[e] <= n
    decreases polls
  {
    if polls != [] {
      var lines := Dump(polls[0], since);
      var later := Printed(MaxTs(since, lines), polls[1..]);
      MaxTsSpec(since, lines);
      PrintedAfter(MaxTs(since, lines), polls[1..]);
      PrintedOnce(MaxTs(since, lines), polls[1..], e, n);
      DumpCount(polls[0], since, e);
      if e in lines {
        assert e !in later;
      }
    }
  }

  lemma {:induction false} FilterCount(p: Event -> bool, s: seq<Event>, e: Event)
    ensures multiset(Order.Filter(p, s))[e] <= multiset(s)[e]
  {
    if s != [] {
      FilterCount(p, s[1..], e);
      assert s == [s[0]] + s[1..];
    }
  }

  lemma DumpCount(poll: Poll, since: Watermark, e: Event)
    ensures multiset(Dump(poll, since))[e] <= multiset(poll.audit + poll.messages)[e]
  {
    Order.SortElements(ByTs(), Merged(poll, since));
    FilterCount(AtOrAfter(since), poll.audit, e);
    FilterCount(After(since), Order.Filter(AtOrAfter(since), poll.audit), e);
    FilterCount(After(since), poll.messages, e);
  }

  // ----- exactly which events are printed -----

  /** At poll `i` the event is there, and everything earlier polls showed was older. */
  ghost predicate NewestAt(polls: seq<Poll>, i: int, e: Event) {
    && 0 <= i < |polls| && Visible(polls[i], e)
    && forall j, f :: 0 <= j < i && Visible(polls[j], f) ==> f.ts < e.ts
  }

  lemma NewestLater(polls: seq<Poll>, e: Event)
    requires polls != []
    ensures (exists i :: NewestAt(polls, i, e)) <==>
            || Visible(polls[0], e)
            || ((forall f :: Visible(polls[0], f) ==> f.ts < e.ts) && exists i :: NewestAt(polls[1..], i, e))
  {
    if i :| NewestAt(polls, i, e) {
      if i > 0 {
        NewestShift(polls, i, e);
      }
    }
    if Visible(polls[0], e) {
      assert NewestAt(polls, 0, e);
    }
    if forall f :: Visible(polls[0], f) ==> f.ts < e.ts {
      if i :| NewestAt(polls[1..], i, e) {
        NewestShift(polls, i + 1, e);
      }
    }
  }

  lemma NewestShift(polls: seq<Poll>, i: int, e: Event)
    requires 0 < i < |polls|
    ensures NewestAt(polls, i, e) <==>
            (forall f :: Visible(polls[0], f) ==> f.ts < e.ts) && NewestAt(polls[1..], i - 1, e)
  {
  }

  /**
   * Exactly which events are printed, for any polls: those after the starting point that, at some poll
   * showing them, are later than everything earlier polls showed. An event that arrives late is lost.
   */
  lemma {:induction false} PrintedExactly(since: Watermark, polls: seq<Poll>, e: Event)
    ensures e in Printed(since, polls) <==> IsAfter(e, since) && exists i :: NewestAt(polls, i, e)
    decreases polls
  {
    if polls != [] {
      var lines := Dump(polls[0], since);
      var w := MaxTs(since, lines);
      DumpSpec(polls[0], since);
      MaxTsSpec(since, lines);
      PrintedExactly(w, polls[1..], e);
      NewestLater(polls, e);
      assert IsAfter(e, w) ==> IsAfter(e, since);
      WatermarkExactly(polls[0], since, e);
    }
  }

  /** Past the new watermark means after the old one and later than everything the poll showed. */
  lemma WatermarkExactly(poll: Poll, since: Watermark, e: Event)
    ensures IsAfter(e, MaxTs(since, Dump(poll, since))) <==>
            IsAfter(e, since) && forall f :: Visible(poll, f) ==> f.ts < e.ts
  {
    var lines := Dump(poll, since);
    DumpSpec(poll, since);
    MaxTsSpec(since, lines);
    if IsAfter(e, MaxTs(since, lines)) {
      forall f | Visible(poll, f) ensures f.ts < e.ts {
        if !IsAfter(f, since) {
          assert f.ts <= since.value;
        }
      }
    }
  }

  // ----- following refines one dump -----

  /** The later poll finds more events, each later than everything the earlier one found. */
  ghost predicate Extends(p: Poll, q: Poll) {
    && p.audit <= q.audit && p.messages <= q.messages
    && (forall e, f :: Visible(p, e) && (f in q.audit[|p.audit|..] || f in q.messages[|p.messages|..]) ==> e.ts < f.ts)
  }

  lemma MergedAfter(poll: Poll, since: Watermark)
    ensures Merged(poll, since) == Order.Filter(After(since), poll.audit) + Order.Filter(After(since), poll.messages)
  {
    Order.FilterNested(After(since), AtOrAfter(since), poll.audit);
  }

  /** What passes a watermark. */
  lemma PassesAfter(s: seq<Event>, w: Watermark)
    ensures forall e :: e in Order.Filter(After(w), s) ==> e in s && IsAfter(e, w)
  {
    Order.FilterElements(After(w), s);
  }

  lemma StaysBelow(s: seq<Event>, since: Watermark, w: Watermark)
    requires forall e :: e in s ==> !IsAfter(e, w)
    ensures forall e :: e in Order.Filter(After(since), s) ==> !IsAfter(e, w)
  {
    Order.FilterElements(After(since), s);
  }

  /** One source of events: old ones stay below the new watermark, new ones pass both alike. */
  lemma SplitSource(low: seq<Event>, high: seq<Event>, since: Watermark, w: Watermark)
    requires forall e :: e in low ==> !IsAfter(e, w)
    requires forall e :: e in high ==> (IsAfter(e, since) <==> IsAfter(e, w))
    ensures Order.Filter(After(since), low + high) == Order.Filter(After(since), low) + Order.Filter(After(w), low + high)
  {
    Order.FilterConcat(After(since), low, high);
    Order.FilterConcat(After(w), low, high);
    Order.FilterNone(After(w), low);
    Order.FilterAgree(After(since), After(w), high);
    assert [] + Order.Filter(After(w), high) == Order.Filter(After(w), high);
  }

  /** The first poll's events stay below its watermark, and for newer ones the two watermarks agree. */
  lemma WatermarkSplits(p: Poll, q: Poll, since: Watermark)
    requires Extends(p, q)
    ensures var w := MaxTs(since, Dump(p, since));
            && (forall e :: e in p.audit || e in p.messages ==> !IsAfter(e, w))
            && (forall f :: f in q.audit[|p.audit|..] || f in q.messages[|p.messages|..] ==>
                  (IsAfter(f, since) <==> IsAfter(f, w)))
  {
    var w := MaxTs(since, Dump(p, since));
    DumpSpec(p, since);
    MaxTsSpec(since, Dump(p, since));
    forall e | e in p.audit || e in p.messages ensures !IsAfter(e, w) {
      assert Visible(p, e);
      WatermarkExactly(p, since, e);
    }
    forall f | f in q.audit[|p.audit|..] || f in q.messages[|p.messages|..]
      ensures IsAfter(f, since) <==> IsAfter(f, w)
    {
      WatermarkExactly(p, since, f);
    }
  }

  /** Two polls print what the second alone would have. */
  lemma TwoPolls(p: Poll, q: Poll, since: Watermark)
    requires Extends(p, q)
    ensures Dump(q, since) == Dump(p, since) + Dump(q, MaxTs(since, Dump(p, since)))
  {
    var w := MaxTs(since, Dump(p, since));
    WatermarkSplits(p, q, since);
    assert q.audit == p.audit + q.audit[|p.audit|..] && q.messages == p.messages + q.messages[|p.messages|..];
    SplitSource(p.audit, q.audit[|p.audit|..], since, w);
    SplitSource(p.messages, q.messages[|p.messages|..], since, w);
    MergedAfter(p, since);
    MergedAfter(q, since);
    MergedAfter(q, w);
    StaysBelow(p.audit, since, w);
    StaysBelow(p.messages, since, w);
    PassesAfter(q.audit, w);
    PassesAfter(q.messages, w);
    InterleavedSort(Order.Filter(After(since), p.audit), Order.Filter(After(w), q.audit),
                    Order.Filter(After(since), p.messages), Order.Filter(After(w), q.messages), w);
  }

  function UpTo(w: Watermark): Event -> bool {
    (e: Event) => !IsAfter(e, w)
  }

  /** With the old events up to `w` and the new ones after it, the merged lists sort apart. */
  lemma InterleavedSort(a0: seq<Event>, a1: seq<Event>, m0: seq<Event>, m1: seq<Event>, w: Watermark)
    requires forall e :: e in a0 || e in m0 ==> !IsAfter(e, w)
    requires forall e :: e in a1 || e in m1 ==> IsAfter(e, w)
    ensures Order.Sort(ByTs(), (a0 + a1) + (m0 + m1)) == Order.Sort(ByTs(), a0 + m0) + Order.Sort(ByTs(), a1 + m1)
  {
    var all := (a0 + a1) + (m0 + m1);
    PickLow(a0, a1, w);
    PickLow(m0, m1, w);
    Order.FilterConcat(UpTo(w), a0 + a1, m0 + m1);
    Order.FilterConcat(After(w), a0 + a1, m0 + m1);
    Order.SortSplit(ByTs(), UpTo(w), After(w), all);
  }

  lemma PickLow(low: seq<Event>, high: seq<Event>, w: Watermark)
    requires forall e :: e in low ==> !IsAfter(e, w)
    requires forall e :: e in high ==> IsAfter(e, w)
    ensures Order.Filter(UpTo(w), low + high) == low && Order.Filter(After(w), low + high) == high
  {
    Order.FilterConcat(UpTo(w), low, high);
    Order.FilterConcat(After(w), low, high);
    Order.FilterAll(UpTo(w), low);
    Order.FilterNone(UpTo(w), high);
    Order.FilterNone(After(w), low);
    Order.FilterAll(After(w), high);
  }

  /**
   * When each new event is later than everything already visible, the whole output of following equals a
   * single sorted dump of what the last poll finds.
   */
  lemma {:induction false} FollowingIsOneDump(since: Watermark, polls: seq<Poll>)
    requires polls != [] && forall i :: 0 <= i < |polls| - 1 ==> Extends(polls[i], polls[i + 1])
    ensures Printed(since, polls) == Dump(polls[|polls| - 1], since)
    decreases polls
  {
    var lines := Dump(polls[0], since);
    if |polls| == 1 {
      assert polls[1..] == [];
      assert lines + [] == lines;
    } else {
      var last := polls[|polls| - 1];
      FollowingIsOneDump(MaxTs(since, lines), polls[1..]);
      ExtendsAll(polls, |polls| - 1);
      TwoPolls(polls[0], last, since);
    }
  }

  lemma {:induction false} ExtendsAll(polls: seq<Poll>, k: nat)
    requires 0 < k < |polls| && forall i :: 0 <= i < |polls| - 1 ==> Extends(polls[i], polls[i + 1])
    ensures Extends(polls[0], polls[k])
  {
    if k > 1 {
      ExtendsAll(polls, k - 1);
      ExtendsTransitive(polls[0], polls[k - 1], polls[k]);
    }
  }

  lemma ExtendsTransitive(p: Poll, q: Poll, r: Poll)
    requires Extends(p, q) && Extends(q, r)
    ensures Extends(p, r)
  {
  }
}
