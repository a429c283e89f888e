/** The failure cooldown over a sliding window: what it holds back, for how long, and that both checks agree. */
module CooldownTheorems {
  import opened Common
  import opened Fanout

  // ----- windows -----

  lemma {:induction false} InWindowMembers(history: seq<int>, asked: int, sinceMin: int)
    ensures forall t :: t in InWindow(history, asked, sinceMin) <==> t in history && t > asked - sinceMin * MS_PER_MIN
  {
    if history != [] {
      InWindowMembers(history[1..], asked, sinceMin);
      assert history == [history[0]] + history[1..];
    }
  }

  /** A later query sees a subset. */
  lemma {:induction false} WindowShrinks(history: seq<int>, asked: int, asked': int, sinceMin: int)
    requires asked <= asked'
    ensures |InWindow(history, asked', sinceMin)| <= |InWindow(history, asked, sinceMin)| <= |history|
  {
    if history != [] {
      WindowShrinks(history[1..], asked, asked', sinceMin);
    }
  }

  lemma {:induction false} LatestSpec(times: seq<int>)
    requires times != []
    ensures Latest(times) in times && forall t :: t in times ==> t <= Latest(times)
  {
    assert times == [times[0]] + times[1..];
    if |times| > 1 {
      LatestSpec(times[1..]);
    }
  }

  /** The latest failure is in the window whenever any is. */
  lemma WindowLatest(history: seq<int>, asked: int, sinceMin: int)
    requires history != []
    ensures InWindow(history, asked, sinceMin) != [] <==> Latest(history) > asked - sinceMin * MS_PER_MIN
    ensures InWindow(history, asked, sinceMin) != [] ==> Latest(InWindow(history, asked, sinceMin)) == Latest(history)
  {
    var w := InWindow(history, asked, sinceMin);
    InWindowMembers(history, asked, sinceMin);
    LatestSpec(history);
    if w != [] {
      LatestSpec(w);
      assert w[0] in w;
    } else {
      assert Latest(history) !in w;
    }
  }

  // ----- the cooldown length -----

  /** More failures never shorten the cooldown; it stays between `min(base, cap)` and `cap`. */
  lemma CooldownBounds(count: int, count': int, opts: CooldownOpts)
    requires 0 < count <= count' && opts.baseMin > 0
    ensures Min(opts.baseMin, opts.capMin) <= CooldownMinForCount(count, opts)
    ensures CooldownMinForCount(count, opts) <= CooldownMinForCount(count', opts) <= opts.capMin
  {
  }

  // ----- exactly when a source is held -----

  /** No success at or after the latest failure. */
  predicate StillFailed(history: seq<int>, lastSuccessAt: Option<int>) {
    history != [] && !(lastSuccessAt.Some? && lastSuccessAt.value >= Latest(history))
  }

  /** Exactly when a source is in cooldown, in terms of its whole history. */
  lemma CooldownExactly(history: seq<int>, lastSuccessAt: Option<int>, asked: int, now: int, opts: CooldownOpts)
    ensures IsSourceInCooldown(history, lastSuccessAt, asked, now, opts) <==>
            && opts.baseMin > 0
            && StillFailed(history, lastSuccessAt)
            && asked - Latest(history) < opts.capMin * MS_PER_MIN
            && now - Latest(history) < CooldownMinForCount(|InWindow(history, asked, opts.capMin)|, opts) * MS_PER_MIN
  {
    if history != [] {
      WindowLatest(history, asked, opts.capMin);
    }
  }

  /** The same check over the full history, without a window. */
  predicate InCooldownFullHistory(history: seq<int>, lastSuccessAt: Option<int>, now: int, opts: CooldownOpts) {
    IsInFailureCooldown(Summary(history), lastSuccessAt, now, opts)
  }

  /** The window only ever holds back less than the full history would. */
  lemma WindowIsSound(history: seq<int>, lastSuccessAt: Option<int>, asked: int, now: int, opts: CooldownOpts)
    requires IsSourceInCooldown(history, lastSuccessAt, asked, now, opts)
    ensures InCooldownFullHistory(history, lastSuccessAt, now, opts)
  {
    CooldownExactly(history, lastSuccessAt, asked, now, opts);
    WindowShrinks(history, asked, asked, opts.capMin);
    CooldownBounds(|InWindow(history, asked, opts.capMin)|, |history|, opts);
  }

  /** Exactly when the window releases a source the full history would hold: the cooldown of its own count is over. */
  lemma WindowReleasesExactly(history: seq<int>, lastSuccessAt: Option<int>, now: int, opts: CooldownOpts)
    requires InCooldownFullHistory(history, lastSuccessAt, now, opts)
    ensures history != []
    ensures !IsSourceInCooldown(history, lastSuccessAt, now, now, opts) <==>
            now - Latest(history) >= CooldownMinForCount(|InWindow(history, now, opts.capMin)|, opts) * MS_PER_MIN
  {
    CooldownExactly(history, lastSuccessAt, now, now, opts);
    CooldownBounds(|history|, |history|, opts);
  }

  /** Sometimes it holds back strictly less: the second failure 100 minutes ago, the first just out of the window. */
  lemma WindowForgets()
    ensures var opts := CooldownOpts(60, 120);
            var history, now := [0, 50 * MS_PER_MIN], 150 * MS_PER_MIN;
            && InCooldownFullHistory(history, None, now, opts)
            && !IsSourceInCooldown(history, None, now, now, opts)
  {
    var opts := CooldownOpts(60, 120);
    var history, now := [0, 50 * MS_PER_MIN], 150 * MS_PER_MIN;
    assert history[1..] == [50 * MS_PER_MIN] && history[1..][1..] == [];
    assert Latest(history) == 50 * MS_PER_MIN;
    assert InWindow(history[1..], now, 120) == [50 * MS_PER_MIN] + InWindow([], now, 120);
    assert InWindow(history, now, 120) == [50 * MS_PER_MIN];
    assert Pow2(0) == 1 && Pow2(1) == 2;
    CooldownExactly(history, None, now, now, opts);
  }

  /** Always held for `min(base, cap)` minutes after the latest failure, whatever the count. */
  lemma HeldAtLeast(history: seq<int>, lastSuccessAt: Option<int>, asked: int, now: int, opts: CooldownOpts)
    requires opts.baseMin > 0 && StillFailed(history, lastSuccessAt)
    requires asked - Latest(history) < Min(opts.baseMin, opts.capMin) * MS_PER_MIN
    requires now - Latest(history) < Min(opts.baseMin, opts.capMin) * MS_PER_MIN
    ensures IsSourceInCooldown(history, lastSuccessAt, asked, now, opts)
  {
    WindowLatest(history, asked, opts.capMin);
    var count := |InWindow(history, asked, opts.capMin)|;
    CooldownBounds(count, count, opts);
    CooldownExactly(history, lastSuccessAt, asked, now, opts);
  }

  /** Never held for `cap` minutes or more after the latest failure. */
  lemma NeverHeldPastCap(history: seq<int>, lastSuccessAt: Option<int>, asked: int, now: int, opts: CooldownOpts)
    requires IsSourceInCooldown(history, lastSuccessAt, asked, now, opts)
    ensures history != [] && now - Latest(history) < opts.capMin * MS_PER_MIN
  {
    var count := |InWindow(history, asked, opts.capMin)|;
    CooldownExactly(history, lastSuccessAt, asked, now, opts);
    CooldownBounds(count, count, opts);
  }

  predicate NoEarlier(a: Option<int>, b: Option<int>) {
    a.None? || (b.Some? && a.value <= b.value)
  }

  /**
   * Dispatch and claim agree: a source found out of cooldown stays out at every later check without a
   * new failure, although the window the count comes from has moved on.
   */
  lemma DispatchClaimAgree(history: seq<int>, success: Option<int>, asked: int, now: int,
                           success': Option<int>, asked': int, now': int, opts: CooldownOpts)
    requires !IsSourceInCooldown(history, success, asked, now, opts)
    requires asked <= asked' && now <= now' && NoEarlier(success, success')
    ensures !IsSourceInCooldown(history, success', asked', now', opts)
  {
    CooldownExactly(history, success, asked, now, opts);
    CooldownExactly(history, success', asked', now', opts);
    if IsSourceInCooldown(history, success', asked', now', opts) {
      WindowLatest(history, asked', opts.capMin);
      WindowShrinks(history, asked, asked', opts.capMin);
      CooldownBounds(|InWindow(history, asked', opts.capMin)|, |InWindow(history, asked, opts.capMin)|, opts);
    }
  }

  // ----- the storm is bounded -----

  /** The gate lets dispatch `i + 1` through after the failures up to `i`. */
  ghost predicate LetThrough(starts: seq<int>, fails: seq<int>, opts: CooldownOpts, i: nat)
    requires i < |fails| && i + 1 < |starts|
  {
    !IsSourceInCooldown(fails[..i + 1], None, starts[i + 1], starts[i + 1], opts)
  }

  /**
   * A source whose every cycle fails: dispatch `i` starts at `starts[i]` and fails at `fails[i]` before
   * the next dispatch, which the gate let through.
   */
  ghost predicate FailingRun(starts: seq<int>, fails: seq<int>, opts: CooldownOpts) {
    && |starts| == |fails| + 1
    && (forall i :: 0 <= i < |fails| ==> starts[i] <= fails[i] <= starts[i + 1])
    && (forall i :: 0 <= i < |fails| ==> LetThrough(starts, fails, opts, i))
  }

  lemma {:induction false} LatestOfRun(fails: seq<int>)
    requires fails != [] && forall i, j :: 0 <= i < j < |fails| ==> fails[i] <= fails[j]
    ensures Latest(fails) == fails[|fails| - 1]
  {
    if |fails| > 1 {
      LatestOfRun(fails[1..]);
    }
  }

  lemma {:induction false} RunIsOrdered(starts: seq<int>, fails: seq<int>, opts: CooldownOpts, i: nat, j: nat)
    requires FailingRun(starts, fails, opts) && i <= j < |fails|
    ensures fails[i] <= fails[j]
  {
    if i < j {
      RunIsOrdered(starts, fails, opts, i, j - 1);
    }
  }

  /** The latest of the failures up to `i` is failure `i`. */
  lemma RunLatest(starts: seq<int>, fails: seq<int>, opts: CooldownOpts, i: nat)
    requires FailingRun(starts, fails, opts) && i < |fails|
    ensures Latest(fails[..i + 1]) == fails[i]
  {
    var history := fails[..i + 1];
    forall a, b | 0 <= a < b < |history| ensures history[a] <= history[b] {
      RunIsOrdered(starts, fails, opts, a, b);
    }
    LatestOfRun(history);
  }

  /** The failures the gate counts when it lets dispatch `i + 1` through. */
  function Counted(starts: seq<int>, fails: seq<int>, opts: CooldownOpts, i: nat): nat
    requires i < |fails| && i + 1 < |starts|
  {
    |InWindow(fails[..i + 1], starts[i + 1], opts.capMin)|
  }

  /** The gate lets a dispatch through exactly when the cooldown of the failures still in the window is over. */
  lemma LetThroughExactly(starts: seq<int>, fails: seq<int>, opts: CooldownOpts, i: nat)
    requires i < |fails| && i + 1 < |starts| && opts.baseMin > 0
    requires Latest(fails[..i + 1]) == fails[i] <= starts[i + 1]
    ensures LetThrough(starts, fails, opts, i) <==>
            starts[i + 1] - fails[i] >= CooldownMinForCount(Counted(starts, fails, opts, i), opts) * MS_PER_MIN
  {
    var history, now, count := fails[..i + 1], starts[i + 1], Counted(starts, fails, opts, i);
    CooldownExactly(history, None, now, now, opts);
    WindowLatest(history, now, opts.capMin);
    if count > 0 {
      CooldownBounds(count, count, opts);
    }
  }

  /** A dispatch waits out the cooldown of the failures still in the window, and at least `min(base, cap)` minutes. */
  lemma GapAtLeast(starts: seq<int>, fails: seq<int>, opts: CooldownOpts, i: nat)
    requires FailingRun(starts, fails, opts) && opts.baseMin > 0 && i < |fails|
    ensures starts[i + 1] - fails[i] >= CooldownMinForCount(Counted(starts, fails, opts, i), opts) * MS_PER_MIN
    ensures starts[i + 1] - fails[i] >= Min(opts.baseMin, opts.capMin) * MS_PER_MIN
  {
    var count := Counted(starts, fails, opts, i);
    RunLatest(starts, fails, opts, i);
    assert LetThrough(starts, fails, opts, i);
    LetThroughExactly(starts, fails, opts, i);
    WindowLatest(fails[..i + 1], starts[i + 1], opts.capMin);
    if count > 0 {
      CooldownBounds(count, count, opts);
    }
  }

  lemma NextMultiple(k: nat, gap: int)
    requires k > 0
    ensures k * gap == (k - 1) * gap + gap
  {
  }

  lemma {:induction false} StormBoundedAt(starts: seq<int>, fails: seq<int>, opts: CooldownOpts, k: nat)
    requires FailingRun(starts, fails, opts) && opts.baseMin > 0 && k <= |fails|
    ensures starts[k] - starts[0] >= k * (Min(opts.baseMin, opts.capMin) * MS_PER_MIN)
  {
    if k > 0 {
      StormBoundedAt(starts, fails, opts, k - 1);
      GapAtLeast(starts, fails, opts, k - 1);
      NextMultiple(k, Min(opts.baseMin, opts.capMin) * MS_PER_MIN);
    }
  }

  /** A source that always fails is dispatched at most once every `min(base, cap)` minutes. */
  lemma StormBounded(starts: seq<int>, fails: seq<int>, opts: CooldownOpts)
    requires FailingRun(starts, fails, opts) && opts.baseMin > 0
    ensures starts[|fails|] - starts[0] >= |fails| * (Min(opts.baseMin, opts.capMin) * MS_PER_MIN)
  {
    StormBoundedAt(starts, fails, opts, |fails|);
  }

  // ----- and the doubling thins it out -----

  /** The cooldowns after 1, 2, ..., `n` failures added up. */
  function TotalCooldown(n: nat, opts: CooldownOpts): int {
    if n == 0 then 0 else TotalCooldown(n - 1, opts) + CooldownMinForCount(n, opts)
  }

  lemma {:induction false} WindowHolds(history: seq<int>, asked: int, sinceMin: int, from: nat)
    requires from <= |history| && forall k :: from <= k < |history| ==> history[k] > asked - sinceMin * MS_PER_MIN
    ensures |InWindow(history, asked, sinceMin)| >= |history| - from
  {
    if history != [] {
      WindowHolds(history[1..], asked, sinceMin, if from == 0 then 0 else from - 1);
    }
  }

  /** Failures `i` to `j - 1`, all later than the window's cutoff, are counted. */
  lemma CountedAtLeast(starts: seq<int>, fails: seq<int>, opts: CooldownOpts, i: nat, j: nat)
    requires FailingRun(starts, fails, opts) && i < j < |fails|
    requires fails[j] - fails[i] < opts.capMin * MS_PER_MIN
    ensures Counted(starts, fails, opts, j - 1) >= j - i
  {
    forall k | i <= k < j ensures fails[..j][k] > starts[j] - opts.capMin * MS_PER_MIN {
      RunIsOrdered(starts, fails, opts, i, k);
    }
    WindowHolds(fails[..j], starts[j], opts.capMin, i);
  }

  /** Failures within one window of the cap are as far apart as all the cooldowns between them together. */
  lemma {:induction false} FailuresSpread(starts: seq<int>, fails: seq<int>, opts: CooldownOpts, i: nat, j: nat)
    requires FailingRun(starts, fails, opts) && opts.baseMin > 0 && i <= j < |fails|
    requires fails[j] - fails[i] < opts.capMin * MS_PER_MIN
    ensures fails[j] - fails[i] >= TotalCooldown(j - i, opts) * MS_PER_MIN
    decreases j
  {
    if i < j {
      RunIsOrdered(starts, fails, opts, j - 1, j);
      FailuresSpread(starts, fails, opts, i, j - 1);
      CountedAtLeast(starts, fails, opts, i, j);
      GapAtLeast(starts, fails, opts, j - 1);
      CooldownBounds(j - i, Counted(starts, fails, opts, j - 1), opts);
    }
  }

  /** So `n` more failures within the cap of one need `n` doubling cooldowns to fit in the cap. */
  lemma WindowCapacity(starts: seq<int>, fails: seq<int>, opts: CooldownOpts, i: nat, n: nat)
    requires FailingRun(starts, fails, opts) && opts.baseMin > 0 && i + n < |fails|
    requires TotalCooldown(n, opts) >= opts.capMin
    ensures fails[i + n] - fails[i] >= opts.capMin * MS_PER_MIN
  {
    if fails[i + n] - fails[i] < opts.capMin * MS_PER_MIN {
      FailuresSpread(starts, fails, opts, i, i + n);
    }
  }

  /** With the default 10 and 120 minutes, no source fails five times within 120 minutes. */
  lemma DefaultsAllowFour(starts: seq<int>, fails: seq<int>, i: nat)
    requires FailingRun(starts, fails, CooldownOpts(10, 120)) && i + 4 < |fails|
    ensures fails[i + 4] - fails[i] >= 120 * MS_PER_MIN
  {
    var opts := CooldownOpts(10, 120);
    assert Pow2(0) == 1 && Pow2(1) == 2 && Pow2(2) == 4 && Pow2(3) == 8;
    assert TotalCooldown(2, opts) == 30;
    assert TotalCooldown(4, opts) == 150;
    WindowCapacity(starts, fails, opts, i, 4);
  }
}
