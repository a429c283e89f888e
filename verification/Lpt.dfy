/**
 * Longest-processing-time-first assignment of weights to `n` shards, and Graham's bound for it.
 * An assignment is a sequence of shard numbers, one for each weight.
 */
module Lpt {

  ghost predicate Assignment(a: seq<nat>, len: nat, n: nat) {
    |a| == len && forall i :: 0 <= i < len ==> a[i] < n
  }

  ghost predicate NonNegative(ws: seq<real>) {
    forall i :: 0 <= i < |ws| ==> ws[i] >= 0.0
  }

  ghost predicate Descending(ws: seq<real>) {
    forall i, j :: 0 <= i < j < |ws| ==> ws[i] >= ws[j]
  }

  /** What the weights assigned to shard `s` add up to. */
  function Load(ws: seq<real>, a: seq<nat>, s: nat): real
    requires |a| == |ws|
  {
    if ws == [] then 0.0
    else
      var k := |ws| - 1;
      Load(ws[..k], a[..k], s) + if a[k] == s then ws[k] else 0.0
  }

  lemma LoadLast(ws: seq<real>, a: seq<nat>, m: nat, s: nat)
    requires ws != [] && |a| == |ws| - 1
    ensures var k := |ws| - 1;
            Load(ws, a + [m], s) == Load(ws[..k], a, s) + if m == s then ws[k] else 0.0
  {
    assert (a + [m])[..|a|] == a;
  }

  function Loads(ws: seq<real>, a: seq<nat>, n: nat): (r: seq<real>)
    requires |a| == |ws|
    ensures |r| == n
    ensures forall s :: 0 <= s < n ==> r[s] == Load(ws, a, s)
  {
    seq(n, s requires 0 <= s => Load(ws, a, s))
  }

  /** The least-loaded shard, the lowest number among ties. */
  ghost predicate IsArgMin(loads: seq<real>, m: nat) {
    && m < |loads|
    && (forall i :: 0 <= i < |loads| ==> loads[m] <= loads[i])
    && (forall i :: 0 <= i < m ==> loads[m] < loads[i])
  }

  function ArgMin(loads: seq<real>): (m: nat)
    requires loads != []
    ensures IsArgMin(loads, m)
  {
    if |loads| == 1 then 0
    else
      var k := |loads| - 1;
      var m := ArgMin(loads[..k]);
      if loads[k] < loads[m] then k else m
  }

  /** Each weight in turn goes to the shard that is least loaded so far. */
  function Assign(ws: seq<real>, n: nat): (a: seq<nat>)
    requires n > 0
    ensures Assignment(a, |ws|, n)
  {
    if ws == [] then []
    else
      var k := |ws| - 1;
      var a := Assign(ws[..k], n);
      a + [ArgMin(Loads(ws[..k], a, n))]
  }

  function Sum(xs: seq<real>): real {
    if xs == [] then 0.0 else Sum(xs[..|xs| - 1]) + xs[|xs| - 1]
  }

  // ----- sums over shards -----

  /** The loads of the first `n` shards added up. */
  function TotalLoad(ws: seq<real>, a: seq<nat>, n: nat): real
    requires |a| == |ws|
  {
    if n == 0 then 0.0 else TotalLoad(ws, a, n - 1) + Load(ws, a, n - 1)
  }

  lemma {:induction false} TotalLoadStep(ws: seq<real>, a: seq<nat>, n: nat)
    requires |a| == |ws| && ws != []
    ensures var k := |ws| - 1;
            TotalLoad(ws, a, n) == TotalLoad(ws[..k], a[..k], n) + if a[k] < n then ws[k] else 0.0
  {
    if n > 0 {
      TotalLoadStep(ws, a, n - 1);
    }
  }

  lemma {:induction false} TotalLoadEmpty(n: nat)
    ensures TotalLoad([], [], n) == 0.0
  {
    if n > 0 {
      TotalLoadEmpty(n - 1);
    }
  }

  /** Every assignment distributes the same total. */
  lemma {:induction false} TotalLoadIsSum(ws: seq<real>, a: seq<nat>, n: nat)
    requires Assignment(a, |ws|, n)
    ensures TotalLoad(ws, a, n) == Sum(ws)
  {
    if ws == [] {
      TotalLoadEmpty(n);
    } else {
      TotalLoadStep(ws, a, n);
      TotalLoadIsSum(ws[..|ws| - 1], a[..|ws| - 1], n);
    }
  }

  lemma {:induction false} TotalLoadAtLeast(ws: seq<real>, a: seq<nat>, n: nat, low: real)
    requires |a| == |ws| && forall s: nat :: s < n ==> low <= Load(ws, a, s)
    ensures n as real * low <= TotalLoad(ws, a, n)
  {
    if n > 0 {
      TotalLoadAtLeast(ws, a, n - 1, low);
      assert n as real * low == (n - 1) as real * low + low;
    }
  }

  lemma {:induction false} TotalLoadAtMost(ws: seq<real>, a: seq<nat>, n: nat, high: real)
    requires |a| == |ws| && forall s: nat :: s < n ==> Load(ws, a, s) <= high
    ensures TotalLoad(ws, a, n) <= n as real * high
  {
    if n > 0 {
      TotalLoadAtMost(ws, a, n - 1, high);
      assert n as real * high == (n - 1) as real * high + high;
    }
  }

  lemma {:induction false} LoadNonNegative(ws: seq<real>, a: seq<nat>, s: nat)
    requires |a| == |ws| && NonNegative(ws)
    ensures Load(ws, a, s) >= 0.0
  {
    if ws != [] {
      LoadNonNegative(ws[..|ws| - 1], a[..|ws| - 1], s);
    }
  }

  /** A prefix of the weights loads no shard more than all of them do. */
  lemma {:induction false} LoadPrefix(ws: seq<real>, a: seq<nat>, s: nat, k: nat)
    requires |a| == |ws| && NonNegative(ws) && k <= |ws|
    ensures Load(ws[..k], a[..k], s) <= Load(ws, a, s)
  {
    if k < |ws| {
      var l := |ws| - 1;
      LoadPrefix(ws[..l], a[..l], s, k);
      assert ws[..l][..k] == ws[..k] && a[..l][..k] == a[..k];
    } else {
      assert ws[..k] == ws && a[..k] == a;
    }
  }

  // ----- Graham's bound -----

  /**
   * With `w` the lightest weight, above a third of `t`: one unit for a weight, two for a weight that
   * cannot share a shard with `w` within `t`.
   */
  function Units(ws: seq<real>, w: real, t: real): (us: seq<real>)
    ensures |us| == |ws|
  {
    seq(|ws|, i requires 0 <= i < |ws| => if ws[i] > t - w then 2.0 else 1.0)
  }

  lemma UnitsPrefix(ws: seq<real>, w: real, t: real, k: nat)
    requires k <= |ws|
    ensures Units(ws, w, t)[..k] == Units(ws[..k], w, t)
  {
  }

  /** Two units on a shard leave no room for `w`, and three do not fit at all. */
  lemma {:induction false} UnitsFillShard(ws: seq<real>, a: seq<nat>, s: nat, w: real, t: real)
    requires |a| == |ws| && 3.0 * w > t && 0.0 < w <= t
    requires forall i :: 0 <= i < |ws| ==> ws[i] >= w
    ensures var u, l := Load(Units(ws, w, t), a, s), Load(ws, a, s);
            || (u == 0.0 && l == 0.0)
            || (u == 1.0 && w <= l <= t - w)
            || (u == 2.0 && l > t - w)
            || (u >= 3.0 && l > t)
  {
    if ws != [] {
      var k := |ws| - 1;
      UnitsFillShard(ws[..k], a[..k], s, w, t);
      UnitsPrefix(ws, w, t, k);
    }
  }

  /** A job heavier than a third of `t` always finds a shard where it ends within `t`. */
  lemma HeavyStep(ws: seq<real>, a: seq<nat>, n: nat, m: nat, b: seq<nat>, t: real)
    requires ws != [] && n > 0 && Descending(ws) && NonNegative(ws)
    requires Assignment(a, |ws| - 1, n) && IsArgMin(Loads(ws[..|ws| - 1], a, n), m)
    requires Assignment(b, |ws|, n) && forall s: nat :: s < n ==> Load(ws, b, s) <= t
    requires 3.0 * ws[|ws| - 1] > t
    ensures Load(ws[..|ws| - 1], a, m) + ws[|ws| - 1] <= t
  {
    var k := |ws| - 1;
    var w, p := ws[k], ws[..k];
    LoadNonNegative(p, b[..k], b[k]);
    assert Load(ws, b, b[k]) == Load(p, b[..k], b[k]) + w;
    assert 0.0 <= w <= t;
    var us := Units(ws, w, t);
    UnitsPrefix(ws, w, t, k);
    // the competing assignment has at most two units on a shard, so at most 2n in all
    forall s: nat | s < n ensures Load(us, b, s) <= 2.0 {
      UnitsFillShard(ws, b, s, w, t);
    }
    TotalLoadAtMost(us, b, n, 2.0);
    TotalLoadIsSum(us, b, n);
    assert Sum(us) == Sum(us[..k]) + us[k] && us[k] >= 1.0;
    if Load(p, a, m) + w > t {
      // then every shard already holds two units: 2n units before the last job
      forall s: nat | s < n ensures Load(us[..k], a, s) >= 2.0 {
        UnitsFillShard(p, a, s, w, t);
        assert Loads(p, a, n)[m] <= Loads(p, a, n)[s];
      }
      TotalLoadAtLeast(us[..k], a, n, 2.0);
      TotalLoadIsSum(us[..k], a, n);
    }
  }

  /** `load` is at most the mean of `n` shards within `t` with `w` taken out, plus `w`. */
  ghost predicate WithinMean(n: real, load: real, w: real, t: real) {
    n * load <= n * t + (n - 1.0) * w
  }

  lemma LeastLoad(ws: seq<real>, a: seq<nat>, n: nat, m: nat)
    requires |a| == |ws| && IsArgMin(Loads(ws, a, n), m)
    ensures forall s: nat :: s < n ==> Load(ws, a, m) <= Load(ws, a, s)
  {
    var loads := Loads(ws, a, n);
    forall s: nat | s < n ensures Load(ws, a, m) <= Load(ws, a, s) {
      assert loads[m] <= loads[s];
    }
  }

  lemma MeanAtLeast(ws: seq<real>, a: seq<nat>, n: nat, low: real)
    requires Assignment(a, |ws|, n) && forall s: nat :: s < n ==> low <= Load(ws, a, s)
    ensures n as real * low <= Sum(ws)
  {
    TotalLoadAtLeast(ws, a, n, low);
    TotalLoadIsSum(ws, a, n);
  }

  lemma MeanAtMost(ws: seq<real>, b: seq<nat>, n: nat, t: real)
    requires Assignment(b, |ws|, n) && forall s: nat :: s < n ==> Load(ws, b, s) <= t
    ensures Sum(ws) <= n as real * t
  {
    TotalLoadAtMost(ws, b, n, t);
    TotalLoadIsSum(ws, b, n);
  }

  /** Averaging: any job ends within the mean load plus its own weight. */
  lemma LightStep(ws: seq<real>, a: seq<nat>, n: nat, m: nat, b: seq<nat>, t: real)
    requires ws != [] && n > 0 && NonNegative(ws)
    requires Assignment(a, |ws| - 1, n) && IsArgMin(Loads(ws[..|ws| - 1], a, n), m)
    requires Assignment(b, |ws|, n) && forall s: nat :: s < n ==> Load(ws, b, s) <= t
    ensures WithinMean(n as real, Load(ws[..|ws| - 1], a, m) + ws[|ws| - 1], ws[|ws| - 1], t)
  {
    var k := |ws| - 1;
    var w, p := ws[k], ws[..k];
    var low, r := Load(p, a, m), n as real;
    LeastLoad(p, a, n, m);
    MeanAtLeast(p, a, n, low);
    MeanAtMost(ws, b, n, t);
    assert Sum(ws) == Sum(p) + w;
    MeanStep(r, low, w, t, Sum(ws));
  }

  lemma MeanStep(r: real, m: real, w: real, t: real, sum: real)
    requires r * m <= sum - w && sum <= r * t
    ensures WithinMean(r, m + w, w, t)
  {
  }

  /** `load` is at most `(4/3 - 1/(3n)) * t`. */
  ghost predicate WithinGraham(n: real, load: real, t: real) {
    3.0 * n * load <= (4.0 * n - 1.0) * t
  }

  lemma StepWithinGraham(ws: seq<real>, a: seq<nat>, n: nat, m: nat, b: seq<nat>, t: real)
    requires ws != [] && n > 0 && Descending(ws) && NonNegative(ws)
    requires Assignment(a, |ws| - 1, n) && IsArgMin(Loads(ws[..|ws| - 1], a, n), m)
    requires Assignment(b, |ws|, n) && forall s: nat :: s < n ==> Load(ws, b, s) <= t
    ensures WithinGraham(n as real, Load(ws[..|ws| - 1], a, m) + ws[|ws| - 1], t)
  {
    var w := ws[|ws| - 1];
    var l := Load(ws[..|ws| - 1], a, m) + w;
    LoadNonNegative(ws, b, 0);
    assert Load(ws, b, 0) <= t;
    if 3.0 * w > t {
      HeavyStep(ws, a, n, m, b, t);
      OptimalWithinGraham(n as real, l, t);
    } else {
      LightStep(ws, a, n, m, b, t);
      MeanWithinGraham(n as real, l, w, t);
    }
  }

  lemma OptimalWithinGraham(r: real, l: real, t: real)
    requires r >= 1.0 && t >= 0.0 && l <= t
    ensures WithinGraham(r, l, t)
  {
  }

  lemma MeanWithinGraham(r: real, l: real, w: real, t: real)
    requires r >= 1.0 && 3.0 * w <= t && WithinMean(r, l, w, t)
    ensures WithinGraham(r, l, t)
  {
  }

  /**
   * Graham's theorem: against any assignment `b` whose shards all stay within `t`, no shard of the
   * greedy assignment exceeds `(4/3 - 1/(3n)) * t`.
   */
  lemma {:induction false} GrahamBound(ws: seq<real>, n: nat, b: seq<nat>, t: real, s: nat)
    requires n > 0 && s < n && Descending(ws) && NonNegative(ws)
    requires Assignment(b, |ws|, n) && forall s: nat :: s < n ==> Load(ws, b, s) <= t
    ensures WithinGraham(n as real, Load(ws, Assign(ws, n), s), t)
  {
    LoadNonNegative(ws, b, 0);
    assert Load(ws, b, 0) <= t;
    if ws == [] {
      OptimalWithinGraham(n as real, 0.0, t);
    } else {
      var k := |ws| - 1;
      var a := Assign(ws[..k], n);
      var m := ArgMin(Loads(ws[..k], a, n));
      LoadLast(ws, a, m, s);
      if m == s {
        StepWithinGraham(ws, a, n, s, b, t);
      } else {
        forall s': nat | s' < n ensures Load(ws[..k], b[..k], s') <= t {
          LoadPrefix(ws, b, s', k);
        }
        GrahamBound(ws[..k], n, b[..k], t, s);
      }
    }
  }

  // ----- balance -----

  /** The weight placed last on shard `s`, 0 when it is empty. */
  function LastPlaced(ws: seq<real>, a: seq<nat>, s: nat): real
    requires |a| == |ws|
  {
    if ws == [] then 0.0
    else
      var k := |ws| - 1;
      if a[k] == s then ws[k] else LastPlaced(ws[..k], a[..k], s)
  }

  /** After every placement a shard without its last weight is no heavier than any other shard. */
  lemma {:induction false} Balanced(ws: seq<real>, n: nat, s: nat, s': nat)
    requires n > 0 && s < n && s' < n && NonNegative(ws)
    ensures var a := Assign(ws, n);
            Load(ws, a, s) - LastPlaced(ws, a, s) <= Load(ws, a, s')
  {
    if ws != [] {
      var k := |ws| - 1;
      var a := Assign(ws[..k], n);
      var m := ArgMin(Loads(ws[..k], a, n));
      Balanced(ws[..k], n, s, s');
      WithoutLast(ws, a, m, s);
      LoadLast(ws, a, m, s');
      assert Loads(ws[..k], a, n)[m] <= Loads(ws[..k], a, n)[s'];
    }
  }

  /** A shard's load without its last weight, one placement on. */
  lemma WithoutLast(ws: seq<real>, a: seq<nat>, m: nat, s: nat)
    requires ws != [] && |a| == |ws| - 1
    ensures var p := ws[..|ws| - 1];
            Load(ws, a + [m], s) - LastPlaced(ws, a + [m], s)
            == Load(p, a, s) - if m == s then 0.0 else LastPlaced(p, a, s)
  {
    LoadLast(ws, a, m, s);
    assert (a + [m])[..|a|] == a;
  }

  /** The spread between any two shards is at most the largest weight. */
  lemma SpreadAtMostLargest(ws: seq<real>, n: nat, s: nat, s': nat)
    requires n > 0 && s < n && s' < n && NonNegative(ws) && Descending(ws) && ws != []
    ensures Load(ws, Assign(ws, n), s) - Load(ws, Assign(ws, n), s') <= ws[0]
  {
  }

  /** The shard whose turn it is after `k` placements. */
  function Turn(k: nat, n: nat): (r: nat)
    requires n > 0
    ensures r < n
  {
    if k == 0 then 0
    else
      var last := Turn(k - 1, n);
      if last == n - 1 then 0 else last + 1
  }

  /** Shards before `turn` are one weight `c` ahead of `base`, the others at `base`. */
  ghost predicate Ahead(ws: seq<real>, a: seq<nat>, n: nat, turn: nat, base: real, c: real)
    requires |a| == |ws|
  {
    forall s: nat :: s < n ==> Load(ws, a, s) == base + if s < turn then c else 0.0
  }

  lemma TurnIsArgMin(ws: seq<real>, a: seq<nat>, n: nat, turn: nat, base: real, c: real)
    requires |a| == |ws| && turn < n && c > 0.0 && Ahead(ws, a, n, turn, base, c)
    ensures ArgMin(Loads(ws, a, n)) == turn
  {
    RoundRobinTurn(Loads(ws, a, n), turn, base, c);
  }

  lemma TurnTaken(ws: seq<real>, a: seq<nat>, n: nat, turn: nat, base: real, c: real)
    requires ws != [] && |a| == |ws| - 1 && ws[|ws| - 1] == c && turn < n
    requires Ahead(ws[..|ws| - 1], a, n, turn, base, c)
    ensures if turn == n - 1 then Ahead(ws, a + [turn], n, 0, base + c, c)
            else Ahead(ws, a + [turn], n, turn + 1, base, c)
  {
    forall s: nat | s < n
      ensures Load(ws, a + [turn], s) == base + if s < turn + 1 then c else 0.0
    {
      LoadLast(ws, a, turn, s);
    }
  }

  /** Equal positive weights go round robin: shards before the next turn are one weight ahead of `base`. */
  lemma {:induction false} TakesTurns(ws: seq<real>, n: nat, c: real) returns (base: real)
    requires n > 0 && c > 0.0 && forall i :: 0 <= i < |ws| ==> ws[i] == c
    ensures forall i :: 0 <= i < |ws| ==> Assign(ws, n)[i] == Turn(i, n)
    ensures Ahead(ws, Assign(ws, n), n, Turn(|ws|, n), base, c)
  {
    if ws == [] {
      base := 0.0;
    } else {
      var k := |ws| - 1;
      var p, a := ws[..k], Assign(ws[..k], n);
      var prior := TakesTurns(p, n, c);
      var turn := Turn(k, n);
      TurnIsArgMin(p, a, n, turn, prior, c);
      TurnTaken(ws, a, n, turn, prior, c);
      base := if turn == n - 1 then prior + c else prior;
    }
  }

  lemma EqualWeightsRoundRobin(ws: seq<real>, n: nat, c: real)
    requires n > 0 && c > 0.0 && forall i :: 0 <= i < |ws| ==> ws[i] == c
    ensures forall i :: 0 <= i < |ws| ==> Assign(ws, n)[i] == i % n
  {
    var _ := TakesTurns(ws, n, c);
    forall i | 0 <= i < |ws| ensures Assign(ws, n)[i] == i % n {
      TurnIsRemainder(i, n);
    }
  }

  lemma {:induction false} TurnIsRemainder(k: nat, n: nat)
    requires n > 0
    ensures Turn(k, n) == k % n
  {
    if k > 0 {
      TurnIsRemainder(k - 1, n);
      NextTurn(k - 1, n);
    }
  }

  lemma RoundRobinTurn(loads: seq<real>, r: nat, base: real, c: real)
    requires r < |loads| && c > 0.0
    requires forall s :: 0 <= s < |loads| ==> loads[s] == base + if s < r then c else 0.0
    ensures ArgMin(loads) == r
  {
  }

  lemma NextTurn(k: nat, n: nat)
    requires n > 0
    ensures (k + 1) % n == if k % n == n - 1 then 0 else k % n + 1
  {
    var q, r := k / n, k % n;
    if r == n - 1 {
      Remainder(n, q + 1, 0, (k + 1) / n, (k + 1) % n);
    } else {
      Remainder(n, q, r + 1, (k + 1) / n, (k + 1) % n);
    }
  }

  lemma Remainder(n: nat, q: nat, r: nat, q': nat, r': nat)
    requires r < n && r' < n && n * q + r == n * q' + r'
    ensures q == q' && r == r'
  {
    if q < q' {
      assert n * (q' - q) == r - r';
      AtLeastOne(n, q' - q);
    } else if q' < q {
      assert n * (q - q') == r' - r;
      AtLeastOne(n, q - q');
    }
  }

  lemma AtLeastOne(n: nat, d: nat)
    requires d >= 1
    ensures n * d >= n
  {
  }

  /** When every weight is 0 the assignment collapses onto the first shard. */
  lemma {:induction false} ZeroWeightsCollapse(ws: seq<real>, n: nat)
    requires n > 0 && forall i :: 0 <= i < |ws| ==> ws[i] == 0.0
    ensures forall i :: 0 <= i < |ws| ==> Assign(ws, n)[i] == 0
  {
    if ws != [] {
      var k := |ws| - 1;
      ZeroWeightsCollapse(ws[..k], n);
      var a := Assign(ws[..k], n);
      assert Assign(ws, n)[..k] == a;
      forall s: nat | s < n ensures Load(ws[..k], a, s) == 0.0 {
        ZeroLoad(ws[..k], a, s);
      }
      var loads := Loads(ws[..k], a, n);
      assert loads[0] == loads[ArgMin(loads)];
      assert Assign(ws, n) == a + [0];
    }
  }

  lemma {:induction false} ZeroLoad(ws: seq<real>, a: seq<nat>, s: nat)
    requires |a| == |ws| && forall i :: 0 <= i < |ws| ==> ws[i] == 0.0
    ensures Load(ws, a, s) == 0.0
  {
    if ws != [] {
      ZeroLoad(ws[..|ws| - 1], a[..|ws| - 1], s);
    }
  }
}
