/** Weight-aware partitioning of test files over CI shards (scripts/sharding.ts). */
module Sharding {
  import opened Common
  import opened Lpt
  import Order

  /** A JavaScript Map from path to milliseconds: its entries in insertion order. */
  type WeightMap = seq<(string, real)>

  datatype RangeError = BadShardCount | BadFallback

  datatype Tuple = Tuple(path: string, weight: real)

  /** What loading guarantees of every value. */
  ghost predicate NonNegativeValues(weights: WeightMap) {
    forall e :: e in weights ==> e.1 >= 0.0
  }

  function Get(weights: WeightMap, file: string): Option<real> {
    if weights == [] then None
    else if weights[0].0 == file then Some(weights[0].1)
    else Get(weights[1..], file)
  }

  function Values(weights: WeightMap): seq<real> {
    Order.Map((e: (string, real)) => e.1, weights)
  }

  predicate AtMost(x: real, y: real) { x <= y }

  function SortedValues(values: seq<real>): (r: seq<real>)
    ensures |r| == |values|
  {
    Order.Sort(AtMost, values)
  }

  function ComputeMedian(values: seq<real>): real {
    if values == [] then 0.0
    else
      var sorted := SortedValues(values);
      var mid := |sorted| / 2;
      if |sorted| % 2 == 0 then (sorted[mid - 1] + sorted[mid]) / 2.0 else sorted[mid]
  }

  /** The weight of a file missing from the map, with the cold-start guard. */
  function Fallback(weights: WeightMap, fallbackWeight: Option<real>): real {
    match fallbackWeight
    case Some(w) => w
    case None => var m := ComputeMedian(Values(weights)); if m == 0.0 then 1.0 else m
  }

  function WeightOf(weights: WeightMap, fallbackWeight: Option<real>, file: string): real {
    match Get(weights, file)
    case Some(w) => w
    case None => Fallback(weights, fallbackWeight)
  }

  predicate HeavierFirst(a: Tuple, b: Tuple) {
    if a.weight != b.weight then a.weight > b.weight else Order.StringLe(a.path, b.path)
  }

  function Tuples(files: seq<string>, weights: WeightMap, fallbackWeight: Option<real>): (r: seq<Tuple>)
    ensures |r| == |files|
  {
    Order.Map((f: string) => Tuple(f, WeightOf(weights, fallbackWeight, f)), files)
  }

  function SortedTuples(files: seq<string>, weights: WeightMap, fallbackWeight: Option<real>): (r: seq<Tuple>)
    ensures |r| == |files|
  {
    Order.Sort(HeavierFirst, Tuples(files, weights, fallbackWeight))
  }

  function Paths(ts: seq<Tuple>): (r: seq<string>)
    ensures |r| == |ts|
  {
    Order.Map((t: Tuple) => t.path, ts)
  }

  function Weights(ts: seq<Tuple>): (r: seq<real>)
    ensures |r| == |ts|
  {
    Order.Map((t: Tuple) => t.weight, ts)
  }

  /** The files assigned to shard `s`, in assignment order. */
  function Select(paths: seq<string>, a: seq<nat>, s: nat): seq<string>
    requires |a| == |paths|
  {
    if paths == [] then []
    else
      var k := |paths| - 1;
      Select(paths[..k], a[..k], s) + if a[k] == s then [paths[k]] else []
  }

  function Shards(paths: seq<string>, a: seq<nat>, n: nat): (r: seq<seq<string>>)
    requires |a| == |paths|
    ensures |r| == n
    ensures forall s :: 0 <= s < n ==> r[s] == Select(paths, a, s)
  {
    seq(n, s requires 0 <= s => Select(paths, a, s))
  }

  /** The greedy shards of tuples already in order. */
  function LptShards(ts: seq<Tuple>, n: nat): (r: seq<seq<string>>)
    requires n > 0
    ensures |r| == n
  {
    Shards(Paths(ts), Assign(Weights(ts), n), n)
  }

  function PartitionOf(files: seq<string>, weights: WeightMap, n: int, fallbackWeight: Option<real>)
    : Result<seq<seq<string>>, RangeError>
  {
    if n <= 0 then Err(BadShardCount)
    else if files == [] then Ok(seq(n, _ => []))
    else if fallbackWeight.Some? && fallbackWeight.value < 0.0 then Err(BadFallback)
    else Ok(LptShards(SortedTuples(files, weights, fallbackWeight), n))
  }

  // ----- the loop that fills shards and totals in place -----

  method LeastLoaded(totals: array<real>) returns (minIdx: nat)
    requires totals.Length > 0
    ensures minIdx == ArgMin(totals[..])
  {
    minIdx := 0;
    var i := 1;
    while i < totals.Length
      invariant 1 <= i <= totals.Length
      invariant minIdx == ArgMin(totals[..i])
    {
      assert totals[..i + 1][..i] == totals[..i];
      if totals[i] < totals[minIdx] {
        minIdx := i;
      }
      i := i + 1;
    }
    assert totals[..i] == totals[..];
  }

  /** The running totals after the first `k` placements. */
  function TotalsAfter(ts: seq<Tuple>, k: nat, n: nat): (r: seq<real>)
    requires k <= |ts| && n > 0
    ensures |r| == n
  {
    Loads(Weights(ts[..k]), Assign(Weights(ts[..k]), n), n)
  }

  /** The next weight goes to one shard, and only there. */
  lemma LoadsStep(ws: seq<real>, w: real, a: seq<nat>, m: nat, n: nat)
    requires |a| == |ws| && m < n
    ensures var totals := Loads(ws, a, n); Loads(ws + [w], a + [m], n) == totals[m := totals[m] + w]
  {
    var longer, totals := ws + [w], Loads(ws, a, n);
    assert longer[..|ws|] == ws && longer[|ws|] == w;
    forall s: nat | s < n
      ensures Loads(longer, a + [m], n)[s] == totals[m := totals[m] + w][s]
    {
      LoadLast(longer, a, m, s);
    }
  }

  lemma AssignLast(ws: seq<real>, w: real, n: nat)
    requires n > 0
    ensures Assign(ws + [w], n) == Assign(ws, n) + [ArgMin(Loads(ws, Assign(ws, n), n))]
  {
    assert (ws + [w])[..|ws|] == ws;
  }

  /** The next weight goes to the least-loaded shard, and only there. */
  lemma AssignStep(ws: seq<real>, w: real, n: nat)
    requires n > 0
    ensures var a := Assign(ws, n);
            var totals := Loads(ws, a, n);
            var m := ArgMin(totals);
            && Assign(ws + [w], n) == a + [m]
            && Loads(ws + [w], a + [m], n) == totals[m := totals[m] + w]
  {
    var a := Assign(ws, n);
    AssignLast(ws, w, n);
    LoadsStep(ws, w, a, ArgMin(Loads(ws, a, n)), n);
  }

  lemma SelectStep(paths: seq<string>, path: string, a: seq<nat>, m: nat, n: nat)
    requires |a| == |paths| && m < n
    ensures var shards := Shards(paths, a, n);
            Shards(paths + [path], a + [m], n) == shards[m := shards[m] + [path]]
  {
    assert (paths + [path])[..|a|] == paths && (a + [m])[..|a|] == a;
    forall s: nat | s < n
      ensures Select(paths + [path], a + [m], s) ==
              if m == s then Select(paths, a, s) + [path] else Select(paths, a, s)
    {
      assert m != s ==> Select(paths, a, s) + [] == Select(paths, a, s);
    }
  }

  /** One placement changes one total and one shard. */
  lemma PlaceStep(ts: seq<Tuple>, k: nat, n: nat)
    requires k < |ts| && n > 0
    ensures var totals, shards := TotalsAfter(ts, k, n), LptShards(ts[..k], n);
            var m := ArgMin(totals);
            && TotalsAfter(ts, k + 1, n) == totals[m := totals[m] + ts[k].weight]
            && LptShards(ts[..k + 1], n) == shards[m := shards[m] + [ts[k].path]]
  {
    var ws, paths := Weights(ts[..k]), Paths(ts[..k]);
    assert Weights(ts[..k + 1]) == ws + [ts[k].weight];
    assert Paths(ts[..k + 1]) == paths + [ts[k].path];
    AssignStep(ws, ts[k].weight, n);
    SelectStep(paths, ts[k].path, Assign(ws, n), ArgMin(Loads(ws, Assign(ws, n), n)), n);
  }

  /** One turn of the placement loop: find the least-loaded shard, push the path, add the weight. */
  method Place(ts: seq<Tuple>, k: nat, shards: array<seq<string>>, totals: array<real>)
    requires k < |ts| && 0 < shards.Length == totals.Length
    requires totals[..] == TotalsAfter(ts, k, shards.Length)
    requires shards[..] == LptShards(ts[..k], shards.Length)
    modifies shards, totals
    ensures totals[..] == TotalsAfter(ts, k + 1, shards.Length)
    ensures shards[..] == LptShards(ts[..k + 1], shards.Length)
  {
    PlaceStep(ts, k, shards.Length);
    var minIdx := LeastLoaded(totals);
    shards[minIdx] := shards[minIdx] + [ts[k].path];
    totals[minIdx] := totals[minIdx] + ts[k].weight;
  }

  /** The placement loop, over tuples already in order. */
  method PlaceAll(ts: seq<Tuple>, shards: array<seq<string>>)
    requires shards.Length > 0 && forall s :: 0 <= s < shards.Length ==> shards[s] == []
    modifies shards
    ensures shards[..] == LptShards(ts, shards.Length)
  {
    var totals := new real[shards.Length](_ => 0.0);
    var k := 0;
    while k < |ts|
      invariant 0 <= k <= |ts|
      invariant totals[..] == TotalsAfter(ts, k, shards.Length)
      invariant shards[..] == LptShards(ts[..k], shards.Length)
    {
      Place(ts, k, shards, totals);
      k := k + 1;
    }
    assert ts[..k] == ts;
  }

  method Partition(files: seq<string>, weights: WeightMap, n: int, fallbackWeight: Option<real>)
    returns (r: Result<seq<seq<string>>, RangeError>)
    ensures r == PartitionOf(files, weights, n, fallbackWeight)
  {
    if n <= 0 {
      return Err(BadShardCount);
    }
    var shards := new seq<string>[n](_ => []);
    if files == [] {
      assert shards[..] == seq(n, _ => []);
      return Ok(shards[..]);
    }
    if fallbackWeight.Some? && fallbackWeight.value < 0.0 {
      return Err(BadFallback);
    }
    PlaceAll(SortedTuples(files, weights, fallbackWeight), shards);
    r := Ok(shards[..]);
  }
}
