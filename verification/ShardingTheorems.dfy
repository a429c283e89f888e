/** What the partition of scripts/sharding.ts guarantees, whatever the files, weights and shard count. */
module ShardingTheorems {
  import opened Common
  import opened Lpt
  import opened Sharding
  import Order

  // ----- the sort -----

  lemma HeavierFirstIsTotalOrder()
    ensures Order.TotalOrder(HeavierFirst)
  {
    Order.StringLeIsTotalOrder();
  }

  lemma AtMostIsTotalOrder()
    ensures Order.TotalOrder(AtMost)
  {
  }

  /** The order in which the files arrive does not matter. */
  lemma PartitionPermutation(files: seq<string>, files': seq<string>, weights: WeightMap, n: int, fb: Option<real>)
    requires multiset(files) == multiset(files')
    ensures PartitionOf(files, weights, n, fb) == PartitionOf(files', weights, n, fb)
  {
    assert |files| == |multiset(files)| == |multiset(files')| == |files'|;
    Order.MapPermutation((f: string) => Tuple(f, WeightOf(weights, fb, f)), files, files');
    HeavierFirstIsTotalOrder();
    Order.SortPermutation(HeavierFirst, Tuples(files, weights, fb), Tuples(files', weights, fb));
  }

  /** Sorted tuples carry the files, each with its weight, heaviest first. */
  lemma SortedTuplesSpec(files: seq<string>, weights: WeightMap, fb: Option<real>)
    ensures var ts := SortedTuples(files, weights, fb);
            && multiset(Paths(ts)) == multiset(files)
            && (forall i :: 0 <= i < |ts| ==> ts[i].weight == WeightOf(weights, fb, ts[i].path))
            && Descending(Weights(ts))
            && Order.Sorted(HeavierFirst, ts)
            && (forall i, j :: 0 <= i < j < |ts| && ts[i].weight == ts[j].weight ==> Order.StringLe(ts[i].path, ts[j].path))
  {
    var unsorted := Tuples(files, weights, fb);
    var ts := SortedTuples(files, weights, fb);
    HeavierFirstIsTotalOrder();
    Order.SortSorted(HeavierFirst, unsorted);
    Order.SortElements(HeavierFirst, unsorted);
    assert forall i :: 0 <= i < |ts| ==> ts[i] in ts;
    Order.MapPermutation((t: Tuple) => t.path, ts, unsorted);
    assert Paths(unsorted) == files;
  }

  // ----- conservation -----

  /** All the files of all the shards. */
  function Contents(shards: seq<seq<string>>): multiset<string> {
    if shards == [] then multiset{}
    else Contents(shards[..|shards| - 1]) + multiset(shards[|shards| - 1])
  }

  /** The first `n` of the multisets added up. */
  function Total(shard: nat -> multiset<string>, n: nat): multiset<string> {
    if n == 0 then multiset{} else Total(shard, n - 1) + shard(n - 1)
  }

  function Selected(paths: seq<string>, a: seq<nat>): nat -> multiset<string>
    requires |a| == |paths|
  {
    (s: nat) => multiset(Select(paths, a, s))
  }

  lemma {:induction false} ContentsSelected(paths: seq<string>, a: seq<nat>, n: nat)
    requires |a| == |paths|
    ensures Contents(Shards(paths, a, n)) == Total(Selected(paths, a), n)
  {
    if n > 0 {
      assert Shards(paths, a, n)[..n - 1] == Shards(paths, a, n - 1);
      ContentsSelected(paths, a, n - 1);
    }
  }

  function OneIf(path: string, hit: bool): multiset<string> {
    if hit then multiset{path} else multiset{}
  }

  lemma SelectLast(paths: seq<string>, path: string, a: seq<nat>, m: nat, s: nat)
    requires |a| == |paths|
    ensures multiset(Select(paths + [path], a + [m], s)) == multiset(Select(paths, a, s)) + OneIf(path, m == s)
  {
    assert (paths + [path])[..|a|] == paths && (a + [m])[..|a|] == a;
  }

  lemma AddToOne(a: multiset<string>, b: multiset<string>, path: string, here: bool, there: bool)
    requires !(here && there)
    ensures (a + OneIf(path, here)) + (b + OneIf(path, there)) == (a + b) + OneIf(path, here || there)
  {
  }

  /** One more file in shard `m`. */
  lemma {:induction false} TotalStep(before: nat -> multiset<string>, after: nat -> multiset<string>, path: string, m: nat, n: nat)
    requires forall s: nat :: after(s) == before(s) + OneIf(path, m == s)
    ensures Total(after, n) == Total(before, n) + OneIf(path, m < n)
  {
    if n > 0 {
      TotalStep(before, after, path, m, n - 1);
      AddToOne(Total(before, n - 1), before(n - 1), path, m < n - 1, m == n - 1);
    }
  }

  lemma {:induction false} EmptyShards(n: nat)
    ensures Total(Selected([], []), n) == multiset{}
  {
    if n > 0 {
      EmptyShards(n - 1);
    }
  }

  lemma SelectedStep(paths: seq<string>, path: string, a: seq<nat>, m: nat, n: nat)
    requires |a| == |paths| && m < n
    ensures Total(Selected(paths + [path], a + [m]), n) == Total(Selected(paths, a), n) + multiset{path}
  {
    forall s: nat
      ensures Selected(paths + [path], a + [m])(s) == Selected(paths, a)(s) + OneIf(path, m == s)
    {
      SelectLast(paths, path, a, m, s);
    }
    TotalStep(Selected(paths, a), Selected(paths + [path], a + [m]), path, m, n);
  }

  lemma {:induction false} SelectedConserves(paths: seq<string>, a: seq<nat>, n: nat)
    requires Assignment(a, |paths|, n)
    ensures Total(Selected(paths, a), n) == multiset(paths)
  {
    if paths == [] {
      assert a == [];
      EmptyShards(n);
    } else {
      var k := |paths| - 1;
      SelectedConserves(paths[..k], a[..k], n);
      assert paths == paths[..k] + [paths[k]] && a == a[..k] + [a[k]];
      SelectedStep(paths[..k], paths[k], a[..k], a[k], n);
    }
  }

  /** An assignment loses nothing and duplicates nothing. */
  lemma ShardsConserve(paths: seq<string>, a: seq<nat>, n: nat)
    requires Assignment(a, |paths|, n)
    ensures Contents(Shards(paths, a, n)) == multiset(paths)
  {
    ContentsSelected(paths, a, n);
    SelectedConserves(paths, a, n);
  }

  /** There are exactly `n` shards and together they hold exactly the given files. */
  lemma PartitionConserves(files: seq<string>, weights: WeightMap, n: int, fb: Option<real>)
    requires PartitionOf(files, weights, n, fb).Ok?
    ensures var shards := PartitionOf(files, weights, n, fb).value;
            |shards| == n && Contents(shards) == multiset(files)
  {
    if files == [] {
      ContentsSelected([], [], n);
      EmptyShards(n);
      assert Shards([], [], n) == seq(n, _ => []);
    } else {
      var ts := SortedTuples(files, weights, fb);
      SortedTuplesSpec(files, weights, fb);
      ShardsConserve(Paths(ts), Assign(Weights(ts), n), n);
    }
  }

  /** `f` stands exactly once in one shard, and in no other. */
  ghost predicate OnOneShard(shards: seq<seq<string>>, f: string) {
    exists s :: OnlyOn(shards, f, s)
  }

  ghost predicate OnlyOn(shards: seq<seq<string>>, f: string, s: int) {
    && 0 <= s < |shards| && multiset(shards[s])[f] == 1
    && forall s' :: 0 <= s' < |shards| && s' != s ==> f !in shards[s']
  }

  lemma {:induction false} NowhereExactly(shards: seq<seq<string>>, f: string)
    ensures Contents(shards)[f] == 0 <==> forall s :: 0 <= s < |shards| ==> f !in shards[s]
  {
    if shards != [] {
      var k := |shards| - 1;
      NowhereExactly(shards[..k], f);
      assert forall s :: 0 <= s < k ==> shards[..k][s] == shards[s];
    }
  }

  lemma {:induction false} OnOneShardExactly(shards: seq<seq<string>>, f: string)
    ensures OnOneShard(shards, f) <==> Contents(shards)[f] == 1
  {
    if shards != [] {
      var k := |shards| - 1;
      var front := shards[..k];
      OnOneShardExactly(front, f);
      NowhereExactly(front, f);
      assert forall s :: 0 <= s < k ==> front[s] == shards[s];
      if s :| OnlyOn(shards, f, s) {
        if s < k {
          assert OnlyOn(front, f, s);
        }
      }
      if Contents(shards)[f] == 1 {
        if f in shards[k] {
          assert OnlyOn(shards, f, k);
        } else {
          var s :| OnlyOn(front, f, s);
          assert OnlyOn(shards, f, s);
        }
      }
    }
  }

  /** A file stands in exactly one shard, once, exactly when it is listed once. */
  lemma OneShardIffListedOnce(files: seq<string>, weights: WeightMap, n: int, fb: Option<real>, f: string)
    requires PartitionOf(files, weights, n, fb).Ok?
    ensures OnOneShard(PartitionOf(files, weights, n, fb).value, f) <==> multiset(files)[f] == 1
  {
    PartitionConserves(files, weights, n, fb);
    OnOneShardExactly(PartitionOf(files, weights, n, fb).value, f);
  }

  // ----- loads of shards -----

  /** What a shard of files costs under the effective weights. */
  function Cost(shard: seq<string>, weights: WeightMap, fb: Option<real>): real {
    if shard == [] then 0.0
    else Cost(shard[..|shard| - 1], weights, fb) + WeightOf(weights, fb, shard[|shard| - 1])
  }

  lemma {:induction false} CostConcat(a: seq<string>, b: seq<string>, weights: WeightMap, fb: Option<real>)
    ensures Cost(a + b, weights, fb) == Cost(a, weights, fb) + Cost(b, weights, fb)
  {
    if b == [] {
      assert a + b == a;
    } else {
      var k := |b| - 1;
      CostConcat(a, b[..k], weights, fb);
      assert (a + b)[..|a + b| - 1] == a + b[..k];
    }
  }

  lemma {:induction false} CostPermutation(a: seq<string>, b: seq<string>, weights: WeightMap, fb: Option<real>)
    requires multiset(a) == multiset(b)
    ensures Cost(a, weights, fb) == Cost(b, weights, fb)
    decreases |a|
  {
    if a == [] {
      assert |multiset(b)| == 0;
    } else {
      var j := Order.RemoveFromBoth(a, b);
      CostPermutation(a[1..], Order.Remove(b, j), weights, fb);
      assert a == [a[0]] + a[1..] && b == b[..j] + ([b[j]] + b[j + 1..]);
      CostConcat([a[0]], a[1..], weights, fb);
      CostConcat(b[..j], [b[j]] + b[j + 1..], weights, fb);
      CostConcat([b[j]], b[j + 1..], weights, fb);
      CostConcat(b[..j], b[j + 1..], weights, fb);
    }
  }

  /** The load of an assignment is the cost of the files it selects. */
  lemma {:induction false} LoadIsCost(ts: seq<Tuple>, a: seq<nat>, s: nat, weights: WeightMap, fb: Option<real>)
    requires |a| == |ts|
    requires forall i :: 0 <= i < |ts| ==> ts[i].weight == WeightOf(weights, fb, ts[i].path)
    ensures Load(Weights(ts), a, s) == Cost(Select(Paths(ts), a, s), weights, fb)
  {
    if ts != [] {
      var k := |ts| - 1;
      var paths, sel := Paths(ts), Select(Paths(ts[..k]), a[..k], s);
      LoadIsCost(ts[..k], a[..k], s, weights, fb);
      assert Weights(ts)[..k] == Weights(ts[..k]) && paths[..k] == Paths(ts[..k]);
      if a[k] == s {
        assert Select(paths, a, s) == sel + [paths[k]];
        assert (sel + [paths[k]])[..|sel|] == sel;
      } else {
        assert Select(paths, a, s) == sel + [] == sel;
      }
    }
  }

  // ----- any other way to share the files out is an assignment -----

  lemma {:induction false} ContentsUpdate(shards: seq<seq<string>>, s: nat, shard: seq<string>)
    requires s < |shards|
    ensures Contents(shards[s := shard]) + multiset(shards[s]) == Contents(shards) + multiset(shard)
  {
    var k := |shards| - 1;
    if s < k {
      ContentsUpdate(shards[..k], s, shard);
      assert shards[s := shard][..k] == shards[..k][s := shard];
      var before, after := Contents(shards[..k]), Contents(shards[..k][s := shard]);
      assert Contents(shards[s := shard]) == after + multiset(shards[k]);
      assert Contents(shards) == before + multiset(shards[k]);
      AddToBoth(after, multiset(shards[s]), before, multiset(shard), multiset(shards[k]));
    } else {
      assert shards[s := shard][..k] == shards[..k];
    }
  }

  lemma AddToBoth(a: multiset<string>, x: multiset<string>, b: multiset<string>, y: multiset<string>, z: multiset<string>)
    requires a + x == b + y
    ensures a + z + x == b + z + y
  {
    assert a + z + x == a + x + z;
    assert b + z + y == b + y + z;
  }

  lemma CancelBoth(a: multiset<string>, b: multiset<string>, z: multiset<string>)
    requires a + z == b + z
    ensures a == b
  {
    assert a == a + z - z && b == b + z - z;
  }

  lemma {:induction false} ContentsMember(shards: seq<seq<string>>, f: string) returns (s: nat)
    requires f in Contents(shards)
    ensures s < |shards| && f in shards[s]
  {
    var k := |shards| - 1;
    if f in shards[k] {
      s := k;
    } else {
      s := ContentsMember(shards[..k], f);
    }
  }

  lemma {:induction false} ContentsEmpty(shards: seq<seq<string>>, s: nat)
    requires Contents(shards) == multiset{} && s < |shards|
    ensures shards[s] == []
  {
    var k := |shards| - 1;
    assert |Contents(shards)| == |Contents(shards[..k])| + |multiset(shards[k])|;
    if s < k {
      ContentsEmpty(shards[..k], s);
    }
  }

  /** Taking `f` out of one shard leaves the remaining files to share out. */
  lemma TakeOut(rest: seq<string>, f: string, shards: seq<seq<string>>) returns (m: nat, less: seq<string>)
    requires Contents(shards) == multiset(rest + [f])
    ensures m < |shards| && multiset(shards[m]) == multiset(less) + multiset{f}
    ensures Contents(shards[m := less]) == multiset(rest)
  {
    assert f in multiset(rest + [f]);
    m := ContentsMember(shards, f);
    var j :| 0 <= j < |shards[m]| && shards[m][j] == f;
    less := Order.Remove(shards[m], j);
    Order.RemoveElement(shards[m], j);
    ContentsUpdate(shards, m, less);
    assert Contents(shards[m := less]) + multiset{f} + multiset(less) == multiset(rest) + multiset{f} + multiset(less);
    CancelBoth(Contents(shards[m := less]) + multiset{f}, multiset(rest) + multiset{f}, multiset(less));
    CancelBoth(Contents(shards[m := less]), multiset(rest), multiset{f});
  }

  lemma {:induction false} Realize(paths: seq<string>, shards: seq<seq<string>>) returns (b: seq<nat>)
    requires Contents(shards) == multiset(paths)
    ensures Assignment(b, |paths|, |shards|)
    ensures forall s: nat :: s < |shards| ==> multiset(Select(paths, b, s)) == multiset(shards[s])
  {
    if paths == [] {
      b := [];
      forall s: nat | s < |shards| ensures multiset(Select(paths, b, s)) == multiset(shards[s]) {
        ContentsEmpty(shards, s);
      }
    } else {
      var k := |paths| - 1;
      assert paths == paths[..k] + [paths[k]];
      var m, less := TakeOut(paths[..k], paths[k], shards);
      var b' := Realize(paths[..k], shards[m := less]);
      b := b' + [m];
      assert b[..k] == b';
      forall s: nat | s < |shards| ensures multiset(Select(paths, b, s)) == multiset(shards[s]) {
        assert multiset(Select(paths[..k], b', s)) == multiset(shards[m := less][s]);
      }
    }
  }

  // ----- weights -----

  lemma {:induction false} GetNonNegative(weights: WeightMap, file: string)
    requires NonNegativeValues(weights)
    ensures Get(weights, file).Some? ==> Get(weights, file).value >= 0.0
  {
    if weights != [] {
      assert weights[0] in weights;
      GetNonNegative(weights[1..], file);
    }
  }

  lemma MedianNonNegative(values: seq<real>)
    requires forall v :: v in values ==> v >= 0.0
    ensures ComputeMedian(values) >= 0.0
  {
    if values != [] {
      Order.SortElements(AtMost, values);
      var sorted := SortedValues(values);
      assert forall i :: 0 <= i < |sorted| ==> sorted[i] in values by {
        assert forall i :: 0 <= i < |sorted| ==> sorted[i] in sorted;
      }
    }
  }

  lemma WeightNonNegative(weights: WeightMap, fb: Option<real>, file: string)
    requires NonNegativeValues(weights) && (fb.Some? ==> fb.value >= 0.0)
    ensures WeightOf(weights, fb, file) >= 0.0
  {
    GetNonNegative(weights, file);
    MedianNonNegative(Values(weights));
  }

  /** Around the median of a sorted list. */
  lemma MedianBounds(values: seq<real>)
    requires values != []
    ensures var t, m := SortedValues(values), ComputeMedian(values);
            && (forall i :: 0 <= i < (|t| + 1) / 2 ==> t[i] <= m)
            && (forall i :: |t| / 2 <= i < |t| ==> t[i] >= m)
  {
    var t, m := SortedValues(values), ComputeMedian(values);
    AtMostIsTotalOrder();
    Order.SortSorted(AtMost, values);
    var low, high := (|t| - 1) / 2, |t| / 2;
    assert low < high ==> AtMost(t[low], t[high]);
    assert t[low] <= m <= t[high];
    forall i | 0 <= i < (|t| + 1) / 2 ensures t[i] <= m {
      assert i < low ==> AtMost(t[i], t[low]);
    }
    forall i | high <= i < |t| ensures t[i] >= m {
      assert i > high ==> AtMost(t[high], t[i]);
    }
  }

  function UpTo(m: real): real -> bool {
    v => v <= m
  }

  function From(m: real): real -> bool {
    v => v >= m
  }

  /** The median has at least half of the values on either side. */
  lemma MedianSplits(values: seq<real>)
    requires values != []
    ensures var m := ComputeMedian(values);
            && 2 * |Order.Filter(UpTo(m), values)| >= |values|
            && 2 * |Order.Filter(From(m), values)| >= |values|
  {
    var t, m := SortedValues(values), ComputeMedian(values);
    MedianBounds(values);
    SegmentCounts(UpTo(m), t, 0, (|t| + 1) / 2);
    SegmentCounts(From(m), t, |t| / 2, |t|);
    Order.SortFilterSize(AtMost, UpTo(m), values);
    Order.SortFilterSize(AtMost, From(m), values);
  }

  lemma SegmentCounts(p: real -> bool, t: seq<real>, lo: nat, hi: nat)
    requires lo <= hi <= |t| && forall i :: lo <= i < hi ==> p(t[i])
    ensures |Order.Filter(p, t)| >= hi - lo
  {
    assert t == t[..lo] + (t[lo..hi] + t[hi..]);
    Order.FilterConcat(p, t[..lo], t[lo..hi] + t[hi..]);
    Order.FilterConcat(p, t[lo..hi], t[hi..]);
    Order.FilterAll(p, t[lo..hi]);
  }

  /** `t` is the values in ascending order. */
  ghost predicate Ascending(t: seq<real>, values: seq<real>) {
    multiset(t) == multiset(values) && forall i, j :: 0 <= i < j < |t| ==> t[i] <= t[j]
  }

  /** The middle value, or half way between the two middle ones. */
  ghost predicate IsMedian(m: real, values: seq<real>) {
    if values == [] then m == 0.0
    else exists t :: Ascending(t, values) && TwiceTheMiddle(t) == m + m
  }

  /** The two middle values, or the middle one twice. */
  function TwiceTheMiddle(t: seq<real>): real {
    if t == [] then 0.0 else t[(|t| - 1) / 2] + t[|t| / 2]
  }

  lemma AscendingIsSorted(t: seq<real>, values: seq<real>)
    ensures Ascending(t, values) <==> t == SortedValues(values)
  {
    AtMostIsTotalOrder();
    Order.SortSorted(AtMost, values);
    Order.SortElements(AtMost, values);
    var sorted := SortedValues(values);
    assert forall i, j :: 0 <= i < j < |sorted| ==> AtMost(sorted[i], sorted[j]);
    if Ascending(t, values) {
      Order.SortedUnique(AtMost, t, sorted);
    }
  }

  lemma MedianExactly(values: seq<real>, m: real)
    ensures IsMedian(m, values) <==> m == ComputeMedian(values)
  {
    var sorted := SortedValues(values);
    AscendingIsSorted(sorted, values);
    if values != [] {
      MedianOfSorted(values, m);
      if t :| Ascending(t, values) && TwiceTheMiddle(t) == m + m {
        AscendingIsSorted(t, values);
      }
    }
  }

  lemma MedianOfSorted(values: seq<real>, m: real)
    requires values != []
    ensures m == ComputeMedian(values) <==> TwiceTheMiddle(SortedValues(values)) == m + m
  {
  }

  /** Every path has one weight, as in a Map. */
  ghost predicate DistinctKeys(weights: WeightMap) {
    forall i, j :: 0 <= i < j < |weights| ==> weights[i].0 != weights[j].0
  }

  lemma {:induction false} GetExactly(weights: WeightMap, file: string, w: real)
    requires DistinctKeys(weights)
    ensures Get(weights, file) == Some(w) <==> (file, w) in weights
  {
    if weights != [] {
      GetExactly(weights[1..], file, w);
      assert weights == [weights[0]] + weights[1..];
      if weights[0].0 == file {
        assert forall e :: e in weights[1..] ==> e.0 != file;
      }
    }
  }

  /** The weights on record. */
  function Recorded(weights: WeightMap): seq<real> {
    seq(|weights|, i requires 0 <= i < |weights| => weights[i].1)
  }

  /**
   * A file on record has the weight on record; any other has the given fallback, or without one the median of the
   * weights on record, with 1 in place of 0.
   */
  lemma WeightOfExactly(weights: WeightMap, fb: Option<real>, file: string, w: real)
    requires DistinctKeys(weights)
    ensures (file, w) in weights ==> WeightOf(weights, fb, file) == w
    ensures (forall e :: e in weights ==> e.0 != file) ==>
              match fb
              case Some(given) => WeightOf(weights, fb, file) == given
              case None => IsMedian(w, Recorded(weights)) ==> WeightOf(weights, fb, file) == if w == 0.0 then 1.0 else w
  {
    GetExactly(weights, file, w);
    if forall e :: e in weights ==> e.0 != file {
      if Get(weights, file).Some? {
        GetExactly(weights, file, Get(weights, file).value);
        assert false;
      }
      assert Values(weights) == Recorded(weights);
      MedianExactly(Recorded(weights), w);
    }
  }

  /** When the partition refuses, and with which error. */
  lemma RangeErrorsExactly(files: seq<string>, weights: WeightMap, n: int, fb: Option<real>)
    ensures var r := PartitionOf(files, weights, n, fb);
            && (r == Err(BadShardCount) <==> n <= 0)
            && (r == Err(BadFallback) <==> n >= 1 && files != [] && fb.Some? && fb.value < 0.0)
            && (r.Ok? ==> |r.value| == n)
  {
  }

  // ----- main theorems -----

  /**
   * Graham's bound for the partition: if the files can be shared out over `n` shards, in any way at
   * all, with no shard above `t`, then no shard of the partition is above `(4/3 - 1/(3n)) * t`,
   * hence none is above `4/3 * t`.
   */
  lemma PartitionWithinGraham(files: seq<string>, weights: WeightMap, n: int, fb: Option<real>,
                              other: seq<seq<string>>, t: real, s: nat)
    requires NonNegativeValues(weights) && PartitionOf(files, weights, n, fb).Ok?
    requires |other| == n && Contents(other) == multiset(files)
    requires forall i :: 0 <= i < n ==> Cost(other[i], weights, fb) <= t
    requires s < n
    ensures var cost := Cost(PartitionOf(files, weights, n, fb).value[s], weights, fb);
            WithinGraham(n as real, cost, t) && 3.0 * cost <= 4.0 * t
  {
    if files == [] {
      ContentsEmpty(other, 0);
      assert Cost(other[0], weights, fb) == 0.0;
      OptimalWithinGraham(n as real, 0.0, t);
    } else {
      var ts := SortedTuples(files, weights, fb);
      var ws, a := Weights(ts), Assign(Weights(ts), n);
      SortedTuplesSpec(files, weights, fb);
      forall i | 0 <= i < |ws| ensures ws[i] >= 0.0 {
        WeightNonNegative(weights, fb, ts[i].path);
      }
      var b := Realize(Paths(ts), other);
      forall i: nat | i < n ensures Load(ws, b, i) <= t {
        LoadIsCost(ts, b, i, weights, fb);
        CostPermutation(Select(Paths(ts), b, i), other[i], weights, fb);
      }
      GrahamBound(ws, n, b, t, s);
      LoadIsCost(ts, a, s, weights, fb);
      LoadNonNegative(ws, b, 0);
      assert Load(ws, b, 0) <= t;
    }
    var cost := Cost(PartitionOf(files, weights, n, fb).value[s], weights, fb);
    FourThirds(n as real, cost, t);
  }

  lemma FourThirds(n: real, l: real, t: real)
    requires n >= 1.0 && t >= 0.0 && WithinGraham(n, l, t)
    ensures 3.0 * l <= 4.0 * t
  {
  }

  /** No two shards differ by more than the heaviest file. */
  lemma PartitionSpread(files: seq<string>, weights: WeightMap, n: int, fb: Option<real>, s: nat, s': nat, heaviest: real)
    requires NonNegativeValues(weights) && PartitionOf(files, weights, n, fb).Ok?
    requires s < n && s' < n
    requires heaviest >= 0.0 && forall f :: f in files ==> WeightOf(weights, fb, f) <= heaviest
    ensures var shards := PartitionOf(files, weights, n, fb).value;
            Cost(shards[s], weights, fb) - Cost(shards[s'], weights, fb) <= heaviest
  {
    if files != [] {
      var ts := SortedTuples(files, weights, fb);
      var ws, a := Weights(ts), Assign(Weights(ts), n);
      SortedTuplesSpec(files, weights, fb);
      forall i | 0 <= i < |ws| ensures ws[i] >= 0.0 {
        WeightNonNegative(weights, fb, ts[i].path);
      }
      SpreadAtMostLargest(ws, n, s, s');
      assert Paths(ts)[0] in multiset(files);
      LoadIsCost(ts, a, s, weights, fb);
      LoadIsCost(ts, a, s', weights, fb);
    }
  }

  /** The files at positions `s`, `s + n`, `s + 2n`, ... */
  function EveryNth(paths: seq<string>, s: nat, n: nat): seq<string>
    requires n > 0
  {
    if paths == [] then []
    else
      var k := |paths| - 1;
      EveryNth(paths[..k], s, n) + if k % n == s then [paths[k]] else []
  }

  lemma {:induction false} SelectEveryNth(paths: seq<string>, a: seq<nat>, s: nat, n: nat)
    requires n > 0 && |a| == |paths| && forall i :: 0 <= i < |a| ==> a[i] == i % n
    ensures Select(paths, a, s) == EveryNth(paths, s, n)
  {
    if paths != [] {
      var k := |paths| - 1;
      SelectEveryNth(paths[..k], a[..k], s, n);
    }
  }

  lemma EqualWeightsSortByPath(files: seq<string>, weights: WeightMap, fb: Option<real>, c: real)
    requires forall f :: f in files ==> WeightOf(weights, fb, f) == c
    ensures Paths(SortedTuples(files, weights, fb)) == Order.Sort(Order.StringLe, files)
    ensures forall i :: 0 <= i < |files| ==> Weights(SortedTuples(files, weights, fb))[i] == c
  {
    var ts := SortedTuples(files, weights, fb);
    SortedTuplesSpec(files, weights, fb);
    forall i | 0 <= i < |ts| ensures ts[i].weight == c {
      assert Paths(ts)[i] in multiset(files);
    }
    forall i, j | 0 <= i < j < |ts| ensures Order.StringLe(Paths(ts)[i], Paths(ts)[j]) {
      assert HeavierFirst(ts[i], ts[j]);
    }
    Order.StringLeIsTotalOrder();
    Order.SortSorted(Order.StringLe, files);
    Order.SortElements(Order.StringLe, files);
    Order.SortedUnique(Order.StringLe, Paths(ts), Order.Sort(Order.StringLe, files));
  }

  /** Files of one positive weight are dealt out round robin in path order. */
  lemma PartitionRoundRobin(files: seq<string>, weights: WeightMap, n: int, fb: Option<real>, c: real, s: nat)
    requires PartitionOf(files, weights, n, fb).Ok? && s < n
    requires c > 0.0 && forall f :: f in files ==> WeightOf(weights, fb, f) == c
    ensures PartitionOf(files, weights, n, fb).value[s] == EveryNth(Order.Sort(Order.StringLe, files), s, n)
  {
    if files != [] {
      var ts := SortedTuples(files, weights, fb);
      EqualWeightsSortByPath(files, weights, fb, c);
      EqualWeightsRoundRobin(Weights(ts), n, c);
      SelectEveryNth(Paths(ts), Assign(Weights(ts), n), s, n);
    }
  }

  /** Cold start: with no weights mined and no override, the guard yields round robin. */
  lemma ColdStartRoundRobin(files: seq<string>, n: int, s: nat)
    requires 0 <= s < n
    ensures PartitionOf(files, [], n, None).Ok?
    ensures PartitionOf(files, [], n, None).value[s] == EveryNth(Order.Sort(Order.StringLe, files), s, n)
  {
    assert Values([]) == [];
    PartitionRoundRobin(files, [], n, None, 1.0, s);
  }

  lemma SortTwice(f: string)
    ensures Order.Sort(Order.StringLe, [f, f]) == [f, f]
  {
    var sorted := Order.Sort(Order.StringLe, [f, f]);
    Order.SortElements(Order.StringLe, [f, f]);
    assert sorted[0] in sorted && sorted[1] in sorted;
  }

  lemma DealTwice(f: string)
    ensures EveryNth([f, f], 0, 2) == [f] && EveryNth([f, f], 1, 2) == [f]
  {
    var one: seq<string> := [f];
    assert [f, f][..1] == one && one[..0] == [];
    assert EveryNth(one, 0, 2) == [f] && EveryNth(one, 1, 2) == [];
  }

  lemma TwoShards(shards: seq<seq<string>>, a: seq<string>, b: seq<string>)
    requires |shards| == 2 && shards[0] == a && shards[1] == b
    ensures shards == [a, b]
  {
  }

  /** A file listed twice may land on two shards. */
  lemma RepeatedFileOnTwoShards(f: string, files: seq<string>)
    requires files == [f, f]
    ensures PartitionOf(files, [], 2, None).Ok? && PartitionOf(files, [], 2, None).value == [[f], [f]]
  {
    SortTwice(f);
    DealTwice(f);
    ColdStartRoundRobin(files, 2, 0);
    ColdStartRoundRobin(files, 2, 1);
    PartitionConserves(files, [], 2, None);
    TwoShards(PartitionOf(files, [], 2, None).value, [f], [f]);
  }

  /** Without the guard, an explicit fallback of 0 sends every file to the first shard. */
  lemma ZeroFallbackCollapses(files: seq<string>, n: int)
    requires n > 0
    ensures var r := PartitionOf(files, [], n, Some(0.0));
            r.Ok? && |r.value| == n && multiset(r.value[0]) == multiset(files)
  {
    if files != [] {
      var ts := SortedTuples(files, [], Some(0.0));
      SortedTuplesSpec(files, [], Some(0.0));
      ZeroWeightsCollapse(Weights(ts), n);
      SelectAll(Paths(ts), Assign(Weights(ts), n));
    }
  }

  lemma {:induction false} SelectAll(paths: seq<string>, a: seq<nat>)
    requires |a| == |paths| && forall i :: 0 <= i < |a| ==> a[i] == 0
    ensures Select(paths, a, 0) == paths
  {
    if paths != [] {
      var k := |paths| - 1;
      SelectAll(paths[..k], a[..k]);
      assert paths == paths[..k] + [paths[k]];
    }
  }

  // ----- the command line: one process for each shard -----

  /** The lines one process prints; any usage error is exit code 2 and prints nothing. */
  function ProcessOutput(files: seq<string>, weights: WeightMap, idx: int, total: int): Option<seq<string>> {
    if idx < 1 || total < 1 || idx > total then None
    else if files == [] then Some([])
    else Some(PartitionOf(files, weights, total, None).value[idx - 1])
  }

  /** What the processes for shards 1 to `|inputs|` print, each reading a file list of its own. */
  function AllOutputs(inputs: seq<seq<string>>, weights: WeightMap): (r: seq<seq<string>>)
    ensures |r| == |inputs|
  {
    var total := |inputs|;
    seq(total, i requires 0 <= i < total => ProcessOutput(inputs[i], weights, i + 1, total).value)
  }

  /**
   * The processes, each reading the same files in an order of its own and printing its own shard,
   * together print every file exactly as often as it was given.
   */
  lemma EveryFileRunsOnce(files: seq<string>, inputs: seq<seq<string>>, weights: WeightMap)
    requires inputs != [] && forall i :: 0 <= i < |inputs| ==> multiset(inputs[i]) == multiset(files)
    ensures Contents(AllOutputs(inputs, weights)) == multiset(files)
  {
    var total := |inputs|;
    var shards := PartitionOf(files, weights, total, None).value;
    forall i | 0 <= i < total ensures AllOutputs(inputs, weights)[i] == shards[i] {
      PartitionPermutation(files, inputs[i], weights, total, None);
    }
    assert |PartitionOf(files, weights, total, None).value| == total by {
      PartitionConserves(files, weights, total, None);
    }
    assert AllOutputs(inputs, weights) == shards;
    PartitionConserves(files, weights, total, None);
  }
}
