/** The longest-processing-time bound is attained for every number of shards: a list of files
    that the sequencer deals exactly `4/3 - 1/(3m)` worse than the best assignment. */
module ShardTightness {
  import opened Arithmetic
  import opened Ordering
  import opened ShardBounds
  import opened ShardSequencer
  import opened Wrappers

  // ----- the files -----

  function Half(k: nat): (h: nat)
    ensures 2 * h <= k <= 2 * h + 1
  {
    if k < 2 then 0 else 1 + Half(k - 2)
  }

  /** Twice each of the weights from `2m - 1` down to `m`, and `m` from then on. */
  function Size(m: nat, k: nat): nat {
    if k >= 2 * m then m else 2 * m - 1 - Half(k)
  }

  function Path(k: nat): string {
    seq(k, _ => 'a')
  }

  function Item(m: nat, k: nat): Weighted {
    Weighted(File(Path(k)), Path(k), Size(m, k))
  }

  function Items(m: nat, n: nat): (r: seq<Weighted>)
    ensures |r| == n
  {
    seq(n, k requires 0 <= k => Item(m, k))
  }

  function Durations(m: nat, n: nat): map<string, nat> {
    if n == 0 then map[] else Durations(m, n - 1)[Path(n - 1) := Size(m, n - 1)]
  }

  function TightConfig(m: nat): Config {
    Config(Timings(Durations(m, 2 * m + 1), 0, 1.0, 0), (file: File) => file.moduleId)
  }

  function TightFiles(m: nat): (r: seq<File>)
    ensures |r| == 2 * m + 1
  {
    seq(2 * m + 1, k requires 0 <= k => File(Path(k)))
  }

  lemma {:induction false} DurationsHold(m: nat, n: nat, k: nat)
    requires k < n
    ensures Path(k) in Durations(m, n) && Durations(m, n)[Path(k)] == Size(m, k)
  {
    if k < n - 1 {
      DurationsHold(m, n - 1, k);
      assert |Path(k)| != |Path(n - 1)|;
    }
  }

  lemma WeighedFiles(m: nat)
    requires m > 0
    ensures WeighAll(TightConfig(m), TightFiles(m)) == Items(m, 2 * m + 1)
  {
    forall k | 0 <= k <= 2 * m ensures Weigh(TightConfig(m), File(Path(k))) == Item(m, k) {
      DurationsHold(m, 2 * m + 1, k);
    }
  }

  /** Paths are ordered by length. */
  lemma {:induction false} ShorterIsBelow(i: nat, j: nat)
    requires i < j
    ensures Below(Path(i), Path(j)) && !Below(Path(j), Path(i))
  {
    if i > 0 {
      ShorterIsBelow(i - 1, j - 1);
      assert Path(i)[1..] == Path(i - 1) && Path(j)[1..] == Path(j - 1);
    }
  }

  lemma ItemsOrdered(m: nat, i: nat, j: nat)
    requires m > 0 && i < j <= 2 * m
    ensures ORDER(Item(m, i), Item(m, j)) && !ORDER(Item(m, j), Item(m, i))
  {
    ShorterIsBelow(i, j);
  }

  lemma ItemsSorted(m: nat)
    requires m > 0
    ensures SortedBy(ORDER, Items(m, 2 * m + 1))
    ensures var items := Items(m, 2 * m + 1);
            forall a, b :: a in items && b in items && ORDER(a, b) && ORDER(b, a) ==> a == b
  {
    var items := Items(m, 2 * m + 1);
    forall i, j | 0 <= i < j < |items| ensures ORDER(items[i], items[j]) { ItemsOrdered(m, i, j); }
    forall a, b | a in items && b in items && ORDER(a, b) && ORDER(b, a) ensures a == b { ItemsUntied(m, a, b); }
  }

  /** The queue is the list as it stands. */
  lemma QueueOfTightFiles(m: nat)
    requires m > 0
    ensures Queue(TightConfig(m), TightFiles(m)) == Items(m, 2 * m + 1)
  {
    var items, queue := Items(m, 2 * m + 1), Queue(TightConfig(m), TightFiles(m));
    WeighedFiles(m);
    OrderIsTotal();
    SortBySorted(ORDER, items);
    ItemsSorted(m);
    SortedUnique(ORDER, items, queue);
  }

  lemma ItemsUntied(m: nat, a: Weighted, b: Weighted)
    requires m > 0 && a in Items(m, 2 * m + 1) && b in Items(m, 2 * m + 1) && ORDER(a, b) && ORDER(b, a)
    ensures a == b
  {
    var items := Items(m, 2 * m + 1);
    var i :| 0 <= i < |items| && items[i] == a;
    var j :| 0 <= j < |items| && items[j] == b;
    if i < j { ItemsOrdered(m, i, j); }
    if j < i { ItemsOrdered(m, j, i); }
  }

  // ----- what the greedy dealing does to them -----

  /** An item heavier than `t` counts twice. */
  function Cost(t: nat): Weighted -> nat {
    (item: Weighted) => if item.weight > t then 2 else 1
  }

  lemma {:induction false} CostsLength(s: seq<Weighted>, t: nat)
    ensures Sum(Cost(t), s) >= |s|
  {
    if s != [] { CostsLength(s[..|s| - 1], t); }
  }

  /** A bucket heavier than `t` costs at least two. */
  lemma HeavyCostsTwo(s: seq<Weighted>, t: nat)
    requires WeightOf(s) > t
    ensures Sum(Cost(t), s) >= 2
  {
    CostsLength(s, t);
    if |s| == 1 { assert s[..0] == []; }
  }

  /** How light the lightest bucket is before item `k` is dealt. */
  function Threshold(m: nat, k: nat): nat
    requires m > 0 && k < 2 * m
  {
    if k < m then 0 else Size(m, 2 * m - 1 - k)
  }

  /** At most `2m - 1 - k` of the first items are heavier than the threshold. */
  lemma {:induction false} CostOfPrefix(m: nat, k: nat, n: nat)
    requires m > 0 && n <= k < 2 * m
    ensures Sum(Cost(Threshold(m, k)), Items(m, n)) <= n + (if k < m || n <= 2 * m - 1 - k then n else 2 * m - 1 - k)
  {
    if n > 0 {
      CostOfPrefix(m, k, n - 1);
      assert Items(m, n)[..n - 1] == Items(m, n - 1);
      assert k >= m && n - 1 >= 2 * m - 1 - k ==> Size(m, n - 1) <= Size(m, 2 * m - 1 - k);
    }
  }

  lemma LightestIsLight(m: nat, k: nat)
    requires m > 0 && k < 2 * m
    ensures Lowest(Items(m, 2 * m + 1), k, m) <= Threshold(m, k)
  {
    var items, t := Items(m, 2 * m + 1), Threshold(m, k);
    var loads := Deal(items[..k], m);
    assert items[..k] == Items(m, k);
    if loads[Lightest(loads)].weight > t {
      DealConserves(items[..k], m);
      HeavyLoads(items[..k], loads, t);
      CostOfPrefix(m, k, k);
      TimesIsProduct(m, 2);
      assert false;
    }
  }

  lemma HeavyLoads(dealt: seq<Weighted>, loads: seq<Load>, t: nat)
    requires loads != [] && Conserved(dealt, loads) && loads[Lightest(loads)].weight > t
    ensures Sum(Cost(t), dealt) >= Times(|loads|, 2)
  {
    var groups := ItemsOf(loads);
    forall b | 0 <= b < |groups| ensures Sum(Cost(t), groups[b]) >= 2 { HeavyCostsTwo(groups[b], t); }
    GroupsAtLeast(Cost(t), groups, 2);
    SumPermutation(Cost(t), Flatten(groups), dealt);
  }

  lemma HalvesAddUp(m: nat, k: nat)
    requires m > 0 && k < 2 * m
    ensures Threshold(m, k) + Size(m, k) <= 3 * m - 1
  {
    assert Half(k) + Half(2 * m - 1 - k) == m - 1;
  }

  /** Every bucket is at most `3m - 1` heavy before the last item. */
  lemma LoadsBeforeLast(m: nat, b: nat)
    requires b < m
    ensures Deal(Items(m, 2 * m), m)[b].weight <= 3 * m - 1
  {
    var items := Items(m, 2 * m + 1);
    assert items[..2 * m] == Items(m, 2 * m);
    var j := LastPlacement(items, 2 * m, m, b);
    if j.Some? {
      LightestIsLight(m, j.value);
      HalvesAddUp(m, j.value);
    }
  }

  lemma {:induction false} WeightOfPairs(m: nat, n: nat)
    requires n <= m && m > 0
    ensures WeightOf(Items(m, 2 * n)) == n * (4 * m - 1 - n)
  {
    if n > 0 {
      WeightOfPairs(m, n - 1);
      assert Items(m, 2 * n)[..2 * n - 1] == Items(m, 2 * n - 1);
      assert Items(m, 2 * n - 1)[..2 * n - 2] == Items(m, 2 * (n - 1));
      assert Size(m, 2 * n - 1) == Size(m, 2 * n - 2) == 2 * m - n;
      PairStep(m, n);
    }
  }

  lemma PairStep(m: int, n: int)
    ensures (n - 1) * (4 * m - n) + 2 * (2 * m - n) == n * (4 * m - 1 - n)
  {
    Distribute(4 * m - n, n, -1);
    Distribute(n, 4 * m - n, -1);
  }

  lemma Distribute(x: int, a: int, b: int)
    ensures (a + b) * x == a * x + b * x
  {
  }

  lemma TotalBeforeLast(m: nat)
    requires m > 0
    ensures WeightOf(Items(m, 2 * m)) == Times(m, 3 * m - 1)
  {
    WeightOfPairs(m, m);
    TimesIsProduct(m, 3 * m - 1);
  }

  /** If no group exceeds `high` and one stays below it, so does the average. */
  lemma {:induction false} GroupsBelow(cost: Weighted -> nat, groups: seq<seq<Weighted>>, high: nat, k: nat)
    requires forall b :: 0 <= b < |groups| ==> Sum(cost, groups[b]) <= high
    requires k < |groups| && Sum(cost, groups[k]) < high
    ensures Sum(cost, Flatten(groups)) < Times(|groups|, high)
  {
    var n := |groups| - 1;
    SumAppend(cost, Flatten(groups[..n]), groups[n]);
    if k < n { GroupsBelow(cost, groups[..n], high, k); } else { GroupsAtMost(cost, groups[..n], high); }
  }

  /** So before the last item all buckets are exactly `3m - 1` heavy. */
  lemma LowestBeforeLast(m: nat)
    requires m > 0
    ensures Lowest(Items(m, 2 * m + 1), 2 * m, m) == 3 * m - 1
  {
    var items, loads := Items(m, 2 * m), Deal(Items(m, 2 * m), m);
    assert Items(m, 2 * m + 1)[..2 * m] == items;
    DealConserves(items, m);
    TotalBeforeLast(m);
    forall b | 0 <= b < m ensures loads[b].weight <= 3 * m - 1 { LoadsBeforeLast(m, b); }
    FullTotal(items, loads, 3 * m - 1);
  }

  /** Buckets that reach a common limit in total each reach it. */
  lemma FullTotal(items: seq<Weighted>, loads: seq<Load>, high: nat)
    requires loads != [] && Conserved(items, loads) && WeightOf(items) == Times(|loads|, high)
    requires forall b :: 0 <= b < |loads| ==> loads[b].weight <= high
    ensures loads[Lightest(loads)].weight == high
  {
    if loads[Lightest(loads)].weight < high { TotalBelow(items, loads, high); }
  }

  lemma TotalBelow(items: seq<Weighted>, loads: seq<Load>, high: nat)
    requires loads != [] && Conserved(items, loads) && loads[Lightest(loads)].weight < high
    requires forall b :: 0 <= b < |loads| ==> loads[b].weight <= high
    ensures WeightOf(items) < Times(|loads|, high)
  {
    var groups := ItemsOf(loads);
    forall b | 0 <= b < |groups| ensures Sum(WEIGHT, groups[b]) == loads[b].weight { SumIsWeightOf(groups[b]); }
    GroupsBelow(WEIGHT, groups, high, Lightest(loads));
    SumPermutation(WEIGHT, Flatten(groups), items);
    SumIsWeightOf(items);
  }

  // ----- the best assignment -----

  /** The bucket of item `k`: the three items of weight `m` go together, and otherwise a light
      item with each heavy one. */
  function Home(m: nat, k: nat): (b: nat)
    requires m > 0
    ensures b < m
  {
    if k >= 2 * m - 2 then 0 else if k == 2 * Half(k) then Half(k) + 1 else m - 1 - Half(k)
  }

  /** The assignment of the first `n` items. */
  function Assign(m: nat, n: nat): (r: seq<seq<Weighted>>)
    requires m > 0
    ensures |r| == m
  {
    if n == 0 then seq(m, _ => [])
    else
      var groups, b := Assign(m, n - 1), Home(m, n - 1);
      groups[b := groups[b] + [Item(m, n - 1)]]
  }

  lemma {:induction false} AssignHolds(m: nat, n: nat)
    requires m > 0
    ensures multiset(Flatten(Assign(m, n))) == multiset(Items(m, n))
  {
    if n == 0 {
      FlattenEmpty(Assign(m, 0));
    } else {
      AssignHolds(m, n - 1);
      ExtendHolds(Assign(m, n - 1), Home(m, n - 1), Item(m, n - 1), Items(m, n - 1));
      NextItem(m, n - 1);
    }
  }

  lemma ExtendHolds(groups: seq<seq<Weighted>>, b: nat, x: Weighted, items: seq<Weighted>)
    requires b < |groups| && multiset(Flatten(groups)) == multiset(items)
    ensures multiset(Flatten(groups[b := groups[b] + [x]])) == multiset(items + [x])
  {
    FlattenExtend(groups, b, x);
  }

  lemma NextItem(m: nat, n: nat)
    ensures Items(m, n + 1) == Items(m, n) + [Item(m, n)]
  {
  }

  /** What bucket `b` weighs after the first `n` items. */
  function Filled(m: nat, n: nat, b: nat): nat
    requires b < m
  {
    if b == 0 then
      (if n > 2 * m - 2 then m else 0) + (if n > 2 * m - 1 then m else 0) + (if n > 2 * m then m else 0)
    else
      (if n > 2 * b - 2 then 2 * m - b else 0) + (if n > 2 * m - 2 * b - 1 then m + b else 0)
  }

  lemma WeightExtend(s: seq<Weighted>, x: Weighted)
    ensures WeightOf(s + [x]) == WeightOf(s) + x.weight
  {
    assert (s + [x])[..|s|] == s;
  }

  lemma FilledNext(m: nat, n: nat, b: nat)
    requires b < m && n <= 2 * m
    ensures Filled(m, n + 1, b) == Filled(m, n, b) + if b == Home(m, n) then Size(m, n) else 0
  {
  }

  /** The same, item by item. */
  function Received(m: nat, n: nat, b: nat): nat
    requires m > 0
  {
    if n == 0 then 0 else Received(m, n - 1, b) + if b == Home(m, n - 1) then Size(m, n - 1) else 0
  }

  lemma {:induction false} ReceivedIsFilled(m: nat, n: nat, b: nat)
    requires b < m && n <= 2 * m + 1
    ensures Received(m, n, b) == Filled(m, n, b)
  {
    if n > 0 {
      ReceivedIsFilled(m, n - 1, b);
      FilledNext(m, n - 1, b);
    }
  }

  lemma {:induction false} AssignWeighs(m: nat, n: nat, b: nat)
    requires b < m
    ensures WeightOf(Assign(m, n)[b]) == Received(m, n, b)
  {
    if n > 0 {
      AssignWeighs(m, n - 1, b);
      WeightExtend(Assign(m, n - 1)[b], Item(m, n - 1));
    }
  }

  lemma AssignWithin(m: nat, plan: seq<seq<Weighted>>)
    requires m > 0 && plan == Assign(m, 2 * m + 1)
    ensures forall b :: 0 <= b < |plan| ==> WeightOf(plan[b]) <= 3 * m
  {
    forall b | 0 <= b < |plan| ensures WeightOf(plan[b]) <= 3 * m {
      AssignWeighs(m, 2 * m + 1, b);
      ReceivedIsFilled(m, 2 * m + 1, b);
    }
  }

  /** The assignment of all items; no bucket of it exceeds `3m`. */
  lemma BestPlan(m: nat) returns (plan: seq<seq<Weighted>>)
    requires m > 0
    ensures |plan| == m && multiset(Flatten(plan)) == multiset(Items(m, 2 * m + 1))
    ensures forall b :: 0 <= b < |plan| ==> WeightOf(plan[b]) <= 3 * m
  {
    var n := 2 * m + 1;
    plan := Assign(m, n);
    AssignHolds(m, n);
    AssignWithin(m, plan);
  }

  /** For every number of shards there are files, a better assignment of them and a shard whose
      load attains the bound. */
  lemma BoundIsAttained(m: nat)
      returns (config: Config, files: seq<File>, plan: seq<seq<Weighted>>, top: nat, shard: nat)
    requires m > 0
    ensures |plan| == m && Schedule(plan, WeighAll(config, files), top) && top > 0 && shard < m
    ensures 3 * m * Deal(Queue(config, files), m)[shard].weight == (4 * m - 1) * top
  {
    config, files, top := TightConfig(m), TightFiles(m), 3 * m;
    plan := BestPlan(m);
    WeighedFiles(m);
    QueueOfTightFiles(m);
    shard := LastShard(m);
    SwapFactors(m, Deal(Queue(config, files), m)[shard].weight, top);
  }

  /** The bucket that takes the last item. */
  lemma LastBucket(items: seq<Weighted>, m: nat) returns (b: nat)
    requires items != [] && m > 0
    ensures b < m && Deal(items, m)[b].weight == Lowest(items, |items| - 1, m) + items[|items| - 1].weight
  {
    var n := |items| - 1;
    b := Lightest(Deal(items[..n], m));
    DealStep(items, n, m, b);
    assert items[..n + 1] == items;
  }

  lemma LastShard(m: nat) returns (shard: nat)
    requires m > 0
    ensures shard < m && Deal(Items(m, 2 * m + 1), m)[shard].weight == 4 * m - 1
  {
    LowestBeforeLast(m);
    shard := LastBucket(Items(m, 2 * m + 1), m);
    assert Items(m, 2 * m + 1)[2 * m] == Item(m, 2 * m);
  }

  lemma SwapFactors(m: nat, load: nat, top: nat)
    requires m > 0 && load == 4 * m - 1 && top == 3 * m
    ensures 3 * m * load == (4 * m - 1) * top
  {
  }
}
