/** What the dealing loop guarantees: conservation, agreement between runners that
    discover the files in different orders, and the longest-processing-time bound. */
module ShardBounds {
  import opened Arithmetic
  import opened Ordering
  import opened ShardSequencer
  import opened Wrappers

  /** The sum of a cost over a list. */
  function Sum(cost: Weighted -> nat, s: seq<Weighted>): nat {
    if s == [] then 0 else Sum(cost, s[..|s| - 1]) + cost(s[|s| - 1])
  }

  const WEIGHT: Weighted -> nat := (item: Weighted) => item.weight

  function Flatten<T>(groups: seq<seq<T>>): seq<T> {
    if groups == [] then [] else Flatten(groups[..|groups| - 1]) + groups[|groups| - 1]
  }

  function ItemsOf(loads: seq<Load>): (r: seq<seq<Weighted>>)
    ensures |r| == |loads|
    ensures forall i :: 0 <= i < |loads| ==> r[i] == loads[i].items
  {
    seq(|loads|, i requires 0 <= i < |loads| => loads[i].items)
  }

  // ----- sums -----

  lemma {:induction false} SumAppend(cost: Weighted -> nat, s: seq<Weighted>, t: seq<Weighted>)
    ensures Sum(cost, s + t) == Sum(cost, s) + Sum(cost, t)
  {
    if t == [] {
      assert s + t == s;
    } else {
      assert (s + t)[..|s + t| - 1] == s + t[..|t| - 1];
      SumAppend(cost, s, t[..|t| - 1]);
    }
  }

  lemma {:induction false} SumWithout(cost: Weighted -> nat, s: seq<Weighted>, i: nat)
    requires i < |s|
    ensures Sum(cost, s) == Sum(cost, Without(s, i)) + cost(s[i])
  {
    var n := |s| - 1;
    if i == n {
      assert Without(s, i) == s[..n];
    } else {
      SumWithout(cost, s[..n], i);
      assert Without(s, i)[..n - 1] == Without(s[..n], i);
    }
  }

  lemma {:induction false} SumPermutation(cost: Weighted -> nat, s: seq<Weighted>, t: seq<Weighted>)
    requires multiset(s) == multiset(t)
    ensures Sum(cost, s) == Sum(cost, t)
  {
    SameLength(s, t);
    if s != [] {
      var i := Locate(s, t);
      SumPermutation(cost, s[1..], Without(t, i));
      SumWithout(cost, t, i);
      SumWithout(cost, s, 0);
      assert Without(s, 0) == s[1..];
    }
  }

  lemma {:induction false} SumIsWeightOf(s: seq<Weighted>)
    ensures Sum(WEIGHT, s) == WeightOf(s)
  {
    if s != [] { SumIsWeightOf(s[..|s| - 1]); }
  }

  lemma {:induction false} GroupsAtLeast(cost: Weighted -> nat, groups: seq<seq<Weighted>>, low: nat)
    requires forall b :: 0 <= b < |groups| ==> low <= Sum(cost, groups[b])
    ensures Times(|groups|, low) <= Sum(cost, Flatten(groups))
  {
    if groups != [] {
      var n := |groups| - 1;
      GroupsAtLeast(cost, groups[..n], low);
      SumAppend(cost, Flatten(groups[..n]), groups[n]);
    }
  }

  lemma {:induction false} GroupsAtMost(cost: Weighted -> nat, groups: seq<seq<Weighted>>, high: nat)
    requires forall b :: 0 <= b < |groups| ==> Sum(cost, groups[b]) <= high
    ensures Sum(cost, Flatten(groups)) <= Times(|groups|, high)
  {
    if groups != [] {
      var n := |groups| - 1;
      GroupsAtMost(cost, groups[..n], high);
      SumAppend(cost, Flatten(groups[..n]), groups[n]);
    }
  }

  lemma {:induction false} FlattenMember<T>(groups: seq<seq<T>>, x: T)
    requires x in Flatten(groups)
    ensures exists b :: 0 <= b < |groups| && x in groups[b]
  {
    var n := |groups| - 1;
    if x !in groups[n] { FlattenMember(groups[..n], x); }
  }

  lemma {:induction false} MemberCost(cost: Weighted -> nat, s: seq<Weighted>, x: Weighted)
    requires x in s
    ensures cost(x) <= Sum(cost, s)
  {
    if s[|s| - 1] != x { MemberCost(cost, s[..|s| - 1], x); }
  }

  // ----- conservation -----

  lemma {:induction false} FlattenExtend<T>(groups: seq<seq<T>>, k: nat, x: T)
    requires k < |groups|
    ensures multiset(Flatten(groups[k := groups[k] + [x]])) == multiset(Flatten(groups)) + multiset{x}
  {
    var n := |groups| - 1;
    var extended := groups[k := groups[k] + [x]];
    if k == n {
      assert extended[..n] == groups[..n];
    } else {
      assert extended[..n] == groups[..n][k := groups[..n][k] + [x]];
      FlattenExtend(groups[..n], k, x);
    }
  }

  lemma {:induction false} FlattenEmpty<T>(groups: seq<seq<T>>)
    requires forall b :: 0 <= b < |groups| ==> groups[b] == []
    ensures Flatten(groups) == []
  {
    if groups != [] { FlattenEmpty(groups[..|groups| - 1]); }
  }

  /** Every bucket's running weight is the weight of its files, and the buckets hold
      exactly `items`. */
  ghost predicate Conserved(items: seq<Weighted>, loads: seq<Load>) {
    && (forall b :: 0 <= b < |loads| ==> loads[b].weight == WeightOf(loads[b].items))
    && multiset(Flatten(ItemsOf(loads))) == multiset(items)
  }

  /** No file is lost or repeated, and the running weights are right. */
  lemma {:induction false} DealConserves(items: seq<Weighted>, count: nat)
    requires items != [] ==> count > 0
    ensures Conserved(items, Deal(items, count))
  {
    if items == [] {
      NothingDealt(count);
    } else {
      var n := |items| - 1;
      DealConserves(items[..n], count);
      PlaceConserves(items[..n], Deal(items[..n], count), items[n]);
      assert items == items[..n] + [items[n]];
      assert Deal(items, count) == Place(Deal(items[..n], count), items[n]);
    }
  }

  lemma NothingDealt(count: nat)
    ensures Conserved([], Deal([], count))
  {
    FlattenEmpty(ItemsOf(Deal([], count)));
  }

  lemma PlaceWeights(loads: seq<Load>, item: Weighted, b: nat)
    requires b < |loads|
    requires forall b :: 0 <= b < |loads| ==> loads[b].weight == WeightOf(loads[b].items)
    ensures Place(loads, item)[b].weight == WeightOf(Place(loads, item)[b].items)
  {
    var held := loads[Lightest(loads)].items;
    assert (held + [item])[..|held|] == held;
  }

  lemma PlaceConserves(items: seq<Weighted>, loads: seq<Load>, item: Weighted)
    requires loads != [] && Conserved(items, loads)
    ensures Conserved(items + [item], Place(loads, item))
  {
    var k, placed := Lightest(loads), Place(loads, item);
    forall b | 0 <= b < |placed| ensures placed[b].weight == WeightOf(placed[b].items) {
      PlaceWeights(loads, item, b);
    }
    assert ItemsOf(placed) == ItemsOf(loads)[k := loads[k].items + [item]];
    FlattenExtend(ItemsOf(loads), k, item);
  }

  // ----- agreement -----

  ghost predicate DistinctPaths(config: Config, files: seq<File>) {
    forall f, g :: f in files && g in files && config.relativePath(f) == config.relativePath(g) ==> f == g
  }

  /** The dealing order does not depend on the discovery order. */
  lemma QueueAgreement(config: Config, a: seq<File>, b: seq<File>)
    requires multiset(a) == multiset(b) && DistinctPaths(config, a)
    ensures Queue(config, a) == Queue(config, b)
  {
    OrderIsTotal();
    var wa, wb := WeighAll(config, a), WeighAll(config, b);
    SortBySorted(ORDER, wa);
    SortBySorted(ORDER, wb);
    MapPermutation((file: File) => Weigh(config, file), a, b);
    var s, t := Queue(config, a), Queue(config, b);
    forall x, y | x in s && y in s && ORDER(x, y) && ORDER(y, x) ensures x == y {
      BelowTrichotomy(x.path, y.path);
      assert x in multiset(s) && y in multiset(s);
      assert x in multiset(wa) && y in multiset(wa);
      assert x in wa && y in wa;
      assert x.file in a && y.file in a;
    }
    SortedUnique(ORDER, s, t);
  }

  lemma {:induction false} FlattenFiles(groups: seq<seq<Weighted>>)
    ensures Flatten(Map(Files, groups)) == Files(Flatten(groups))
  {
    if groups != [] {
      var n := |groups| - 1;
      FlattenFiles(groups[..n]);
      assert Map(Files, groups)[..n] == Map(Files, groups[..n]);
      assert Files(Flatten(groups)) == Files(Flatten(groups[..n])) + Files(groups[n]);
    }
  }

  /** `count` runners, each with its own permutation of the same files, together
      select every file exactly once. */
  lemma RunnersPartition(config: Config, files: seq<File>, runs: seq<seq<File>>, shards: seq<seq<File>>)
    requires DistinctPaths(config, files)
    requires |runs| == |shards| > 0
    requires forall i :: 0 <= i < |runs| ==> multiset(runs[i]) == multiset(files)
    requires forall i :: 0 <= i < |runs| ==> Selection(config, runs[i], |runs|, i + 1) == Success(shards[i])
    ensures multiset(Flatten(shards)) == multiset(files)
  {
    var queue := Queue(config, files);
    var groups := ItemsOf(Deal(queue, |runs|));
    forall i | 0 <= i < |runs| ensures shards[i] == Files(groups[i]) {
      RunnerSelects(config, files, runs[i], |runs|, i, shards[i]);
    }
    DealConserves(queue, |runs|);
    GroupsPartition(config, files, groups, shards);
  }

  lemma GroupsPartition(config: Config, files: seq<File>, groups: seq<seq<Weighted>>, shards: seq<seq<File>>)
    requires |shards| == |groups| && forall i :: 0 <= i < |groups| ==> shards[i] == Files(groups[i])
    requires multiset(Flatten(groups)) == multiset(Queue(config, files))
    ensures multiset(Flatten(shards)) == multiset(files)
  {
    assert shards == Map(Files, groups);
    FlattenFiles(groups);
    QueueFiles(config, files, Flatten(groups));
  }

  lemma RunnerSelects(config: Config, files: seq<File>, run: seq<File>, count: nat, i: nat, shard: seq<File>)
    requires DistinctPaths(config, files) && multiset(run) == multiset(files) && i < count
    requires Selection(config, run, count, i + 1) == Success(shard)
    ensures shard == Files(Deal(Queue(config, files), count)[i].items)
  {
    QueueAgreement(config, files, run);
  }

  lemma QueueFiles(config: Config, files: seq<File>, items: seq<Weighted>)
    requires multiset(items) == multiset(Queue(config, files))
    ensures multiset(Files(items)) == multiset(files)
  {
    var weighed := WeighAll(config, files);
    MapPermutation((item: Weighted) => item.file, items, weighed);
    assert Files(weighed) == files;
  }

  // ----- the longest-processing-time bound -----

  /** `plan` assigns exactly `items` to `|plan|` buckets, none heavier than `top`. */
  ghost predicate Schedule(plan: seq<seq<Weighted>>, items: seq<Weighted>, top: nat) {
    && multiset(Flatten(plan)) == multiset(items)
    && forall b :: 0 <= b < |plan| ==> WeightOf(plan[b]) <= top
  }

  ghost predicate Descending(items: seq<Weighted>) {
    forall i, j :: 0 <= i < j < |items| ==> items[i].weight >= items[j].weight
  }

  /** The weight of the lightest bucket after the first `k` items. */
  function Lowest(items: seq<Weighted>, k: nat, count: nat): nat
    requires k <= |items| && count > 0
  {
    var loads := Deal(items[..k], count);
    loads[Lightest(loads)].weight
  }

  /** No bucket is lighter than the lightest, so the lightest is at most the average. */
  lemma LightestAtMostAverage(items: seq<Weighted>, loads: seq<Load>)
    requires loads != [] && Conserved(items, loads)
    ensures Times(|loads|, loads[Lightest(loads)].weight) <= WeightOf(items)
  {
    var low := loads[Lightest(loads)].weight;
    GroupWeights(loads, low);
    GroupsAtLeast(WEIGHT, ItemsOf(loads), low);
    SumPermutation(WEIGHT, Flatten(ItemsOf(loads)), items);
    SumIsWeightOf(items);
  }

  lemma GroupWeights(loads: seq<Load>, low: nat)
    requires forall b :: 0 <= b < |loads| ==> low <= loads[b].weight == WeightOf(loads[b].items)
    ensures forall b :: 0 <= b < |loads| ==> low <= Sum(WEIGHT, ItemsOf(loads)[b])
  {
    forall b | 0 <= b < |loads| ensures low <= Sum(WEIGHT, ItemsOf(loads)[b]) { SumIsWeightOf(loads[b].items); }
  }

  lemma {:induction false} PrefixSum(cost: Weighted -> nat, items: seq<Weighted>, k: nat)
    requires k <= |items|
    ensures Sum(cost, items[..k]) <= Sum(cost, items)
  {
    assert items == items[..k] + items[k..];
    SumAppend(cost, items[..k], items[k..]);
  }

  /** The total weight fits in the buckets of any schedule, and so does every single item. */
  lemma ScheduleCovers(plan: seq<seq<Weighted>>, items: seq<Weighted>, top: nat)
    requires Schedule(plan, items, top)
    ensures WeightOf(items) <= Times(|plan|, top)
    ensures forall item :: item in items ==> item.weight <= top
  {
    forall b | 0 <= b < |plan| ensures Sum(WEIGHT, plan[b]) <= top { SumIsWeightOf(plan[b]); }
    GroupsAtMost(WEIGHT, plan, top);
    SumPermutation(WEIGHT, Flatten(plan), items);
    SumIsWeightOf(items);
    forall item | item in items ensures item.weight <= top {
      assert item in multiset(items);
      assert item in multiset(Flatten(plan));
      FlattenMember(plan, item);
      var b :| 0 <= b < |plan| && item in plan[b];
      MemberCost(WEIGHT, plan[b], item);
      SumIsWeightOf(plan[b]);
    }
  }

  /** How many of the two places of a bucket an item uses up against a threshold `w`:
      none when it is lighter, both when it cannot share a bucket with another item. */
  function Places(w: nat, top: nat): Weighted -> nat {
    (item: Weighted) => if item.weight < w then 0 else if item.weight + w > top then 2 else 1
  }

  /** A bucket that fits in `top` uses at most two places when `w` exceeds a third of `top`. */
  lemma {:induction false} PlacesNeedRoom(s: seq<Weighted>, w: nat, top: nat)
    requires 3 * w > top
    ensures Sum(Places(w, top), s) >= 1 ==> WeightOf(s) >= w
    ensures Sum(Places(w, top), s) >= 2 ==> WeightOf(s) + w > top
    ensures Sum(Places(w, top), s) >= 3 ==> WeightOf(s) > top
  {
    if s != [] { PlacesNeedRoom(s[..|s| - 1], w, top); }
  }

  /** A bucket that an item of weight `w` would overfill already uses two places. */
  lemma FullBucketUsesTwo(s: seq<Weighted>, w: nat, top: nat)
    requires w <= top
    requires forall i :: 0 <= i < |s| ==> s[i].weight >= w
    requires WeightOf(s) + w > top
    ensures Sum(Places(w, top), s) >= 2
  {
    var last := s[|s| - 1];
    var front := s[..|s| - 1];
    if front != [] {
      assert Sum(Places(w, top), front) >= Places(w, top)(front[|front| - 1]);
      assert front[|front| - 1] == s[|s| - 2];
    }
    assert last.weight >= w;
  }

  /** When an item heavier than a third of `top` would overflow every bucket, the items
      before it already use two places in each. */
  lemma CrowdedBuckets(dealt: seq<Weighted>, loads: seq<Load>, w: nat, top: nat)
    requires loads != [] && w <= top && Conserved(dealt, loads)
    requires forall i :: 0 <= i < |dealt| ==> dealt[i].weight >= w
    requires loads[Lightest(loads)].weight + w > top
    ensures Sum(Places(w, top), dealt) >= Times(|loads|, 2)
  {
    var groups := ItemsOf(loads);
    var cost := Places(w, top);
    forall b | 0 <= b < |loads| ensures 2 <= Sum(cost, groups[b]) {
      var g := groups[b];
      forall i | 0 <= i < |g| ensures g[i].weight >= w {
        GroupMember(groups, b, g[i]);
        assert g[i] in multiset(Flatten(groups));
        assert g[i] in multiset(dealt);
      }
      FullBucketUsesTwo(g, w, top);
    }
    GroupsAtLeast(cost, groups, 2);
    SumPermutation(cost, Flatten(groups), dealt);
  }

  /** A schedule offers two places in each bucket. */
  lemma ScheduleOffersTwo(plan: seq<seq<Weighted>>, items: seq<Weighted>, w: nat, top: nat)
    requires Schedule(plan, items, top) && 3 * w > top
    ensures Sum(Places(w, top), items) <= Times(|plan|, 2)
  {
    var cost := Places(w, top);
    forall b | 0 <= b < |plan| ensures Sum(cost, plan[b]) <= 2 { PlacesNeedRoom(plan[b], w, top); }
    GroupsAtMost(cost, plan, 2);
    SumPermutation(cost, Flatten(plan), items);
  }

  /** So an item heavier than a third of `top` always fits in the lightest bucket. */
  lemma LargeItemFits(items: seq<Weighted>, k: nat, plan: seq<seq<Weighted>>, top: nat)
    requires k < |items| && Descending(items) && plan != []
    requires Schedule(plan, items, top)
    requires 3 * items[k].weight > top
    ensures Lowest(items, k, |plan|) + items[k].weight <= top
  {
    var w := items[k].weight;
    var cost := Places(w, top);
    PrefixSum(cost, items, k + 1);
    assert items[..k + 1][..k] == items[..k];
    if Lowest(items, k, |plan|) + w > top {
      ScheduleCovers(plan, items, top);
      assert items[k] in items;
      ScheduleOffersTwo(plan, items, w, top);
      DealConserves(items[..k], |plan|);
      CrowdedBuckets(items[..k], Deal(items[..k], |plan|), w, top);
      assert false;
    }
  }

  lemma {:induction false} GroupMember<T>(groups: seq<seq<T>>, b: nat, x: T)
    requires b < |groups| && x in groups[b]
    ensures x in Flatten(groups)
  {
    var n := |groups| - 1;
    if b < n { GroupMember(groups[..n], b, x); }
  }

  /** One placement under the average argument. */
  lemma PlacementBound(items: seq<Weighted>, k: nat, plan: seq<seq<Weighted>>, top: nat)
    requires k < |items| && plan != [] && Schedule(plan, items, top)
    ensures Times(|plan|, Lowest(items, k, |plan|)) + items[k].weight <= Times(|plan|, top)
  {
    DealConserves(items[..k], |plan|);
    LightestAtMostAverage(items[..k], Deal(items[..k], |plan|));
    ScheduleCovers(plan, items, top);
    PrefixSum(WEIGHT, items, k + 1);
    SumIsWeightOf(items[..k + 1]);
    SumIsWeightOf(items);
    assert items[..k + 1][..k] == items[..k];
  }

  lemma ListArithmetic(m: nat, low: nat, w: nat, top: nat)
    requires m > 0 && w <= top && Times(m, low) + w <= Times(m, top)
    ensures Times(m, low + w) <= Times(2 * m - 1, top)
  {
    TimesAdd(m, low, w);
    TimesMonotone(m - 1, w, top);
    TimesPlus(m, m - 1, top);
  }

  lemma LptArithmetic(m: nat, low: nat, w: nat, top: nat)
    requires m > 0 && Times(m, low) + w <= Times(m, top)
    requires 3 * w <= top || low + w <= top
    ensures Times(3 * m, low + w) <= Times(4 * m - 1, top)
  {
    TimesPlus(3 * m, m - 1, top);
    if low + w <= top {
      TimesMonotone(3 * m, low + w, top);
    } else {
      Thrice(m, low + w);
      Thrice(m, top);
      TimesAdd(m, low, w);
      TimesAdd(m - 1, w, 2 * w);
      TimesAdd(m - 1, w, w);
      TimesMonotone(m - 1, 3 * w, top);
    }
  }

  lemma Thrice(m: nat, x: nat)
    ensures Times(3 * m, x) == 3 * Times(m, x)
  {
    TimesPlus(2 * m, m, x);
    TimesPlus(m, m, x);
  }

  lemma DealStep(items: seq<Weighted>, k: nat, count: nat, b: nat)
    requires k < |items| && b < count
    ensures Deal(items[..k + 1], count)[b].weight
            == if b == Lightest(Deal(items[..k], count)) then Lowest(items, k, count) + items[k].weight
               else Deal(items[..k], count)[b].weight
  {
    assert items[..k + 1][..k] == items[..k];
  }

  lemma ListStep(items: seq<Weighted>, k: nat, plan: seq<seq<Weighted>>, top: nat)
    requires k < |items| && plan != [] && Schedule(plan, items, top)
    ensures Times(|plan|, Lowest(items, k, |plan|) + items[k].weight) <= Times(2 * |plan| - 1, top)
  {
    PlacementBound(items, k, plan, top);
    ScheduleCovers(plan, items, top);
    assert items[k] in items;
    ListArithmetic(|plan|, Lowest(items, k, |plan|), items[k].weight, top);
  }

  lemma LptStep(items: seq<Weighted>, k: nat, plan: seq<seq<Weighted>>, top: nat)
    requires k < |items| && plan != [] && Schedule(plan, items, top) && Descending(items)
    ensures Times(3 * |plan|, Lowest(items, k, |plan|) + items[k].weight) <= Times(4 * |plan| - 1, top)
  {
    PlacementBound(items, k, plan, top);
    if 3 * items[k].weight > top { LargeItemFits(items, k, plan, top); }
    LptArithmetic(|plan|, Lowest(items, k, |plan|), items[k].weight, top);
  }

  /** A bucket's load is nothing, or what the last placement into it made it. */
  lemma {:induction false} LastPlacement(items: seq<Weighted>, k: nat, count: nat, b: nat) returns (j: Option<nat>)
    requires k <= |items| && b < count
    ensures match j
            case None => Deal(items[..k], count)[b].weight == 0
            case Some(i) => i < k && Deal(items[..k], count)[b].weight == Lowest(items, i, count) + items[i].weight
  {
    j := None;
    if k > 0 {
      j := LastPlacement(items, k - 1, count, b);
      DealStep(items, k - 1, count, b);
      if b == Lightest(Deal(items[..k - 1], count)) { j := Some(k - 1); }
    }
  }

  /** Greedy dealing keeps the list bound in any order and, dealing heavier items first, the LPT
      bound. */
  lemma DealBounds(items: seq<Weighted>, plan: seq<seq<Weighted>>, top: nat, b: nat)
    requires b < |plan| && Schedule(plan, items, top)
    ensures Times(|plan|, Deal(items, |plan|)[b].weight) <= Times(2 * |plan| - 1, top)
    ensures Descending(items) ==> Times(3 * |plan|, Deal(items, |plan|)[b].weight) <= Times(4 * |plan| - 1, top)
  {
    var j := LastPlacement(items, |items|, |plan|, b);
    assert items[..|items|] == items;
    if j == None {
      NoLoad(|plan|);
      NoLoad(3 * |plan|);
    } else {
      ListStep(items, j.value, plan, top);
      if Descending(items) { LptStep(items, j.value, plan, top); }
    }
  }

  lemma {:induction false} NoLoad(n: nat)
    ensures Times(n, 0) == 0
  {
    if n > 0 { NoLoad(n - 1); }
  }

  lemma QueueDescends(config: Config, files: seq<File>)
    ensures Descending(Queue(config, files))
  {
    OrderIsTotal();
    SortBySorted(ORDER, WeighAll(config, files));
    var items := Queue(config, files);
    forall i, j | 0 <= i < j < |items| ensures items[i].weight >= items[j].weight {
      assert ORDER(items[i], items[j]);
    }
  }

  /** The list bound and the LPT bound of the load of one of `m` buckets against `top`. */
  predicate WithinBounds(m: nat, load: nat, top: nat)
    requires m > 0
  {
    Times(m, load) <= Times(2 * m - 1, top) && Times(3 * m, load) <= Times(4 * m - 1, top)
  }

  lemma BoundsAsProducts(m: nat, load: nat, top: nat)
    requires m > 0
    ensures WithinBounds(m, load, top) <==> m * load <= (2 * m - 1) * top && 3 * m * load <= (4 * m - 1) * top
  {
    TimesIsProduct(m, load);
    TimesIsProduct(3 * m, load);
    TimesIsProduct(2 * m - 1, top);
    TimesIsProduct(4 * m - 1, top);
  }

  /** Every shard the sequencer selects is within `4/3 - 1/(3m)` of the best possible
      assignment of the same files to the same number of shards. */
  lemma ShardBound(config: Config, files: seq<File>, plan: seq<seq<Weighted>>, top: nat, shard: nat)
    requires shard < |plan|
    requires Schedule(plan, WeighAll(config, files), top)
    ensures WithinBounds(|plan|, Deal(Queue(config, files), |plan|)[shard].weight, top)
  {
    QueueDescends(config, files);
    DealBounds(Queue(config, files), plan, top, shard);
  }
}
