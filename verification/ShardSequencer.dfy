/** The CI shard sequencer: weigh every file, sort by weight and path, then deal
    each file to the lightest bucket (scripts/ci-shard-sequencer.ts). */
module ShardSequencer {
  import opened Arithmetic
  import opened Ordering
  import opened Wrappers

  /** A test file, named by its module id. */
  datatype File = File(moduleId: string)

  datatype Weighted = Weighted(file: File, path: string, weight: nat)

  type Multiplier = r: real | r >= 0.0

  /** The recorded timings. */
  datatype Timings = Timings(
    durationsMs: map<string, nat>,
    fallbackMs: nat,
    executionMultiplier: Multiplier,
    perFileOverheadMs: nat)

  /** The configuration a runner starts from; `relativePath` stands for
      `relative(root, moduleId)` with the separators replaced. */
  datatype Config = Config(timings: Timings, relativePath: File -> string)

  function Weigh(config: Config, file: File): Weighted
  {
    var t := config.timings;
    var path := config.relativePath(file);
    var durationMs := if path in t.durationsMs then t.durationsMs[path] else t.fallbackMs;
    var scaled := durationMs as real * t.executionMultiplier;
    Weighted(file, path, Ceil(scaled) + t.perFileOverheadMs)
  }

  function WeighAll(config: Config, files: seq<File>): (r: seq<Weighted>)
    ensures |r| == |files|
  {
    Map((file: File) => Weigh(config, file), files)
  }

  /** The comparator: heavier first, then by path. */
  predicate MayPrecede(a: Weighted, b: Weighted) {
    a.weight > b.weight || (a.weight == b.weight && !Below(b.path, a.path))
  }

  const ORDER: (Weighted, Weighted) -> bool := (a, b) => MayPrecede(a, b)

  lemma OrderIsTotal()
    ensures TotalPreorder(ORDER)
  {
    forall a, b ensures ORDER(a, b) || ORDER(b, a) {
      BelowTrichotomy(a.path, b.path);
    }
    forall a, b, c | ORDER(a, b) && ORDER(b, c) ensures ORDER(a, c) {
      BelowTrichotomy(a.path, b.path);
      BelowTrichotomy(b.path, c.path);
      BelowTrichotomy(a.path, c.path);
      if a.weight == c.weight && Below(c.path, a.path) {
        if Below(a.path, b.path) {
          BelowTransitive(c.path, a.path, b.path);
        }
      }
    }
  }

  /** The files in dealing order. */
  function Queue(config: Config, files: seq<File>): seq<Weighted>
  {
    SortBy(ORDER, WeighAll(config, files))
  }

  /** What a bucket holds. */
  datatype Load = Load(weight: nat, items: seq<Weighted>)

  function WeightOf(items: seq<Weighted>): nat {
    if items == [] then 0 else WeightOf(items[..|items| - 1]) + items[|items| - 1].weight
  }

  /** `k` is the first of the lightest loads. */
  predicate FirstLightest(loads: seq<Load>, k: nat) {
    && k < |loads|
    && (forall j :: 0 <= j < |loads| ==> loads[k].weight <= loads[j].weight)
    && (forall j :: 0 <= j < k ==> loads[k].weight < loads[j].weight)
  }

  function Lightest(loads: seq<Load>): (k: nat)
    requires loads != []
    ensures FirstLightest(loads, k)
  {
    if |loads| == 1 then 0
    else
      var k := Lightest(loads[..|loads| - 1]);
      if loads[|loads| - 1].weight < loads[k].weight then |loads| - 1 else k
  }

  function Place(loads: seq<Load>, item: Weighted): (r: seq<Load>)
    requires loads != []
    ensures |r| == |loads|
  {
    var k := Lightest(loads);
    loads[k := Load(loads[k].weight + item.weight, loads[k].items + [item])]
  }

  function Deal(items: seq<Weighted>, count: nat): (r: seq<Load>)
    requires items != [] ==> count > 0
    ensures |r| == count
  {
    if items == [] then seq(count, _ => Load(0, []))
    else Place(Deal(items[..|items| - 1], count), items[|items| - 1])
  }

  function Files(items: seq<Weighted>): (r: seq<File>)
    ensures |r| == |items|
  {
    Map((item: Weighted) => item.file, items)
  }

  /** The bucket object that the dealing loop updates. */
  class Bucket {
    var weight: nat
    var files: seq<File>
    ghost var items: seq<Weighted>

    constructor ()
      ensures weight == 0 && files == [] && items == []
    {
      weight, files, items := 0, [], [];
    }

    ghost predicate Holds(load: Load)
      reads this
    {
      weight == load.weight && items == load.items && files == Files(load.items)
    }

    method Add(item: Weighted, ghost load: Load)
      requires Holds(load)
      modifies this
      ensures Holds(Load(load.weight + item.weight, load.items + [item]))
    {
      files := files + [item.file];
      weight := weight + item.weight;
      items := items + [item];
    }
  }

  method FreshBuckets(count: nat) returns (buckets: seq<Bucket>)
    ensures |buckets| == count
    ensures forall i :: 0 <= i < count ==> fresh(buckets[i]) && buckets[i].Holds(Load(0, []))
    ensures forall i, j :: 0 <= i < j < count ==> buckets[i] != buckets[j]
  {
    buckets := [];
    while |buckets| < count
      invariant |buckets| <= count
      invariant forall i :: 0 <= i < |buckets| ==> fresh(buckets[i]) && buckets[i].Holds(Load(0, []))
      invariant forall i, j :: 0 <= i < j < |buckets| ==> buckets[i] != buckets[j]
    {
      var b := new Bucket();
      buckets := buckets + [b];
    }
  }

  /** The `reduce` that picks the bucket to extend. */
  method PickLightest(buckets: seq<Bucket>, ghost loads: seq<Load>) returns (k: nat)
    requires buckets != [] && |loads| == |buckets|
    requires forall i :: 0 <= i < |buckets| ==> buckets[i].Holds(loads[i])
    ensures k == Lightest(loads)
  {
    k := 0;
    for next := 1 to |buckets|
      invariant FirstLightest(loads[..next], k)
    {
      if buckets[next].weight < buckets[k].weight { k := next; }
    }
    assert loads[..|buckets|] == loads;
    ghost var least := Lightest(loads);
    assert FirstLightest(loads, least) && FirstLightest(loads, k);
  }

  /** What one runner executes: every file when sharding is off, an error for an empty or
      out-of-range shard, and otherwise the selected bucket. */
  function Selection(config: Config, files: seq<File>, count: nat, index: int): Result<seq<File>, string>
  {
    var queue := Queue(config, files);
    if queue != [] && count == 0 then Failure("Reduce of empty array with no initial value")
    else if 1 <= index <= count then Success(Files(Deal(queue, count)[index - 1].items))
    else Failure("Invalid shard")
  }

  /** One round of the dealing loop. */
  method PlaceInto(buckets: seq<Bucket>, item: Weighted, ghost loads: seq<Load>)
    requires buckets != [] && |loads| == |buckets|
    requires forall i, j :: 0 <= i < j < |buckets| ==> buckets[i] != buckets[j]
    requires forall b :: 0 <= b < |buckets| ==> buckets[b].Holds(loads[b])
    modifies buckets
    ensures forall b :: 0 <= b < |buckets| ==> buckets[b].Holds(Place(loads, item)[b])
  {
    var k := PickLightest(buckets, loads);
    buckets[k].Add(item, loads[k]);
  }

  lemma DealNext(weighted: seq<Weighted>, i: nat, count: nat)
    requires i < |weighted| && count > 0
    ensures Deal(weighted[..i + 1], count) == Place(Deal(weighted[..i], count), weighted[i])
  {
    assert weighted[..i + 1][..i] == weighted[..i];
  }

  /** The dealing loop over the bucket objects. */
  method DealInto(buckets: seq<Bucket>, weighted: seq<Weighted>)
    requires weighted != [] ==> buckets != []
    requires forall i, j :: 0 <= i < j < |buckets| ==> buckets[i] != buckets[j]
    requires forall b :: 0 <= b < |buckets| ==> buckets[b].Holds(Load(0, []))
    modifies buckets
    ensures forall b :: 0 <= b < |buckets| ==> buckets[b].Holds(Deal(weighted, |buckets|)[b])
  {
    for i := 0 to |weighted|
      invariant forall b :: 0 <= b < |buckets| ==> buckets[b].Holds(Deal(weighted[..i], |buckets|)[b])
    {
      DealNext(weighted, i, |buckets|);
      PlaceInto(buckets, weighted[i], Deal(weighted[..i], |buckets|));
    }
    assert weighted[..|weighted|] == weighted;
  }

  /** The shard of one runner, computed with mutable buckets. */
  method Shard(config: Config, files: seq<File>, sharded: bool, count: nat, index: int)
      returns (r: Result<seq<File>, string>)
    ensures !sharded ==> r == Success(files)
    ensures sharded ==> r == Selection(config, files, count, index)
  {
    if !sharded { return Success(files); }
    var weighted := WeighAll(config, files);
    weighted := SortBy(ORDER, weighted);
    var buckets := FreshBuckets(count);
    if weighted != [] && count == 0 {
      return Failure("Reduce of empty array with no initial value");
    }
    DealInto(buckets, weighted);
    if 1 <= index <= count {
      r := Success(buckets[index - 1].files);
    } else {
      r := Failure("Invalid shard");
    }
  }
}
