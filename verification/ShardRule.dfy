/** What the CI shard sequencer computes (scripts/ci-shard-sequencer.ts), told without its own
    functions: the weight of a file, the order of dealing, and which shard gets which file. */
module ShardRule {
  import opened Arithmetic
  import opened Ordering
  import opened ShardBounds
  import opened ShardSequencer
  import opened Wrappers

  // ----- weights -----

  /** `weight` is the least whole number that is at least `exact`. */
  predicate RoundsUp(exact: real, weight: nat) {
    weight as real - 1.0 < exact <= weight as real
  }

  /** A duration scaled by the multiplier, and the overhead of one file. */
  function Exact(t: Timings, durationMs: nat): real {
    durationMs as real * t.executionMultiplier + t.perFileOverheadMs as real
  }

  /** An item weighs its recorded duration, or the fallback when its path has none. */
  predicate WeighsRight(config: Config, item: Weighted) {
    && item.path == config.relativePath(item.file)
    && (item.path in config.timings.durationsMs ==>
          RoundsUp(Exact(config.timings, config.timings.durationsMs[item.path]), item.weight))
    && (item.path !in config.timings.durationsMs ==>
          RoundsUp(Exact(config.timings, config.timings.fallbackMs), item.weight))
  }

  lemma RoundedUp(scaled: real, overhead: nat)
    requires scaled >= 0.0
    ensures Ceil(scaled) >= 0 && RoundsUp(scaled + overhead as real, Ceil(scaled) + overhead)
  {
    CeilBounds(scaled);
  }

  lemma WeightIsLeast(config: Config, file: File)
    ensures Weigh(config, file).file == file && WeighsRight(config, Weigh(config, file))
  {
    var t, path := config.timings, config.relativePath(file);
    var durationMs := if path in t.durationsMs then t.durationsMs[path] else t.fallbackMs;
    var scaled := durationMs as real * t.executionMultiplier;
    ScaledNotNegative(durationMs, t.executionMultiplier);
    RoundedUp(scaled, t.perFileOverheadMs);
  }

  lemma ScaledNotNegative(durationMs: nat, multiplier: Multiplier)
    ensures durationMs as real * multiplier >= 0.0
  {
  }

  // ----- the dealing order -----

  /** The first heavier item comes first; at equal weight the path that comes first in a dictionary. */
  ghost predicate Before(a: Weighted, b: Weighted) {
    a.weight > b.weight || (a.weight == b.weight && (a.path == b.path || exists n :: DecidedAt(a.path, b.path, n)))
  }

  /** The queue holds every file once, rightly weighed and in order. */
  ghost predicate Queued(config: Config, files: seq<File>, queue: seq<Weighted>) {
    && multiset(Files(queue)) == multiset(files)
    && (forall i :: 0 <= i < |queue| ==> WeighsRight(config, queue[i]))
    && forall i, j :: 0 <= i < j < |queue| ==> Before(queue[i], queue[j])
  }

  lemma QueueIsRight(config: Config, files: seq<File>)
    ensures Queued(config, files, Queue(config, files))
  {
    var queue, weighed := Queue(config, files), WeighAll(config, files);
    QueueFiles(config, files, queue);
    OrderIsTotal();
    SortBySorted(ORDER, weighed);
    forall i | 0 <= i < |queue| ensures WeighsRight(config, queue[i]) {
      assert queue[i] in multiset(weighed);
      var k :| 0 <= k < |weighed| && weighed[k] == queue[i];
      WeightIsLeast(config, files[k]);
    }
    forall i, j | 0 <= i < j < |queue| ensures Before(queue[i], queue[j]) {
      assert ORDER(queue[i], queue[j]);
      BelowTrichotomy(queue[i].path, queue[j].path);
      BelowIsLexicographic(queue[i].path, queue[j].path);
    }
  }

  // ----- who gets what -----

  /** What bucket `b` carries after `n` items, when item `k` goes to bucket `choices[k]`. */
  function Carried(queue: seq<Weighted>, choices: seq<nat>, n: nat, b: nat): nat
    requires n <= |queue| && n <= |choices|
  {
    if n == 0 then 0
    else Carried(queue, choices, n - 1, b) + if choices[n - 1] == b then queue[n - 1].weight else 0
  }

  /** The files among the first `n` items that go to bucket `b`, in dealing order. */
  function Picked(queue: seq<Weighted>, choices: seq<nat>, n: nat, b: nat): seq<File>
    requires n <= |queue| && n <= |choices|
  {
    if n == 0 then []
    else Picked(queue, choices, n - 1, b) + if choices[n - 1] == b then [queue[n - 1].file] else []
  }

  /** Item `k` goes to the first of the buckets that carry least at that time. */
  predicate GoesToLightest(queue: seq<Weighted>, choices: seq<nat>, count: nat, k: nat)
    requires k < |queue| && k < |choices|
  {
    var c := choices[k];
    && c < count
    && (forall b :: 0 <= b < count ==> Carried(queue, choices, k, c) <= Carried(queue, choices, k, b))
    && (forall b :: 0 <= b < c ==> Carried(queue, choices, k, c) < Carried(queue, choices, k, b))
  }

  ghost predicate Greedy(queue: seq<Weighted>, choices: seq<nat>, count: nat, n: nat) {
    && n <= |choices| && n <= |queue|
    && forall k :: 0 <= k < n ==> GoesToLightest(queue, choices, count, k)
  }

  /** The loads are those of the choices made so far. */
  ghost predicate Matches(loads: seq<Load>, queue: seq<Weighted>, choices: seq<nat>, n: nat)
    requires n <= |queue| && n <= |choices|
  {
    forall b :: 0 <= b < |loads| ==>
      loads[b].weight == Carried(queue, choices, n, b) && Files(loads[b].items) == Picked(queue, choices, n, b)
  }

  lemma LightestIsChosen(loads: seq<Load>, queue: seq<Weighted>, choices: seq<nat>, n: nat)
    requires n < |queue| && n < |choices| && Matches(loads, queue, choices, n)
    requires loads != [] && GoesToLightest(queue, choices, |loads|, n)
    ensures Lightest(loads) == choices[n]
  {
    OneFirstLightest(loads, Lightest(loads), choices[n]);
  }

  lemma OneFirstLightest(loads: seq<Load>, j: nat, k: nat)
    requires FirstLightest(loads, j) && FirstLightest(loads, k)
    ensures j == k
  {
    assert loads[j].weight == loads[k].weight;
  }

  lemma PlaceMatches(loads: seq<Load>, queue: seq<Weighted>, choices: seq<nat>, n: nat)
    requires n < |queue| && n < |choices| && Matches(loads, queue, choices, n)
    requires loads != [] && Lightest(loads) == choices[n]
    ensures Matches(Place(loads, queue[n]), queue, choices, n + 1)
  {
    var k, item := choices[n], queue[n];
    assert Files(loads[k].items + [item]) == Files(loads[k].items) + [item.file];
  }

  lemma {:induction false} DealFollowsChoices(queue: seq<Weighted>, choices: seq<nat>, count: nat, n: nat)
    requires Greedy(queue, choices, count, n) && (n > 0 ==> count > 0)
    ensures Matches(Deal(queue[..n], count), queue, choices, n)
  {
    if n > 0 {
      DealFollowsChoices(queue, choices, count, n - 1);
      DealNext(queue, n - 1, count);
      var loads := Deal(queue[..n - 1], count);
      assert GoesToLightest(queue, choices, count, n - 1);
      LightestIsChosen(loads, queue, choices, n - 1);
      PlaceMatches(loads, queue, choices, n - 1);
    }
  }

  lemma {:induction false} LongerChoices(queue: seq<Weighted>, choices: seq<nat>, c: nat, n: nat, b: nat)
    requires n <= |queue| && n <= |choices|
    ensures Carried(queue, choices + [c], n, b) == Carried(queue, choices, n, b)
  {
    if n > 0 { LongerChoices(queue, choices, c, n - 1, b); }
  }

  /** There always are such choices. */
  lemma {:induction false} ChoicesExist(queue: seq<Weighted>, count: nat, n: nat) returns (choices: seq<nat>)
    requires count > 0 && n <= |queue|
    ensures |choices| == n && Greedy(queue, choices, count, n)
  {
    if n == 0 { return []; }
    var before := ChoicesExist(queue, count, n - 1);
    DealFollowsChoices(queue, before, count, n - 1);
    var c := Lightest(Deal(queue[..n - 1], count));
    choices := before + [c];
    forall k | 0 <= k < n ensures GoesToLightest(queue, choices, count, k) {
      forall b ensures Carried(queue, choices, k, b) == Carried(queue, before, k, b) { LongerChoices(queue, before, c, k, b); }
      assert k < n - 1 ==> GoesToLightest(queue, before, count, k);
    }
  }

  /** A runner gets an error exactly for an index outside 1..count, and otherwise the files that
      the greedy choices give to its bucket. */
  lemma SelectionIs(config: Config, files: seq<File>, count: nat, index: int, choices: seq<nat>)
    requires Greedy(Queue(config, files), choices, count, |files|)
    ensures Queued(config, files, Queue(config, files)) && |Queue(config, files)| == |files|
    ensures Selection(config, files, count, index).Success? <==> 1 <= index <= count
    ensures 1 <= index <= count ==>
              Selection(config, files, count, index)
              == Success(Picked(Queue(config, files), choices, |files|, index - 1))
  {
    var queue := Queue(config, files);
    QueueIsRight(config, files);
    if 1 <= index <= count {
      DealFollowsChoices(queue, choices, count, |queue|);
      assert queue[..|queue|] == queue;
    }
  }
}
