/** Layer sharing between container images (scripts/image_storage_metrics.py): chain identities,
    and the two byte totals of an image pair. */
module LayerSharing {
  import opened MapSums
  import opened Wrappers

  datatype Layer = Layer(diffId: string, payloadBytes: nat, chainId: string)

  // ----- chain identities -----

  /** `hash` stands for the hex SHA-256 digest of an ASCII text. */
  function Chain(hash: string -> string, parent: Option<string>, diffId: string): string {
    match parent
    case None => diffId
    case Some(p) => "sha256:" + hash(p + " " + diffId)
  }

  /** The chain identity of a non-empty list of diff IDs: the parent's, extended by the last one. */
  function ChainId(hash: string -> string, diffIds: seq<string>): string
    requires diffIds != []
  {
    var n := |diffIds| - 1;
    Chain(hash, if n == 0 then None else Some(ChainId(hash, diffIds[..n])), diffIds[n])
  }

  function DiffIds(layers: seq<Layer>): (r: seq<string>)
    ensures |r| == |layers|
    ensures forall i :: 0 <= i < |layers| ==> r[i] == layers[i].diffId
  {
    seq(|layers|, i requires 0 <= i < |layers| => layers[i].diffId)
  }

  /** The chain identity of layer `i`. */
  function IdAt(hash: string -> string, diffIds: seq<string>, i: nat): string
    requires i < |diffIds|
  {
    ChainId(hash, diffIds[..i + 1])
  }

  /** Every layer carries the chain identity of the layers up to it. */
  ghost predicate Chained(hash: string -> string, layers: seq<Layer>) {
    forall i :: 0 <= i < |layers| ==> layers[i].chainId == IdAt(hash, DiffIds(layers), i)
  }

  ghost predicate SizesAgree(layers: seq<Layer>, sizes: map<string, nat>) {
    forall layer :: layer in layers ==> layer.diffId in sizes && sizes[layer.diffId] == layer.payloadBytes
  }

  lemma NextId(hash: string -> string, diffIds: seq<string>, n: nat)
    requires n < |diffIds|
    ensures IdAt(hash, diffIds, n) == Chain(hash, if n == 0 then None else Some(IdAt(hash, diffIds, n - 1)), diffIds[n])
  {
    assert diffIds[..n + 1][..n] == diffIds[..n];
  }

  // ----- byte totals -----

  function Bytes(layers: seq<Layer>): nat {
    if layers == [] then 0 else Bytes(layers[..|layers| - 1]) + layers[|layers| - 1].payloadBytes
  }

  /** The bytes of the layers, counting each value of `key` once. */
  function DistinctBytes(key: Layer -> string, layers: seq<Layer>): nat {
    if layers == [] then 0
    else
      var n := |layers| - 1;
      DistinctBytes(key, layers[..n])
      + if exists i :: 0 <= i < n && key(layers[i]) == key(layers[n]) then 0 else layers[n].payloadBytes
  }

  const BY_DIFF_ID: Layer -> string := (layer: Layer) => layer.diffId
  const BY_CHAIN_ID: Layer -> string := (layer: Layer) => layer.chainId

  /** Equal diff IDs have equal sizes, and equal chain IDs equal diff IDs and sizes. */
  predicate Compatible(x: Layer, y: Layer) {
    && (x.diffId == y.diffId ==> x.payloadBytes == y.payloadBytes)
    && (x.chainId == y.chainId ==> x.diffId == y.diffId && x.payloadBytes == y.payloadBytes)
  }

  ghost predicate Consistent(layers: seq<Layer>) {
    forall i, j :: 0 <= i < j < |layers| ==> Compatible(layers[i], layers[j])
  }

  lemma TotalInsert(sizes: map<string, nat>, k: string, size: nat)
    requires k in sizes ==> sizes[k] == size
    ensures var next := sizes[k := size];
            Total(next, next.Keys) == Total(sizes, sizes.Keys) + if k in sizes then 0 else size
  {
    var next := sizes[k := size];
    if k in sizes {
      assert next == sizes;
    } else {
      TotalSplits(next, next.Keys, k);
      assert next.Keys - {k} == sizes.Keys;
      TotalAgrees(next, sizes, sizes.Keys);
    }
  }

  /** `sum(sizes.values())`. */
  method SumValues(sizes: map<string, nat>) returns (sum: nat)
    ensures sum == Total(sizes, sizes.Keys)
  {
    sum := 0;
    var rest := sizes.Keys;
    while rest != {}
      invariant rest <= sizes.Keys && sum + Total(sizes, rest) == Total(sizes, sizes.Keys)
    {
      var k :| k in rest;
      TotalSplits(sizes, rest, k);
      sum := sum + sizes[k];
      rest := rest - {k};
    }
  }

  // ----- the pair summary -----

  datatype Summary = Summary(contentBytes: nat, chainBytes: nat)

  /** One map of the summary loop: the sizes of the keys seen so far. */
  ghost predicate Seen(sizes: map<string, nat>, key: Layer -> string, layers: seq<Layer>) {
    && (forall i :: 0 <= i < |layers| ==> key(layers[i]) in sizes && sizes[key(layers[i])] == layers[i].payloadBytes)
    && (forall k :: k in sizes ==> exists i :: 0 <= i < |layers| && key(layers[i]) == k)
    && Total(sizes, sizes.Keys) == DistinctBytes(key, layers)
  }

  lemma SeenNext(sizes: map<string, nat>, key: Layer -> string, layers: seq<Layer>, layer: Layer)
    requires Seen(sizes, key, layers)
    requires key(layer) in sizes ==> sizes[key(layer)] == layer.payloadBytes
    ensures Seen(sizes[key(layer) := layer.payloadBytes], key, layers + [layer])
  {
    var longer := layers + [layer];
    var next := sizes[key(layer) := layer.payloadBytes];
    assert longer[..|layers|] == layers;
    TotalInsert(sizes, key(layer), layer.payloadBytes);
    forall k | k in next ensures exists i :: 0 <= i < |longer| && key(longer[i]) == k {
      if k == key(layer) {
        assert key(longer[|layers|]) == k;
      } else {
        var i :| 0 <= i < |layers| && key(layers[i]) == k;
        assert key(longer[i]) == k;
      }
    }
    assert key(layer) in sizes <==> exists i :: 0 <= i < |layers| && key(longer[i]) == key(longer[|layers|]);
  }

  /** The diff ID recorded for each chain ID. */
  ghost predicate Diffs(chainDiffs: map<string, string>, layers: seq<Layer>) {
    forall i :: 0 <= i < |layers| ==> layers[i].chainId in chainDiffs && chainDiffs[layers[i].chainId] == layers[i].diffId
  }

  /** The state of the summary loop after some layers. */
  ghost predicate Summarized(contents: map<string, nat>, chainSizes: map<string, nat>,
                             chainDiffs: map<string, string>, layers: seq<Layer>) {
    && Seen(contents, BY_DIFF_ID, layers) && Seen(chainSizes, BY_CHAIN_ID, layers) && Diffs(chainDiffs, layers)
    && chainDiffs.Keys == chainSizes.Keys
    && Consistent(layers)
  }

  /** A layer that passes both checks is compatible with every layer before it. */
  lemma ChecksMeanCompatible(contents: map<string, nat>, chainSizes: map<string, nat>, chainDiffs: map<string, string>,
                             layers: seq<Layer>, layer: Layer, i: nat)
    requires Seen(contents, BY_DIFF_ID, layers) && Seen(chainSizes, BY_CHAIN_ID, layers) && Diffs(chainDiffs, layers)
    requires layer.diffId in contents ==> contents[layer.diffId] == layer.payloadBytes
    requires layer.chainId in chainSizes && layer.chainId in chainDiffs ==>
               chainSizes[layer.chainId] == layer.payloadBytes && chainDiffs[layer.chainId] == layer.diffId
    requires i < |layers|
    ensures Compatible(layers[i], layer)
  {
    assert BY_DIFF_ID(layers[i]) in contents && BY_CHAIN_ID(layers[i]) in chainSizes;
  }

  lemma ConsistentNext(layers: seq<Layer>, layer: Layer)
    requires Consistent(layers) && forall i :: 0 <= i < |layers| ==> Compatible(layers[i], layer)
    ensures Consistent(layers + [layer])
  {
  }

  lemma SummarizedNext(contents: map<string, nat>, chainSizes: map<string, nat>, chainDiffs: map<string, string>,
                       layers: seq<Layer>, layer: Layer)
    requires Summarized(contents, chainSizes, chainDiffs, layers)
    requires layer.diffId in contents ==> contents[layer.diffId] == layer.payloadBytes
    requires layer.chainId in chainSizes && layer.chainId in chainDiffs ==>
               chainSizes[layer.chainId] == layer.payloadBytes && chainDiffs[layer.chainId] == layer.diffId
    ensures Summarized(contents[layer.diffId := layer.payloadBytes], chainSizes[layer.chainId := layer.payloadBytes],
                       chainDiffs[layer.chainId := layer.diffId], layers + [layer])
  {
    forall i | 0 <= i < |layers| ensures Compatible(layers[i], layer) {
      ChecksMeanCompatible(contents, chainSizes, chainDiffs, layers, layer, i);
    }
    ConsistentNext(layers, layer);
    SeenNext(contents, BY_DIFF_ID, layers, layer);
    SeenNext(chainSizes, BY_CHAIN_ID, layers, layer);
    DiffsNext(chainDiffs, layers, layer);
  }

  lemma DiffsNext(chainDiffs: map<string, string>, layers: seq<Layer>, layer: Layer)
    requires Diffs(chainDiffs, layers) && (layer.chainId in chainDiffs ==> chainDiffs[layer.chainId] == layer.diffId)
    ensures Diffs(chainDiffs[layer.chainId := layer.diffId], layers + [layer])
  {
  }

  /** Either failed check shows two incompatible layers. */
  lemma Clash(contents: map<string, nat>, chainSizes: map<string, nat>, chainDiffs: map<string, string>,
              layers: seq<Layer>, layer: Layer)
    requires Summarized(contents, chainSizes, chainDiffs, layers)
    requires (layer.diffId in contents && contents[layer.diffId] != layer.payloadBytes)
             || (layer.chainId in chainSizes && layer.chainId in chainDiffs
                 && (chainDiffs[layer.chainId] != layer.diffId || chainSizes[layer.chainId] != layer.payloadBytes))
    ensures !Consistent(layers + [layer])
  {
    var i: nat;
    if layer.diffId in contents && contents[layer.diffId] != layer.payloadBytes {
      i :| i < |layers| && BY_DIFF_ID(layers[i]) == layer.diffId;
    } else {
      i :| i < |layers| && BY_CHAIN_ID(layers[i]) == layer.chainId;
    }
    var longer := layers + [layer];
    assert longer[i] == layers[i] && longer[|layers|] == layer;
    assert !Compatible(longer[i], longer[|layers|]);
  }

  lemma ConsistentPrefix(layers: seq<Layer>, n: nat)
    requires n <= |layers| && !Consistent(layers[..n])
    ensures !Consistent(layers)
  {
    var i, j :| 0 <= i < j < n && !Compatible(layers[..n][i], layers[..n][j]);
    assert !Compatible(layers[i], layers[j]);
  }

  lemma SummarizedNothing()
    ensures Summarized(map[], map[], map[], [])
  {
  }

  lemma SummarizedTotals(contents: map<string, nat>, chainSizes: map<string, nat>, chainDiffs: map<string, string>,
                         layers: seq<Layer>)
    requires Summarized(contents, chainSizes, chainDiffs, layers)
    ensures Total(contents, contents.Keys) == DistinctBytes(BY_DIFF_ID, layers)
    ensures Total(chainSizes, chainSizes.Keys) == DistinctBytes(BY_CHAIN_ID, layers)
    ensures Consistent(layers)
  {
  }

  /** The three maps of the summary loop. */
  datatype Maps = Maps(contents: map<string, nat>, chainSizes: map<string, nat>, chainDiffs: map<string, string>)

  /** One layer of the summary loop: both checks, then the updates. */
  function AddToMaps(m: Maps, layer: Layer): Option<Maps> {
    if layer.diffId in m.contents && m.contents[layer.diffId] != layer.payloadBytes then None
    else if layer.chainId in m.chainSizes && layer.chainId in m.chainDiffs
            && (m.chainDiffs[layer.chainId] != layer.diffId || m.chainSizes[layer.chainId] != layer.payloadBytes) then None
    else Some(Maps(m.contents[layer.diffId := layer.payloadBytes], m.chainSizes[layer.chainId := layer.payloadBytes],
                   m.chainDiffs[layer.chainId := layer.diffId]))
  }

  /** The maps after all layers, unless a check failed. */
  function MapsOf(layers: seq<Layer>): Option<Maps> {
    if layers == [] then Some(Maps(map[], map[], map[]))
    else
      match MapsOf(layers[..|layers| - 1])
      case None => None
      case Some(m) => AddToMaps(m, layers[|layers| - 1])
  }

  lemma {:induction false} MapsStayFailed(layers: seq<Layer>, n: nat)
    requires n <= |layers| && MapsOf(layers[..n]) == None
    ensures MapsOf(layers) == None
  {
    if n == |layers| {
      assert layers[..n] == layers;
    } else {
      var front := layers[..|layers| - 1];
      assert front[..n] == layers[..n];
      MapsStayFailed(front, n);
    }
  }

  ghost predicate Means(m: Option<Maps>, layers: seq<Layer>) {
    match m
    case None => !Consistent(layers)
    case Some(maps) => Summarized(maps.contents, maps.chainSizes, maps.chainDiffs, layers)
  }

  lemma AddMeans(m: Maps, layers: seq<Layer>, layer: Layer)
    requires Summarized(m.contents, m.chainSizes, m.chainDiffs, layers)
    ensures Means(AddToMaps(m, layer), layers + [layer])
  {
    if AddToMaps(m, layer) == None {
      Clash(m.contents, m.chainSizes, m.chainDiffs, layers, layer);
    } else {
      SummarizedNext(m.contents, m.chainSizes, m.chainDiffs, layers, layer);
    }
  }

  /** The checks fail exactly on inconsistent layers; otherwise the maps summarize them. */
  lemma {:induction false} MapsMean(layers: seq<Layer>)
    ensures Means(MapsOf(layers), layers)
  {
    if layers == [] {
      SummarizedNothing();
    } else {
      var n := |layers| - 1;
      MapsMean(layers[..n]);
      if MapsOf(layers[..n]) == None {
        ConsistentPrefix(layers, n);
      } else {
        PrefixNext(layers, n);
        AddMeans(MapsOf(layers[..n]).value, layers[..n], layers[n]);
      }
    }
  }

  lemma PrefixNext<T>(s: seq<T>, i: nat)
    requires i < |s|
    ensures s[..i + 1] == s[..i] + [s[i]] && s[..|s|] == s
  {
  }

  /** What the totals of the maps count. */
  lemma MapsTotals(layers: seq<Layer>)
    ensures MapsOf(layers).Some? <==> Consistent(layers)
    ensures MapsOf(layers).Some? ==>
              var m := MapsOf(layers).value;
              && Total(m.contents, m.contents.Keys) == DistinctBytes(BY_DIFF_ID, layers)
              && Total(m.chainSizes, m.chainSizes.Keys) == DistinctBytes(BY_CHAIN_ID, layers)
  {
    MapsMean(layers);
    if MapsOf(layers).Some? {
      var m := MapsOf(layers).value;
      SummarizedTotals(m.contents, m.chainSizes, m.chainDiffs, layers);
    }
  }

  lemma {:induction false} MapsKeys(layers: seq<Layer>)
    requires MapsOf(layers).Some?
    ensures MapsOf(layers).value.chainSizes.Keys == MapsOf(layers).value.chainDiffs.Keys
  {
    if layers != [] { MapsKeys(layers[..|layers| - 1]); }
  }

  lemma MapsNext(layers: seq<Layer>, i: nat)
    requires i < |layers| && MapsOf(layers[..i]).Some?
    ensures var m := MapsOf(layers[..i]).value;
            MapsOf(layers[..i + 1]) == AddToMaps(m, layers[i]) && m.chainSizes.Keys == m.chainDiffs.Keys
  {
    MapsKeys(layers[..i]);
    assert layers[..i + 1][..i] == layers[..i];
  }

  lemma MapsFail(layers: seq<Layer>, n: nat)
    requires n <= |layers| && MapsOf(layers[..n]) == None
    ensures !Consistent(layers)
  {
    MapsStayFailed(layers, n);
    MapsTotals(layers);
  }

  /** The layer loops of `_summarize_pair` over both images, one after the other. */
  method SummarizePair(a: seq<Layer>, b: seq<Layer>) returns (r: Result<Summary, string>)
    ensures r.Success? <==> Consistent(a + b)
    ensures r.Success? ==>
              r.value == Summary(DistinctBytes(BY_DIFF_ID, a + b), DistinctBytes(BY_CHAIN_ID, a + b))
  {
    var layers := a + b;
    var contents: map<string, nat>, chainSizes: map<string, nat>, chainDiffs: map<string, string> := map[], map[], map[];
    for i := 0 to |layers|
      invariant MapsOf(layers[..i]) == Some(Maps(contents, chainSizes, chainDiffs))
    {
      var layer := layers[i];
      MapsNext(layers, i);
      if layer.diffId in contents && contents[layer.diffId] != layer.payloadBytes {
        MapsFail(layers, i + 1);
        return Failure("Inconsistent content payload sizes");
      }
      if layer.chainId in chainSizes
         && (chainDiffs[layer.chainId] != layer.diffId || chainSizes[layer.chainId] != layer.payloadBytes) {
        MapsFail(layers, i + 1);
        return Failure("Inconsistent snapshot chain metadata");
      }
      contents := contents[layer.diffId := layer.payloadBytes];
      chainSizes, chainDiffs := chainSizes[layer.chainId := layer.payloadBytes], chainDiffs[layer.chainId := layer.diffId];
    }
    assert layers[..|layers|] == layers;
    MapsTotals(layers);
    var contentBytes := SumValues(contents);
    var chainBytes := SumValues(chainSizes);
    r := Success(Summary(contentBytes, chainBytes));
  }

  // ----- identities and inequalities -----

  lemma {:induction false} DistinctAtMostAll(key: Layer -> string, layers: seq<Layer>)
    ensures DistinctBytes(key, layers) <= Bytes(layers)
  {
    if layers != [] { DistinctAtMostAll(key, layers[..|layers| - 1]); }
  }

  lemma {:induction false} BytesAppend(a: seq<Layer>, b: seq<Layer>)
    ensures Bytes(a + b) == Bytes(a) + Bytes(b)
  {
    if b == [] {
      assert a + b == a;
    } else {
      assert (a + b)[..|a + b| - 1] == a + b[..|b| - 1];
      BytesAppend(a, b[..|b| - 1]);
    }
  }

  /** The content union never exceeds the chain-weighted union, whatever the hash does. */
  lemma {:induction false} ContentAtMostChain(layers: seq<Layer>)
    requires Consistent(layers)
    ensures DistinctBytes(BY_DIFF_ID, layers) <= DistinctBytes(BY_CHAIN_ID, layers)
  {
    if layers != [] {
      var n := |layers| - 1;
      ContentAtMostChain(layers[..n]);
      if i :| 0 <= i < n && layers[i].chainId == layers[n].chainId {
        assert Compatible(layers[i], layers[n]);
        assert BY_DIFF_ID(layers[i]) == BY_DIFF_ID(layers[n]);
      }
    }
  }

  lemma PairInequalities(a: seq<Layer>, b: seq<Layer>)
    requires Consistent(a + b)
    ensures DistinctBytes(BY_DIFF_ID, a + b) <= DistinctBytes(BY_CHAIN_ID, a + b) <= Bytes(a) + Bytes(b)
  {
    ContentAtMostChain(a + b);
    DistinctAtMostAll(BY_CHAIN_ID, a + b);
    BytesAppend(a, b);
  }

  /** The length of the longest common prefix. */
  function CommonPrefix(a: seq<string>, b: seq<string>): (n: nat)
    ensures n <= |a| && n <= |b| && a[..n] == b[..n]
    ensures n < |a| && n < |b| ==> a[n] != b[n]
  {
    if a == [] || b == [] || a[0] != b[0] then 0
    else
      var n := CommonPrefix(a[1..], b[1..]);
      assert a[..n + 1] == [a[0]] + a[1..][..n] && b[..n + 1] == [b[0]] + b[1..][..n];
      n + 1
  }

  lemma PrefixBelowCommon(a: seq<string>, b: seq<string>, n: nat)
    requires n <= |a| && n <= |b| && a[..n] == b[..n]
    ensures n <= CommonPrefix(a, b)
  {
    var c := CommonPrefix(a, b);
    assert forall k :: 0 <= k < n ==> a[k] == a[..n][k] && b[k] == b[..n][k];
  }

  /** The layers of one image have pairwise different chain IDs. */
  ghost predicate OwnIdsDistinct(hash: string -> string, a: seq<string>) {
    forall i, j :: 0 <= i < j < |a| ==> IdAt(hash, a, i) != IdAt(hash, a, j)
  }

  /** No two different lists of diff IDs that occur as a prefix of either image share a chain ID. */
  ghost predicate CollisionFree(hash: string -> string, a: seq<string>, b: seq<string>) {
    && OwnIdsDistinct(hash, a) && OwnIdsDistinct(hash, b)
    && forall i, j :: 0 <= i < |a| && 0 <= j < |b| && IdAt(hash, a, i) == IdAt(hash, b, j) ==> i == j && a[..i + 1] == b[..i + 1]
  }

  /** Whether layer `n` of the second image already occurs in the first or below it in the second. */
  ghost predicate Repeats(a: seq<Layer>, b: seq<Layer>, n: nat)
    requires n < |b|
  {
    (exists i :: 0 <= i < |a| && a[i].chainId == b[n].chainId) || (exists i :: 0 <= i < n && b[i].chainId == b[n].chainId)
  }

  lemma AddLayer(a: seq<Layer>, b: seq<Layer>, n: nat)
    requires n < |b|
    ensures DistinctBytes(BY_CHAIN_ID, a + b[..n + 1])
            == DistinctBytes(BY_CHAIN_ID, a + b[..n]) + if Repeats(a, b, n) then 0 else b[n].payloadBytes
  {
    var layers := a + b[..n + 1];
    assert layers[..|layers| - 1] == a + b[..n];
    assert layers[|layers| - 1] == b[n];
    if Repeats(a, b, n) {
      if i :| 0 <= i < |a| && a[i].chainId == b[n].chainId {
        assert BY_CHAIN_ID(layers[i]) == BY_CHAIN_ID(b[n]);
      } else {
        var i :| 0 <= i < n && b[i].chainId == b[n].chainId;
        assert BY_CHAIN_ID(layers[|a| + i]) == BY_CHAIN_ID(b[n]);
      }
    } else {
      forall i | 0 <= i < |layers| - 1 ensures BY_CHAIN_ID(layers[i]) != BY_CHAIN_ID(b[n]) {
        if i < |a| { assert layers[i] == a[i]; } else { assert layers[i] == b[i - |a|]; }
      }
    }
  }

  /** Inside the common prefix every layer repeats. */
  lemma PrefixRepeats(hash: string -> string, a: seq<Layer>, b: seq<Layer>, n: nat)
    requires Chained(hash, a) && Chained(hash, b) && n < CommonPrefix(DiffIds(a), DiffIds(b))
    ensures Repeats(a, b, n)
  {
    var c := CommonPrefix(DiffIds(a), DiffIds(b));
    assert DiffIds(a)[..n + 1] == DiffIds(a)[..c][..n + 1];
    assert DiffIds(b)[..n + 1] == DiffIds(b)[..c][..n + 1];
    assert a[n].chainId == b[n].chainId;
  }

  /** Beyond it no layer does, unless chain IDs collide. */
  lemma BeyondPrefixIsNew(hash: string -> string, a: seq<Layer>, b: seq<Layer>, n: nat)
    requires Chained(hash, a) && Chained(hash, b) && CommonPrefix(DiffIds(a), DiffIds(b)) <= n < |b|
    requires CollisionFree(hash, DiffIds(a), DiffIds(b))
    ensures !Repeats(a, b, n)
  {
    forall i | 0 <= i < |a| ensures a[i].chainId != b[n].chainId { NotInFirst(hash, a, b, i, n); }
    forall i | 0 <= i < n ensures b[i].chainId != b[n].chainId { OwnChainIdsDiffer(hash, b, i, n); }
  }

  lemma SharedIdIsCommon(hash: string -> string, a: seq<string>, b: seq<string>, i: nat, n: nat)
    requires CollisionFree(hash, a, b) && i < |a| && n < |b| && IdAt(hash, a, i) == IdAt(hash, b, n)
    ensures n < CommonPrefix(a, b)
  {
    PrefixBelowCommon(a, b, n + 1);
  }

  lemma NotInFirst(hash: string -> string, a: seq<Layer>, b: seq<Layer>, i: nat, n: nat)
    requires Chained(hash, a) && Chained(hash, b) && CommonPrefix(DiffIds(a), DiffIds(b)) <= n < |b| && i < |a|
    requires CollisionFree(hash, DiffIds(a), DiffIds(b))
    ensures a[i].chainId != b[n].chainId
  {
    if a[i].chainId == b[n].chainId { SharedIdIsCommon(hash, DiffIds(a), DiffIds(b), i, n); }
  }

  lemma {:induction false} OwnLayersDistinct(hash: string -> string, a: seq<Layer>, n: nat)
    requires Chained(hash, a) && OwnIdsDistinct(hash, DiffIds(a)) && n <= |a|
    ensures DistinctBytes(BY_CHAIN_ID, a[..n]) == Bytes(a[..n])
  {
    if n > 0 {
      OwnLayersDistinct(hash, a, n - 1);
      assert a[..n][..n - 1] == a[..n - 1];
      forall i | 0 <= i < n - 1 ensures BY_CHAIN_ID(a[..n][i]) != BY_CHAIN_ID(a[n - 1]) {
        assert IdAt(hash, DiffIds(a), i) != IdAt(hash, DiffIds(a), n - 1);
      }
    }
  }

  /** The bytes of the second image that lie beyond the common prefix, up to layer `n`. */
  function Beyond(b: seq<Layer>, c: nat, n: nat): nat
    requires n <= |b|
  {
    if n <= c then 0 else Beyond(b, c, n - 1) + b[n - 1].payloadBytes
  }

  lemma {:induction false} BeyondIsDifference(b: seq<Layer>, c: nat, n: nat)
    requires c <= n <= |b|
    ensures Beyond(b, c, n) == Bytes(b[..n]) - Bytes(b[..c])
  {
    if n > c {
      BeyondIsDifference(b, c, n - 1);
      assert b[..n][..n - 1] == b[..n - 1];
    }
  }

  lemma {:induction false} SecondImageAddsAtMost(a: seq<Layer>, b: seq<Layer>, c: nat, n: nat)
    requires n <= |b| && forall k :: 0 <= k < n && k < c ==> Repeats(a, b, k)
    ensures DistinctBytes(BY_CHAIN_ID, a + b[..n]) <= DistinctBytes(BY_CHAIN_ID, a) + Beyond(b, c, n)
  {
    if n == 0 {
      assert a + b[..0] == a;
    } else {
      SecondImageAddsAtMost(a, b, c, n - 1);
      AddLayer(a, b, n - 1);
    }
  }

  lemma {:induction false} SecondImageAdds(a: seq<Layer>, b: seq<Layer>, c: nat, n: nat)
    requires n <= |b| && forall k :: 0 <= k < n ==> (k < c <==> Repeats(a, b, k))
    ensures DistinctBytes(BY_CHAIN_ID, a + b[..n]) == DistinctBytes(BY_CHAIN_ID, a) + Beyond(b, c, n)
  {
    if n == 0 {
      assert a + b[..0] == a;
    } else {
      SecondImageAdds(a, b, c, n - 1);
      AddLayer(a, b, n - 1);
    }
  }

  lemma ChainBytesAtMost(hash: string -> string, a: seq<Layer>, b: seq<Layer>)
    requires Chained(hash, a) && Chained(hash, b)
    ensures DistinctBytes(BY_CHAIN_ID, a + b)
            <= DistinctBytes(BY_CHAIN_ID, a) + Beyond(b, CommonPrefix(DiffIds(a), DiffIds(b)), |b|)
  {
    var c := CommonPrefix(DiffIds(a), DiffIds(b));
    forall k | 0 <= k < c ensures Repeats(a, b, k) { PrefixRepeats(hash, a, b, k); }
    SecondImageAddsAtMost(a, b, c, |b|);
    assert b[..|b|] == b;
  }

  lemma ChainBytesExactly(hash: string -> string, a: seq<Layer>, b: seq<Layer>)
    requires Chained(hash, a) && Chained(hash, b) && CollisionFree(hash, DiffIds(a), DiffIds(b))
    ensures DistinctBytes(BY_CHAIN_ID, a + b) == Bytes(a) + Beyond(b, CommonPrefix(DiffIds(a), DiffIds(b)), |b|)
  {
    var c := CommonPrefix(DiffIds(a), DiffIds(b));
    forall k | 0 <= k < |b| ensures k < c <==> Repeats(a, b, k) {
      if k < c { PrefixRepeats(hash, a, b, k); } else { BeyondPrefixIsNew(hash, a, b, k); }
    }
    SecondImageAdds(a, b, c, |b|);
    OwnLayersDistinct(hash, a, |a|);
    assert b[..|b|] == b && a[..|a|] == a;
  }

  /** The chain-weighted total removes at least the common prefix from the sum of both images, and
      exactly the common prefix when the chain hash has no collision among their layers. */
  lemma ChainBytesIdentity(hash: string -> string, a: seq<Layer>, b: seq<Layer>)
    requires Chained(hash, a) && Chained(hash, b)
    ensures var c := CommonPrefix(DiffIds(a), DiffIds(b));
            && DistinctBytes(BY_CHAIN_ID, a + b) <= Bytes(a) + Bytes(b) - Bytes(b[..c])
            && (CollisionFree(hash, DiffIds(a), DiffIds(b)) ==>
                  DistinctBytes(BY_CHAIN_ID, a + b) == Bytes(a) + Bytes(b) - Bytes(b[..c]))
  {
    var c := CommonPrefix(DiffIds(a), DiffIds(b));
    assert b[..|b|] == b;
    ChainBytesAtMost(hash, a, b);
    BeyondIsDifference(b, c, |b|);
    DistinctAtMostAll(BY_CHAIN_ID, a);
    if CollisionFree(hash, DiffIds(a), DiffIds(b)) { ChainBytesExactly(hash, a, b); }
  }

  /** Chain IDs that do not collide determine the diff ID. */
  lemma ChainDeterminesDiff(hash: string -> string, a: seq<Layer>, b: seq<Layer>, i: nat, j: nat)
    requires Chained(hash, a) && Chained(hash, b) && i < |a| <= j < |a| + |b|
    requires CollisionFree(hash, DiffIds(a), DiffIds(b))
    requires (a + b)[i].chainId == (a + b)[j].chainId
    ensures (a + b)[i].diffId == (a + b)[j].diffId
  {
    assert IdAt(hash, DiffIds(a), i) == IdAt(hash, DiffIds(b), j - |a|);
    assert DiffIds(a)[..i + 1][i] == DiffIds(b)[..i + 1][i];
  }

  lemma OwnChainIdsDiffer(hash: string -> string, a: seq<Layer>, i: nat, j: nat)
    requires Chained(hash, a) && OwnIdsDistinct(hash, DiffIds(a)) && i < j < |a|
    ensures a[i].chainId != a[j].chainId
  {
  }

  /** Two images of one archive only fail the pair checks when two chain IDs collide. */
  lemma OnlyCollisionsFail(hash: string -> string, a: seq<Layer>, b: seq<Layer>, sizes: map<string, nat>)
    requires Chained(hash, a) && Chained(hash, b) && SizesAgree(a, sizes) && SizesAgree(b, sizes)
    requires CollisionFree(hash, DiffIds(a), DiffIds(b))
    ensures Consistent(a + b)
  {
    var layers := a + b;
    forall i, j | 0 <= i < j < |layers| ensures Compatible(layers[i], layers[j]) {
      assert layers[i] in a || layers[i] in b;
      assert layers[j] in a || layers[j] in b;
      if j < |a| { OwnChainIdsDiffer(hash, a, i, j); }
      if i >= |a| { OwnChainIdsDiffer(hash, b, i - |a|, j - |a|); }
      if i < |a| <= j && layers[i].chainId == layers[j].chainId { ChainDeterminesDiff(hash, a, b, i, j); }
    }
  }

  // ----- the totals as sums over identities -----

  /** Every identity of the layers has one size in `sizes`, and `sizes` has no other. */
  ghost predicate SizesOf(sizes: map<string, nat>, ids: seq<string>, layers: seq<Layer>)
    requires |ids| == |layers|
  {
    && (forall i :: 0 <= i < |layers| ==> ids[i] in sizes && sizes[ids[i]] == layers[i].payloadBytes)
    && forall k :: k in sizes ==> k in ids
  }

  function ChainIds(layers: seq<Layer>): (r: seq<string>)
    ensures |r| == |layers| && forall i :: 0 <= i < |layers| ==> r[i] == layers[i].chainId
  {
    seq(|layers|, i requires 0 <= i < |layers| => layers[i].chainId)
  }

  lemma {:induction false} DistinctIsTotal(key: Layer -> string, ids: seq<string>, layers: seq<Layer>,
                                           sizes: map<string, nat>)
    requires |ids| == |layers| && forall i :: 0 <= i < |layers| ==> ids[i] == key(layers[i])
    requires SizesOf(sizes, ids, layers)
    ensures DistinctBytes(key, layers) == Total(sizes, sizes.Keys)
  {
    if layers == [] {
      assert sizes.Keys == {};
    } else {
      var n := |layers| - 1;
      var id, front := ids[n], ids[..n];
      assert ids == front + [id];
      if i :| 0 <= i < n && ids[i] == id {
        assert front[i] == id;
        DistinctIsTotal(key, front, layers[..n], sizes);
        assert key(layers[i]) == key(layers[n]);
      } else {
        var rest := sizes - {id};
        DistinctIsTotal(key, front, layers[..n], rest);
        TotalSplits(sizes, sizes.Keys, id);
        assert sizes.Keys - {id} == rest.Keys;
        TotalAgrees(sizes, rest, rest.Keys);
      }
    }
  }

  /** The content total is the sum of the sizes of the different diff IDs, and the chain-weighted
      total that of the different chain IDs. */
  lemma TotalsAreSums(layers: seq<Layer>, contents: map<string, nat>, chains: map<string, nat>)
    requires SizesOf(contents, DiffIds(layers), layers) && SizesOf(chains, ChainIds(layers), layers)
    ensures DistinctBytes(BY_DIFF_ID, layers) == Total(contents, contents.Keys)
    ensures DistinctBytes(BY_CHAIN_ID, layers) == Total(chains, chains.Keys)
  {
    DistinctIsTotal(BY_DIFF_ID, DiffIds(layers), layers, contents);
    DistinctIsTotal(BY_CHAIN_ID, ChainIds(layers), layers, chains);
  }

  /** Layers are consistent exactly when the tables of the totals exist and a chain ID never
      stands for two diff IDs. */
  lemma ConsistentIff(layers: seq<Layer>)
    ensures Consistent(layers)
            <==> && (exists contents :: SizesOf(contents, DiffIds(layers), layers))
                 && (exists chains :: SizesOf(chains, ChainIds(layers), layers))
                 && forall i, j :: 0 <= i < j < |layers| && layers[i].chainId == layers[j].chainId ==>
                      layers[i].diffId == layers[j].diffId
  {
    MapsMean(layers);
    if Consistent(layers) {
      var m := MapsOf(layers).value;
      SeenIsSizesOf(m.contents, BY_DIFF_ID, DiffIds(layers), layers);
      SeenIsSizesOf(m.chainSizes, BY_CHAIN_ID, ChainIds(layers), layers);
      assert forall i, j :: 0 <= i < j < |layers| ==> Compatible(layers[i], layers[j]);
    }
    if contents, chains :| SizesOf(contents, DiffIds(layers), layers) && SizesOf(chains, ChainIds(layers), layers) {
      forall i, j | 0 <= i < j < |layers|
        ensures layers[i].diffId == layers[j].diffId ==> layers[i].payloadBytes == layers[j].payloadBytes
        ensures layers[i].chainId == layers[j].chainId ==> layers[i].payloadBytes == layers[j].payloadBytes
      {
        assert DiffIds(layers)[i] == layers[i].diffId && ChainIds(layers)[i] == layers[i].chainId;
      }
    }
  }

  lemma SeenIsSizesOf(sizes: map<string, nat>, key: Layer -> string, ids: seq<string>, layers: seq<Layer>)
    requires Seen(sizes, key, layers)
    requires |ids| == |layers| && forall i :: 0 <= i < |layers| ==> ids[i] == key(layers[i])
    ensures SizesOf(sizes, ids, layers)
  {
    forall k | k in sizes ensures k in ids {
      var i :| 0 <= i < |layers| && key(layers[i]) == k;
      assert ids[i] == k;
    }
  }
}
