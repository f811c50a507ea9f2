/** The budgeted tree comparison `boundedParityDifference` (scripts/scheduling-profile/parity.ts)
    against the unbounded traversal it cuts short. */
module ParityDifference {
  import opened JsonPointer
  import opened Ordering
  import opened ParityBudgets
  import opened ParityFindings
  import opened ParityTrace
  import opened Wrappers

  // ----- the bounded traversal -----

  /** The traversal came to an end before a budget did. */
  predicate Conclusive(r: Option<Difference>) {
    r == None || r.value.reason == None || r.value.reason == Some(NonJsonValue)
  }

  /** How a finding is reported; a value outside JSON counts as a truncation. */
  function ReportOf(printer: Printer, lim: Limits, finding: Option<Finding>, visited: nat): Option<Difference>
    requires lim.maxPreviewLength >= 8
  {
    match finding
    case None => None
    case Some(f) =>
      Some(Difference(f.path, if f.kind == NotJson then None else Some(f.kind),
                      Preview(printer, lim.maxPreviewLength, f.left), Preview(printer, lim.maxPreviewLength, f.right),
                      if f.kind == NotJson then Some(NonJsonValue) else None, visited))
  }

  /** What the bounded result says about the unbounded run: it is conclusive exactly when the
      run stays within every limit, and then it is the report of what the run finds. */
  ghost predicate Agrees(printer: Printer, lim: Limits, r: Option<Difference>, run: Run, before: nat, after: nat)
    requires lim.maxPreviewLength >= 8
  {
    && before <= after <= lim.maxVisitedNodes
    && (Conclusive(r) <==> run.Fits() && before + run.visits <= lim.maxVisitedNodes)
    && (Conclusive(r) ==> after == before + run.visits && r == ReportOf(printer, lim, run.finding, after))
    && (r != None ==> r.value.visitedNodes == after && |r.value.path| <= lim.maxPathLength)
    && (r != None ==> Exceeded(lim, r.value.reason, run, before))
  }

  /** A truncation names a limit that the run does exceed. */
  predicate Exceeded(lim: Limits, reason: Option<Reason>, run: Run, before: nat) {
    match reason
    case Some(Depth) => !run.shallow
    case Some(PathLength) => !run.short
    case Some(VisitedNodes) => before + run.visits > lim.maxVisitedNodes
    case _ => true
  }

  function Then(first: Run, rest: Run): Run {
    if first.finding.Some? then first else After(first.visits, first.shallow, first.short, rest)
  }

  /** A part that stops the traversal decides the whole. */
  lemma StoppedBy(printer: Printer, lim: Limits, r: Option<Difference>, first: Run, rest: Run, before: nat, mid: nat,
                  after: nat)
    requires lim.maxPreviewLength >= 8 && before <= mid
    requires Agrees(printer, lim, r, first, mid, after) && r != None
    ensures Agrees(printer, lim, r, After(mid - before, true, true, Then(first, rest)), before, after)
  {
  }

  /** A part without a finding only adds its visits. */
  lemma PassedOver(printer: Printer, lim: Limits, first: Run, rest: Run, before: nat, mid: nat, after: nat)
    requires lim.maxPreviewLength >= 8 && before <= mid
    requires Agrees(printer, lim, None, first, mid, after)
    ensures after >= mid
            && After(mid - before, true, true, Then(first, rest)) == After(after - before, true, true, rest)
  {
  }

  // ----- where a truncation happens -----

  /** The traversal gave up at the values that `keys` lead to, and shows them. */
  ghost predicate StopsAt(printer: Printer, lim: Limits, d: Difference, left: Json, right: Json, path: string,
                          depth: nat,
                          keys: seq<string>)
  {
    && d.kind == None && d.path == path + Print(keys)
    && Walk(left, keys).Some? && Walk(right, keys).Some?
    && Describes(printer, lim.maxPreviewLength, Shown(Walk(left, keys).value), d.actualPreview)
    && Describes(printer, lim.maxPreviewLength, Shown(Walk(right, keys).value), d.expectedPreview)
    && (d.reason == Some(Depth) ==> depth + |keys| > lim.maxDepth)
  }

  ghost predicate Stopped(printer: Printer, lim: Limits, r: Option<Difference>, left: Json, right: Json, path: string,
                          depth: nat)
  {
    r != None && r.value.Truncated() ==> exists keys :: StopsAt(printer, lim, r.value, left, right, path, depth, keys)
  }

  lemma StoppedHere(printer: Printer, lim: Limits, d: Difference, left: Json, right: Json, path: string, depth: nat)
    requires lim.maxPreviewLength >= 8 && d.kind == None && d.path == path
    requires d.actualPreview == Preview(printer, lim.maxPreviewLength, Shown(left))
    requires d.expectedPreview == Preview(printer, lim.maxPreviewLength, Shown(right))
    requires d.reason == Some(Depth) ==> depth > lim.maxDepth
    ensures Stopped(printer, lim, Some(d), left, right, path, depth)
  {
    PreviewDescribes(printer, lim.maxPreviewLength, Shown(left));
    PreviewDescribes(printer, lim.maxPreviewLength, Shown(right));
    assert path + "" == path;
    assert StopsAt(printer, lim, d, left, right, path, depth, []);
  }

  lemma StoppedBelow(printer: Printer, lim: Limits, r: Option<Difference>, left: Json, right: Json, key: string,
                     path: string, depth: nat)
    requires Member(left, key).Some? && Member(right, key).Some?
    requires Stopped(printer, lim, r, Member(left, key).value, Member(right, key).value, Child(path, key), depth + 1)
    ensures Stopped(printer, lim, r, left, right, path, depth)
  {
    if r != None && r.value.Truncated() {
      var keys :| StopsAt(printer, lim, r.value, Member(left, key).value, Member(right, key).value, Child(path, key),
                          depth + 1, keys);
      WalkFromChild(left, key, keys);
      WalkFromChild(right, key, keys);
      PrintFirst(path, key, keys);
      assert StopsAt(printer, lim, r.value, left, right, path, depth, [key] + keys);
    }
  }

  predicate NotAfter(a: string, b: string) { !Below(b, a) }

  const BY_CODE_UNIT: (string, string) -> bool := (a, b) => NotAfter(a, b)

  lemma ByCodeUnitIsTotal()
    ensures TotalPreorder(BY_CODE_UNIT)
  {
    forall a, b ensures BY_CODE_UNIT(a, b) || BY_CODE_UNIT(b, a) { BelowTrichotomy(a, b); }
    forall a, b, c | BY_CODE_UNIT(a, b) && BY_CODE_UNIT(b, c) ensures BY_CODE_UNIT(a, c) {
      BelowTrichotomy(a, b);
      BelowTrichotomy(b, c);
      BelowTrichotomy(a, c);
      if Below(c, a) && Below(a, b) { BelowTransitive(c, a, b); }
    }
  }

  ghost function ToSet(keys: seq<string>): set<string> {
    set k | k in keys
  }

  /** The keys of an object in ascending order, each once. */
  ghost predicate Ascending(keys: seq<string>) {
    forall i, j {:trigger Below(keys[i], keys[j])} :: 0 <= i < j < |keys| ==> Below(keys[i], keys[j])
  }

  lemma SortedKeysAscend(keys: seq<string>, all: set<string>)
    requires multiset(keys) == multiset(all)
    ensures Ascending(SortBy(BY_CODE_UNIT, keys))
    ensures ToSet(SortBy(BY_CODE_UNIT, keys)) == all
  {
    var sorted := SortBy(BY_CODE_UNIT, keys);
    ByCodeUnitIsTotal();
    SortBySorted(BY_CODE_UNIT, keys);
    forall i, j | 0 <= i < j < |sorted| ensures Below(sorted[i], sorted[j]) {
      BelowTrichotomy(sorted[i], sorted[j]);
      assert BY_CODE_UNIT(sorted[i], sorted[j]);
      if sorted[i] == sorted[j] { TwiceCounted(sorted, i, j); }
    }
    forall k ensures k in ToSet(sorted) <==> k in all {
      assert k in sorted <==> k in multiset(sorted);
    }
  }

  class Comparison {
    const lim: Limits
    const printer: Printer
    var visitedNodes: nat

    constructor (lim: Limits, printer: Printer)
      ensures this.lim == lim && this.printer == printer && visitedNodes == 0
    {
      this.lim, this.printer, visitedNodes := lim, printer, 0;
    }

    ghost predicate Valid()
      reads this
    {
      visitedNodes <= lim.maxVisitedNodes && lim.maxPreviewLength >= 8
    }

    function Report(path: string, kind: DiffKind, left: Seen, right: Seen): Option<Difference>
      requires lim.maxPreviewLength >= 8
      reads this
    {
      Some(Difference(path, Some(kind), Preview(printer, lim.maxPreviewLength, left),
                      Preview(printer, lim.maxPreviewLength, right), None, visitedNodes))
    }

    function Truncate(path: string, reason: Reason, left: Json, right: Json): Option<Difference>
      requires lim.maxPreviewLength >= 8
      reads this
    {
      Some(Difference(path, None, Preview(printer, lim.maxPreviewLength, Shown(left)),
                      Preview(printer, lim.maxPreviewLength, Shown(right)), Some(reason), visitedNodes))
    }

    lemma StopShown(path: string, reason: Reason, left: Json, right: Json, depth: nat)
      requires Valid() && (reason == Depth ==> depth > lim.maxDepth)
      ensures Stopped(printer, lim, Truncate(path, reason, left, right), left, right, path, depth)
    {
      StoppedHere(printer, lim, Truncate(path, reason, left, right).value, left, right, path, depth);
    }

    method Spend() returns (ok: bool)
      requires Valid()
      modifies this
      ensures Valid()
      ensures ok == (old(visitedNodes) < lim.maxVisitedNodes)
      ensures visitedNodes == old(visitedNodes) + if ok then 1 else 0
    {
      if visitedNodes >= lim.maxVisitedNodes { return false; }
      visitedNodes := visitedNodes + 1;
      ok := true;
    }

    /** Extends a pointer character by character, giving up at the path limit. */
    method Pointer(parent: string, key: string) returns (r: Option<string>)
      ensures r == if |Child(parent, key)| <= lim.maxPathLength then Some(Child(parent, key)) else None
    {
      var path := parent + "/";
      if |path| > lim.maxPathLength { return None; }
      for i := 0 to |key|
        invariant path == parent + "/" + Escape(key[..i]) && |path| <= lim.maxPathLength
      {
        assert key[..i + 1][..i] == key[..i];
        var escaped := EscapeChar(key[i]);
        if |path| + |escaped| > lim.maxPathLength {
          EscapeGrows(key, i + 1);
          return None;
        }
        path := path + escaped;
      }
      assert key[..|key|] == key;
      r := Some(path);
    }

    static lemma {:induction false} EscapeGrows(key: string, n: nat)
      requires n <= |key|
      ensures |Escape(key[..n])| <= |Escape(key)|
    {
      if n == |key| {
        assert key[..n] == key;
      } else {
        assert key[..|key| - 1][..n] == key[..n];
        EscapeGrows(key[..|key| - 1], n);
      }
    }

    /** Compares two values; `depth` and `path` say where they are. */
    method Visit(left: Json, right: Json, path: string, depth: nat) returns (r: Option<Difference>)
      requires Valid() && |path| <= lim.maxPathLength
      modifies this
      ensures Valid()
      ensures Agrees(printer, lim, r, Trace(left, right, path, depth, lim), old(visitedNodes), visitedNodes)
      ensures Stopped(printer, lim, r, left, right, path, depth)
      decreases left, 5
    {
      var ok := Spend();
      if !ok {
        OutOfVisits(left, right, path, depth);
        return Truncate(path, VisitedNodes, left, right);
      }
      if depth > lim.maxDepth {
        TooDeep(left, right, path, depth);
        return Truncate(path, Depth, left, right);
      }
      ghost var mid := visitedNodes;
      r := VisitNode(left, right, path, depth);
      NodeAgrees(r, left, right, path, depth, mid);
    }

    lemma OutOfVisits(left: Json, right: Json, path: string, depth: nat)
      requires Valid() && |path| <= lim.maxPathLength && visitedNodes == lim.maxVisitedNodes
      ensures var r := Truncate(path, VisitedNodes, left, right);
              && Agrees(printer, lim, r, Trace(left, right, path, depth, lim), visitedNodes, visitedNodes)
              && Stopped(printer, lim, r, left, right, path, depth)
    {
      StopShown(path, VisitedNodes, left, right, depth);
    }

    lemma TooDeep(left: Json, right: Json, path: string, depth: nat)
      requires Valid() && |path| <= lim.maxPathLength && visitedNodes > 0 && depth > lim.maxDepth
      ensures var r := Truncate(path, Depth, left, right);
              && Agrees(printer, lim, r, Trace(left, right, path, depth, lim), visitedNodes - 1, visitedNodes)
              && Stopped(printer, lim, r, left, right, path, depth)
    {
      StopShown(path, Depth, left, right, depth);
    }

    /** The visit of the node itself comes before that of its members. */
    lemma NodeAgrees(r: Option<Difference>, left: Json, right: Json, path: string, depth: nat, mid: nat)
      requires Valid() && mid > 0 && depth <= lim.maxDepth
      requires Agrees(printer, lim, r, TraceNode(left, right, path, depth, lim), mid, visitedNodes)
      ensures Agrees(printer, lim, r, Trace(left, right, path, depth, lim), mid - 1, visitedNodes)
    {
    }

    method VisitNode(left: Json, right: Json, path: string, depth: nat) returns (r: Option<Difference>)
      requires Valid() && |path| <= lim.maxPathLength
      modifies this
      ensures Valid()
      ensures Agrees(printer, lim, r, TraceNode(left, right, path, depth, lim), old(visitedNodes), visitedNodes)
      ensures Stopped(printer, lim, r, left, right, path, depth)
      decreases left, 4
    {
      if KindOf(left) != KindOf(right) { return Report(path, TypeDiffers, Shown(left), Shown(right)); }
      if IsScalar(left) {
        return if left == right then None else Report(path, ScalarDiffers, Shown(left), Shown(right));
      }
      if left.Arr? && right.Arr? {
        if |left.items| != |right.items| { return Report(path, ArrayLength, Length(left), Length(right)); }
        r := VisitItems(left, right, path, depth);
      } else if !left.Obj? || !right.Obj? {
        StopShown(path, NonJsonValue, left, right, depth);
        r := Truncate(path, NonJsonValue, left, right);
      } else {
        r := VisitObjects(left, right, path, depth);
      }
    }

    /** One pair of items. */
    method VisitItem(left: Json, right: Json, index: nat, path: string, depth: nat) returns (r: Option<Difference>)
      requires Valid() && |path| <= lim.maxPathLength
      requires left.Arr? && right.Arr? && index < |left.items| == |right.items|
      modifies this
      ensures Valid()
      ensures Agrees(printer, lim, r, ItemRun(left, right, index, path, depth, lim), old(visitedNodes), visitedNodes)
      ensures Stopped(printer, lim, r, left, right, path, depth)
      decreases left, 0
    {
      var next := Pointer(path, Decimal(index));
      if next == None {
        StopShown(path, PathLength, left, right, depth);
        return Truncate(path, PathLength, left, right);
      }
      r := Visit(left.items[index], right.items[index], next.value, depth + 1);
      MemberAtIndex(left.items, index);
      MemberAtIndex(right.items, index);
      StoppedBelow(printer, lim, r, left, right, Decimal(index), path, depth);
    }

    lemma ItemsStep(left: Json, right: Json, index: nat, path: string, depth: nat)
      requires left.Arr? && right.Arr? && index < |left.items| == |right.items|
      ensures TraceItems(left, right, index, path, depth, lim)
              == Then(ItemRun(left, right, index, path, depth, lim), TraceItems(left, right, index + 1, path, depth, lim))
    {
    }

    lemma AllItemsVisited(left: Json, right: Json, path: string, depth: nat, before: nat)
      requires Valid() && left.Arr? && right.Arr? && |left.items| == |right.items| && before <= visitedNodes
      ensures Agrees(printer, lim, None,
                     After(visitedNodes - before, true, true,
                           TraceItems(left, right, |left.items|, path, depth, lim)),
                     before, visitedNodes)
    {
    }

    method VisitItems(left: Json, right: Json, path: string, depth: nat) returns (r: Option<Difference>)
      requires Valid() && |path| <= lim.maxPathLength
      requires left.Arr? && right.Arr? && |left.items| == |right.items|
      modifies this
      ensures Valid()
      ensures Agrees(printer, lim, r, TraceItems(left, right, 0, path, depth, lim), old(visitedNodes), visitedNodes)
      ensures Stopped(printer, lim, r, left, right, path, depth)
      decreases left, 1
    {
      ghost var whole := TraceItems(left, right, 0, path, depth, lim);
      for index := 0 to |left.items|
        invariant Valid() && old(visitedNodes) <= visitedNodes
        invariant whole
                  == After(visitedNodes - old(visitedNodes), true, true,
                           TraceItems(left, right, index, path, depth, lim))
      {
        ghost var mid := visitedNodes;
        ghost var first := ItemRun(left, right, index, path, depth, lim);
        ghost var more := TraceItems(left, right, index + 1, path, depth, lim);
        ItemsStep(left, right, index, path, depth);
        r := VisitItem(left, right, index, path, depth);
        if r != None {
          StoppedBy(printer, lim, r, first, more, old(visitedNodes), mid, visitedNodes);
          return;
        }
        PassedOver(printer, lim, first, more, old(visitedNodes), mid, visitedNodes);
      }
      AllItemsVisited(left, right, path, depth, old(visitedNodes));
      r := None;
    }

    method VisitObjects(left: Json, right: Json, path: string, depth: nat) returns (r: Option<Difference>)
      requires Valid() && |path| <= lim.maxPathLength && left.Obj? && right.Obj?
      modifies this
      ensures Valid()
      ensures Agrees(printer, lim, r, TraceNode(left, right, path, depth, lim), old(visitedNodes), visitedNodes)
      ensures Stopped(printer, lim, r, left, right, path, depth)
      decreases left, 3
    {
      var leftKeys, rightKeys, stopped;
      leftKeys, stopped := Enumerate(left.fields, path);
      if stopped != None {
        StopShown(path, stopped.value, left, right, depth);
        return Truncate(path, stopped.value, left, right);
      }
      rightKeys, stopped := Enumerate(right.fields, path);
      if stopped != None {
        StopShown(path, stopped.value, left, right, depth);
        return Truncate(path, stopped.value, left, right);
      }
      r := VisitFields(left, right, leftKeys, rightKeys, path, depth);
    }

    /** Collects the keys of an object, in any enumeration order, and sorts them. */
    method Enumerate(fields: map<string, Json>, path: string) returns (keys: seq<string>, stopped: Option<Reason>)
      requires Valid()
      modifies this
      ensures Valid() && old(visitedNodes) <= visitedNodes
      ensures stopped == None
              <==> EnumerationFits(fields, path, lim) && old(visitedNodes) + |fields| <= lim.maxVisitedNodes
      ensures stopped == None ==> visitedNodes == old(visitedNodes) + |fields|
      ensures stopped == None ==> Ascending(keys) && ToSet(keys) == fields.Keys
      ensures stopped != None ==> stopped.value in {VisitedNodes, PathLength}
      ensures stopped == Some(PathLength) ==> !EnumerationFits(fields, path, lim)
      ensures stopped == Some(VisitedNodes) ==> old(visitedNodes) + |fields| > lim.maxVisitedNodes
    {
      keys := [];
      var rest := fields.Keys;
      while rest != {}
        invariant Valid() && rest <= fields.Keys && old(visitedNodes) <= visitedNodes
        invariant visitedNodes + |rest| == old(visitedNodes) + |fields|
        invariant multiset(keys) + multiset(rest) == multiset(fields.Keys)
        invariant forall key :: key in fields && key !in rest ==> |key| + |path| + 1 <= lim.maxPathLength
      {
        var key :| key in rest;
        var ok := Spend();
        if !ok { return keys, Some(VisitedNodes); }
        if |key| + |path| + 1 > lim.maxPathLength { return keys, Some(PathLength); }
        keys := keys + [key];
        rest := rest - {key};
      }
      SortedKeysAscend(keys, fields.Keys);
      keys, stopped := SortBy(BY_CODE_UNIT, keys), None;
    }

    /** Merges two ascending key lists; the first key that only one side has is a finding. */
    method VisitFields(left: Json, right: Json, leftKeys: seq<string>, rightKeys: seq<string>, path: string, depth: nat)
        returns (r: Option<Difference>)
      requires Valid() && |path| <= lim.maxPathLength && left.Obj? && right.Obj?
      requires Ascending(leftKeys) && Ascending(rightKeys)
      requires ToSet(leftKeys) == left.fields.Keys && ToSet(rightKeys) == right.fields.Keys
      modifies this
      ensures Valid()
      ensures Agrees(printer, lim, r, TraceFields(left, right, left.fields.Keys + right.fields.Keys, path, depth, lim),
                     old(visitedNodes), visitedNodes)
      ensures Stopped(printer, lim, r, left, right, path, depth)
      decreases left, 2
    {
      ghost var keys := left.fields.Keys + right.fields.Keys;
      ghost var whole := TraceFields(left, right, keys, path, depth, lim);
      var leftIndex, rightIndex := 0, 0;
      NothingMerged(left, right, leftKeys, rightKeys);
      MergeStarts(left, right, path, depth);
      while leftIndex < |leftKeys| || rightIndex < |rightKeys|
        invariant Valid() && old(visitedNodes) <= visitedNodes
        invariant 0 <= leftIndex <= |leftKeys| && 0 <= rightIndex <= |rightKeys|
        invariant Pending(left, right, leftKeys[leftIndex..], rightKeys[rightIndex..], keys)
        invariant Merged(left, right, keys, path, depth, whole, visitedNodes - old(visitedNodes))
        decreases |leftKeys| - leftIndex + |rightKeys| - rightIndex
      {
        ghost var mid := visitedNodes;
        PendingKeys(left, right, leftKeys[leftIndex..], rightKeys[rightIndex..], keys);
        r := VisitHeads(left, right, leftKeys, rightKeys, leftIndex, rightIndex, keys, path, depth);
        if r != None {
          FieldStops(r, left, right, keys, path, depth, whole, old(visitedNodes), mid);
          return;
        }
        FieldPasses(left, right, keys, path, depth, whole, old(visitedNodes), mid);
        keys := keys - {Least(keys)};
        leftIndex, rightIndex := leftIndex + 1, rightIndex + 1;
      }
      assert leftKeys[leftIndex..] == [] && rightKeys[rightIndex..] == [];
      AllMerged(left, right, keys, path, depth, whole, old(visitedNodes));
      r := None;
    }

    /** After `visits` visits the run over `keys` is what is left of the whole. */
    ghost predicate Merged(left: Json, right: Json, keys: set<string>, path: string, depth: nat, whole: Run,
                           visits: int) {
      && left.Obj? && right.Obj? && keys <= left.fields.Keys + right.fields.Keys && visits >= 0
      && whole == After(visits, true, true, TraceFields(left, right, keys, path, depth, lim))
    }

    lemma MergeStarts(left: Json, right: Json, path: string, depth: nat)
      requires left.Obj? && right.Obj?
      ensures var keys := left.fields.Keys + right.fields.Keys;
              Merged(left, right, keys, path, depth, TraceFields(left, right, keys, path, depth, lim), 0)
    {
    }

    static lemma PendingKeys(left: Json, right: Json, a: seq<string>, b: seq<string>, keys: set<string>)
      requires Pending(left, right, a, b, keys) && (a != [] || b != [])
      ensures keys != {}
    {
      assert if a != [] then a[0] in keys else b[0] in keys;
    }

    /** The run over the keys is that over the least one, and then that over the others. */
    lemma FieldsSplit(left: Json, right: Json, keys: set<string>, path: string, depth: nat)
      requires left.Obj? && right.Obj? && keys <= left.fields.Keys + right.fields.Keys && keys != {}
      ensures TraceFields(left, right, keys, path, depth, lim)
              == Then(TraceField(left, right, Least(keys), path, depth, lim),
                      TraceFields(left, right, keys - {Least(keys)}, path, depth, lim))
    {
    }

    lemma FieldStops(r: Option<Difference>, left: Json, right: Json, keys: set<string>, path: string, depth: nat,
                     whole: Run, before: nat, mid: nat)
      requires Valid() && before <= mid && Merged(left, right, keys, path, depth, whole, mid - before) && keys != {}
      requires r != None
      requires Agrees(printer, lim, r, TraceField(left, right, Least(keys), path, depth, lim), mid, visitedNodes)
      ensures Agrees(printer, lim, r, whole, before, visitedNodes)
    {
      FieldsSplit(left, right, keys, path, depth);
      StoppedBy(printer, lim, r, TraceField(left, right, Least(keys), path, depth, lim),
                TraceFields(left, right, keys - {Least(keys)}, path, depth, lim), before, mid, visitedNodes);
    }

    lemma FieldPasses(left: Json, right: Json, keys: set<string>, path: string, depth: nat, whole: Run, before: nat,
                      mid: nat)
      requires Valid() && before <= mid && Merged(left, right, keys, path, depth, whole, mid - before) && keys != {}
      requires Agrees(printer, lim, None, TraceField(left, right, Least(keys), path, depth, lim), mid, visitedNodes)
      ensures mid <= visitedNodes
      ensures Merged(left, right, keys - {Least(keys)}, path, depth, whole, visitedNodes - before)
    {
      FieldsSplit(left, right, keys, path, depth);
      PassedOver(printer, lim, TraceField(left, right, Least(keys), path, depth, lim),
                 TraceFields(left, right, keys - {Least(keys)}, path, depth, lim), before, mid, visitedNodes);
    }

    lemma AllMerged(left: Json, right: Json, keys: set<string>, path: string, depth: nat, whole: Run, before: nat)
      requires Valid() && Pending(left, right, [], [], keys) && before <= visitedNodes
      requires Merged(left, right, keys, path, depth, whole, visitedNodes - before)
      ensures Agrees(printer, lim, None, whole, before, visitedNodes)
    {
      assert keys == {};
    }

    lemma NothingMerged(left: Json, right: Json, leftKeys: seq<string>, rightKeys: seq<string>)
      requires left.Obj? && right.Obj? && Ascending(leftKeys) && Ascending(rightKeys)
      requires ToSet(leftKeys) == left.fields.Keys && ToSet(rightKeys) == right.fields.Keys
      ensures Pending(left, right, leftKeys[0..], rightKeys[0..], left.fields.Keys + right.fields.Keys)
    {
      assert leftKeys[0..] == leftKeys && rightKeys[0..] == rightKeys;
    }

    /** One step of the merge: the smaller head is compared, and both lists move on if neither stopped it. */
    method VisitHeads(left: Json, right: Json, leftKeys: seq<string>, rightKeys: seq<string>, leftIndex: nat,
                      rightIndex: nat,
                      ghost keys: set<string>, path: string, depth: nat)
        returns (r: Option<Difference>)
      requires Valid() && |path| <= lim.maxPathLength && leftIndex <= |leftKeys| && rightIndex <= |rightKeys|
      requires leftIndex < |leftKeys| || rightIndex < |rightKeys|
      requires Pending(left, right, leftKeys[leftIndex..], rightKeys[rightIndex..], keys) && keys != {}
      modifies this
      ensures Valid()
      ensures Agrees(printer, lim, r, TraceField(left, right, Least(keys), path, depth, lim), old(visitedNodes), visitedNodes)
      ensures r == None ==> leftIndex < |leftKeys| && rightIndex < |rightKeys|
                            && Pending(left, right, leftKeys[leftIndex + 1..], rightKeys[rightIndex + 1..], keys - {Least(keys)})
      ensures Stopped(printer, lim, r, left, right, path, depth)
      decreases left, 1
    {
      var leftKey := if leftIndex < |leftKeys| then Some(leftKeys[leftIndex]) else None;
      var rightKey := if rightIndex < |rightKeys| then Some(rightKeys[rightIndex]) else None;
      var key := if rightKey == None || (leftKey != None && Below(leftKey.value, rightKey.value))
                 then leftKey.value else rightKey.value;
      MergeStep(left, right, leftKeys[leftIndex..], rightKeys[rightIndex..], keys, key);
      assert leftIndex < |leftKeys| ==> leftKeys[leftIndex..][1..] == leftKeys[leftIndex + 1..];
      assert rightIndex < |rightKeys| ==> rightKeys[rightIndex..][1..] == rightKeys[rightIndex + 1..];
      r := VisitField(left, right, leftKey, rightKey, key, path, depth);
    }

    /** The heads of the two lists: a key that only one side has, or a pair to compare. */
    method VisitField(left: Json, right: Json, leftKey: Option<string>, rightKey: Option<string>, key: string,
                      path: string, depth: nat)
        returns (r: Option<Difference>)
      requires Valid() && |path| <= lim.maxPathLength && left.Obj? && right.Obj?
      requires leftKey != None || rightKey != None
      requires key == if rightKey == None || (leftKey != None && Below(leftKey.value, rightKey.value))
                      then leftKey.value else rightKey.value
      requires leftKey == Some(key) <==> key in left.fields
      requires rightKey == Some(key) <==> key in right.fields
      modifies this
      ensures Valid()
      ensures Agrees(printer, lim, r, TraceField(left, right, key, path, depth, lim), old(visitedNodes), visitedNodes)
      ensures r == None ==> leftKey == rightKey == Some(key)
      ensures Stopped(printer, lim, r, left, right, path, depth)
      decreases left, 0
    {
      var next := Pointer(path, key);
      if next == None {
        StopShown(path, PathLength, left, right, depth);
        return Truncate(path, PathLength, left, right);
      }
      if leftKey != rightKey {
        if leftKey != None && rightKey != None { BelowTrichotomy(leftKey.value, rightKey.value); }
        var missing := leftKey == None || (rightKey != None && Below(rightKey.value, leftKey.value));
        return if missing then Report(next.value, MissingKey, Absent, Shown(right.fields[key]))
               else Report(next.value, ExtraKey, Shown(left.fields[key]), Absent);
      }
      r := Visit(left.fields[key], right.fields[key], next.value, depth + 1);
      StoppedBelow(printer, lim, r, left, right, key, path, depth);
    }

    /** `a` and `b` are the keys not yet merged; together they are `keys`. */
    static ghost predicate Pending(left: Json, right: Json, a: seq<string>, b: seq<string>, keys: set<string>) {
      && left.Obj? && right.Obj? && Ascending(a) && Ascending(b)
      && keys == ToSet(a) + ToSet(b)
      && keys <= left.fields.Keys + right.fields.Keys
      && (forall k :: k in keys ==> (k in left.fields <==> k in a) && (k in right.fields <==> k in b))
    }

    static lemma HeadIsLeast(a: seq<string>, k: string)
      requires Ascending(a) && k in a
      ensures k == a[0] || Below(a[0], k)
    {
      var i :| 0 <= i < |a| && a[i] == k;
    }

    static lemma SmallerHeadIsLeast(left: Json, right: Json, a: seq<string>, b: seq<string>, keys: set<string>,
                                    key: string)
      requires Pending(left, right, a, b, keys) && (a != [] || b != [])
      requires key == if b == [] || (a != [] && Below(a[0], b[0])) then a[0] else b[0]
      ensures key in keys && forall k :: k in keys ==> k == key || Below(key, k)
    {
      forall k | k in keys ensures k == key || Below(key, k) {
        if k in a { HeadIsLeast(a, k); }
        if k in b { HeadIsLeast(b, k); }
        if a != [] && b != [] {
          BelowTrichotomy(a[0], b[0]);
          if Below(a[0], b[0]) && Below(b[0], k) { BelowTransitive(a[0], b[0], k); }
          if Below(b[0], a[0]) && Below(a[0], k) { BelowTransitive(b[0], a[0], k); }
        }
      }
      assert key in keys by { assert key in a || key in b; }
    }

    /** The least of all keys can only be the head of a list. */
    static lemma LeastIsHead(a: seq<string>, keys: set<string>, key: string)
      requires Ascending(a) && forall k :: k in a ==> k in keys
      requires forall k :: k in keys ==> k == key || Below(key, k)
      ensures key in a <==> a != [] && a[0] == key
    {
      if key in a {
        HeadIsLeast(a, key);
        assert a[0] in keys;
        BelowTrichotomy(a[0], key);
      }
    }

    /** The smaller head is the least remaining key, and equal heads are removed together. */
    static lemma MergeStep(left: Json, right: Json, a: seq<string>, b: seq<string>, keys: set<string>, key: string)
      requires Pending(left, right, a, b, keys) && (a != [] || b != [])
      requires key == if b == [] || (a != [] && Below(a[0], b[0])) then a[0] else b[0]
      ensures key in keys && key == Least(keys)
      ensures key in left.fields <==> a != [] && a[0] == key
      ensures key in right.fields <==> b != [] && b[0] == key
      ensures a != [] && b != [] && a[0] == b[0] ==> Pending(left, right, a[1..], b[1..], keys - {key})
    {
      SmallerHeadIsLeast(left, right, a, b, keys, key);
      LeastIsHead(a, keys, key);
      LeastIsHead(b, keys, key);
      BelowTrichotomy(key, Least(keys));
      if a != [] && b != [] && a[0] == b[0] { TailsPending(left, right, a, b, keys); }
    }

    static lemma TailsPending(left: Json, right: Json, a: seq<string>, b: seq<string>, keys: set<string>)
      requires Pending(left, right, a, b, keys) && a != [] && b != [] && a[0] == b[0]
      ensures Pending(left, right, a[1..], b[1..], keys - {a[0]})
    {
      assert a == [a[0]] + a[1..] && b == [b[0]] + b[1..];
      assert a[0] !in a[1..] && b[0] !in b[1..] by {
        BelowTrichotomy(a[0], a[0]);
      }
    }
  }

  /** A conclusive report names the kind of the first difference and shows its two sides. */
  ghost predicate Reports(printer: Printer, lim: Limits, actual: Json, expected: Json, d: Difference) {
    var keys := Keys(d.path);
    var kind := if d.kind.Some? then d.kind.value else NotJson;
    && (d.kind.Some? <==> d.reason == None) && d.kind != Some(NotJson)
    && KindFits(kind, Walk(actual, keys), Walk(expected, keys)) && FirstAt(actual, expected, keys)
    && Describes(printer, lim.maxPreviewLength, SeenAt(kind, Walk(actual, keys)), d.actualPreview)
    && Describes(printer, lim.maxPreviewLength, SeenAt(kind, Walk(expected, keys)), d.expectedPreview)
  }

  /** What a comparison asks of the limits: whether every visited position is shallow enough, and has paths
      short enough, whether both inputs are JSON, and how many visits there are. */
  datatype Demand = Demand(shallow: bool, short: bool, json: bool, visits: nat)

  ghost function DemandOf(actual: Json, expected: Json, lim: Limits): Demand {
    Demand(Within(Depth, actual, expected, "", 0, lim), Within(PathLength, actual, expected, "", 0, lim),
           IsJson(actual) && IsJson(expected), Trace(actual, expected, "", 0, lim).visits)
  }

  /** The result is conclusive exactly within all limits; otherwise it names one that is exceeded. */
  predicate Limited(lim: Limits, demand: Demand, r: Option<Difference>) {
    && (Conclusive(r) <==> demand.shallow && demand.short && demand.visits <= lim.maxVisitedNodes)
    && (r != None && r.value.reason == Some(Depth) ==> !demand.shallow)
    && (r != None && r.value.reason == Some(PathLength) ==> !demand.short)
    && (r != None && r.value.reason == Some(VisitedNodes) ==> demand.visits > lim.maxVisitedNodes)
    && (r != None && r.value.reason == Some(NonJsonValue) ==> !demand.json)
    && (r != None ==> r.value.visitedNodes <= lim.maxVisitedNodes && |r.value.path| <= lim.maxPathLength)
  }

  /** A conclusive result is null exactly on equal JSON, and otherwise reports the first difference. */
  ghost predicate Decides(printer: Printer, lim: Limits, actual: Json, expected: Json, r: Option<Difference>) {
    && (Conclusive(r) ==> (r == None <==> actual == expected && IsJson(actual)))
    && (Conclusive(r) && r != None ==>
          && Reports(printer, lim, actual, expected, r.value)
          && r.value.visitedNodes == Trace(actual, expected, "", 0, lim).visits)
    && (Conclusive(r) && IsJson(actual) && IsJson(expected) ==> r == None || !r.value.Truncated())
    && (actual == expected && r != None ==> r.value.Truncated())
  }

  /** What the bounded result means for the compared values. */
  ghost predicate Answers(printer: Printer, lim: Limits, actual: Json, expected: Json, r: Option<Difference>) {
    && Limited(lim, DemandOf(actual, expected, lim), r)
    && Decides(printer, lim, actual, expected, r)
    && Stopped(printer, lim, r, actual, expected, "", 0)
  }

  lemma ConclusiveReports(printer: Printer, lim: Limits, actual: Json, expected: Json, r: Difference, visited: nat)
    requires WellTyped(actual) && WellTyped(expected) && lim.maxPreviewLength >= 8
    requires Some(r) == ReportOf(printer, lim, Trace(actual, expected, "", 0, lim).finding, visited)
    ensures Reports(printer, lim, actual, expected, r)
    ensures r.reason == Some(NonJsonValue) ==> !IsJson(actual) || !IsJson(expected)
  {
    var f := Trace(actual, expected, "", 0, lim).finding.value;
    FindingExplained(actual, expected, lim);
    PreviewDescribes(printer, lim.maxPreviewLength, f.left);
    PreviewDescribes(printer, lim.maxPreviewLength, f.right);
    if IsJson(actual) && IsJson(expected) { JsonFindsJson(actual, expected, "", 0, lim); }
  }

  lemma RunDemands(actual: Json, expected: Json, lim: Limits, run: Run)
    requires WellTyped(actual) && WellTyped(expected) && run == Trace(actual, expected, "", 0, lim)
    ensures DemandOf(actual, expected, lim)
            == Demand(run.shallow, run.short, IsJson(actual) && IsJson(expected), run.visits)
  {
    RunFits(Depth, actual, expected, "", 0, lim);
    RunFits(PathLength, actual, expected, "", 0, lim);
  }

  lemma LimitsFollow(printer: Printer, lim: Limits, r: Option<Difference>, run: Run, after: nat, json: bool)
    requires lim.maxPreviewLength >= 8 && Agrees(printer, lim, r, run, 0, after)
    requires r != None && r.value.reason == Some(NonJsonValue) ==> !json
    ensures Limited(lim, Demand(run.shallow, run.short, json, run.visits), r)
  {
  }

  lemma AgreementDecides(printer: Printer, lim: Limits, actual: Json, expected: Json, r: Option<Difference>, after: nat)
    requires WellTyped(actual) && WellTyped(expected) && lim.maxPreviewLength >= 8
    requires Agrees(printer, lim, r, Trace(actual, expected, "", 0, lim), 0, after)
    requires Conclusive(r) && r != None ==> Reports(printer, lim, actual, expected, r.value)
    requires r != None && r.value.reason == Some(NonJsonValue) ==> !IsJson(actual) || !IsJson(expected)
    ensures Decides(printer, lim, actual, expected, r)
  {
    TraceDecidesEquality(actual, expected, "", 0, lim);
    EqualInputsClaimNothing(actual, "", 0, lim);
  }

  lemma AgreementAnswers(printer: Printer, lim: Limits, actual: Json, expected: Json, r: Option<Difference>, after: nat)
    requires WellTyped(actual) && WellTyped(expected) && lim.maxPreviewLength >= 8
    requires Agrees(printer, lim, r, Trace(actual, expected, "", 0, lim), 0, after)
    requires Stopped(printer, lim, r, actual, expected, "", 0)
    ensures Answers(printer, lim, actual, expected, r)
  {
    var run := Trace(actual, expected, "", 0, lim);
    if Conclusive(r) && r != None { ConclusiveReports(printer, lim, actual, expected, r.value, after); }
    RunDemands(actual, expected, lim, run);
    LimitsFollow(printer, lim, r, run, after, IsJson(actual) && IsJson(expected));
    AgreementDecides(printer, lim, actual, expected, r, after);
  }

  /** The first difference within the limits the caller asked for. */
  method BoundedParityDifference(actual: Json, expected: Json, options: Options, printer: Printer)
      returns (r: Option<Difference>)
    requires WellTyped(actual) && WellTyped(expected)
    ensures Answers(printer, LimitsOf(options), actual, expected, r)
  {
    var lim := LimitsOf(options);
    var comparison := new Comparison(lim, printer);
    r := comparison.Visit(actual, expected, "", 0);
    AgreementAnswers(printer, lim, actual, expected, r, comparison.visitedNodes);
  }
}
