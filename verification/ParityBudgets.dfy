/** What the comparison of two values needs of its budgets (`boundedParityDifference` in
    scripts/scheduling-profile/parity.ts), told by the positions it visits. */
module ParityBudgets {
  import opened JsonPointer
  import opened Ordering
  import opened ParityFindings
  import opened ParityTrace
  import opened Wrappers

  /** The traversal comes to the values at `keys`: both exist, and everything before them agrees. */
  ghost predicate Visited(left: Json, right: Json, keys: seq<string>) {
    FirstAt(left, right, keys) && Walk(left, keys).Some? && Walk(right, keys).Some?
  }

  lemma VisitedHere(left: Json, right: Json)
    ensures Visited(left, right, [])
  {
  }

  lemma VisitedChild(left: Json, right: Json, key: string, keys: seq<string>)
    requires Member(left, key).Some? && Member(right, key).Some? && SiblingsAgree(left, right, key)
    ensures Visited(left, right, [key] + keys) <==> Visited(Member(left, key).value, Member(right, key).value, keys)
  {
    assert ([key] + keys)[1..] == keys;
    WalkFromChild(left, key, keys);
    WalkFromChild(right, key, keys);
  }

  /** A visited position below a pair is below one of its members. */
  lemma VisitedBelow(left: Json, right: Json, keys: seq<string>)
    requires Visited(left, right, keys) && keys != []
    ensures SiblingsAgree(left, right, keys[0]) && Member(left, keys[0]).Some? && Member(right, keys[0]).Some?
    ensures Visited(Member(left, keys[0]).value, Member(right, keys[0]).value, keys[1..])
  {
    assert keys == [keys[0]] + keys[1..];
    WalkFirst(left, keys);
    WalkFirst(right, keys);
    VisitedChild(left, right, keys[0], keys[1..]);
  }

  lemma {:induction false} WalkFirst(value: Json, keys: seq<string>)
    requires keys != [] && Walk(value, keys).Some?
    ensures Member(value, keys[0]).Some?
  {
    var n := |keys| - 1;
    if n == 0 {
      assert keys[..0] == [];
    } else {
      WalkFirst(value, keys[..n]);
    }
  }

  // ----- depth and path length -----

  /** The pair of values at one visited position respects the limit. For the depth that is the
      number of keys on the way; for the path length, every key that is enumerated and the pointer
      of every member that is compared. */
  ghost predicate NodeFits(reason: Reason, l: Json, r: Json, path: string, depth: nat, lim: Limits) {
    if reason == Depth then depth <= lim.maxDepth
    else
      && (l.Obj? && r.Obj? ==>
            forall key :: key in l.fields.Keys + r.fields.Keys ==> |key| + |path| + 1 <= lim.maxPathLength)
      && (forall key :: SiblingsAgree(l, r, key) && (Member(l, key).Some? || Member(r, key).Some?) ==>
            |path| + 1 + |Escape(key)| <= lim.maxPathLength)
  }

  /** If the position is visited it respects the limit. */
  ghost predicate FitsAt(reason: Reason, l: Json, r: Json, keys: seq<string>, path: string, depth: nat, lim: Limits) {
    Visited(l, r, keys) ==>
      NodeFits(reason, Walk(l, keys).value, Walk(r, keys).value, path + Print(keys), depth + |keys|, lim)
  }

  /** Every visited position below the pair respects the limit. */
  ghost predicate Within(reason: Reason, l: Json, r: Json, path: string, depth: nat, lim: Limits) {
    forall keys :: FitsAt(reason, l, r, keys, path, depth, lim)
  }

  ghost predicate WithinMember(reason: Reason, l: Json, r: Json, key: string, path: string, depth: nat, lim: Limits) {
    Member(l, key).Some? && Member(r, key).Some? && SiblingsAgree(l, r, key) ==>
      Within(reason, Member(l, key).value, Member(r, key).value, Child(path, key), depth + 1, lim)
  }

  lemma {:induction false} PrintFirst(path: string, key: string, keys: seq<string>)
    ensures path + Print([key] + keys) == Child(path, key) + Print(keys)
  {
    if keys == [] {
      assert [key] + keys == [] + [key];
      PrintChild([], key);
      assert path + Child("", key) == Child(path, key) + "";
    } else {
      var n := |keys| - 1;
      var front, last := keys[..n], keys[n];
      assert [key] + keys == ([key] + front) + [last] && keys == front + [last];
      PrintChild([key] + front, last);
      PrintChild(front, last);
      PrintFirst(path, key, front);
      ChildAppend(path, Print([key] + front), last);
      ChildAppend(Child(path, key), Print(front), last);
    }
  }

  lemma ChildAppend(a: string, b: string, key: string)
    ensures a + Child(b, key) == Child(a + b, key)
  {
    assert a + (b + "/" + Escape(key)) == (a + b) + "/" + Escape(key);
  }

  lemma FitsAtFirst(reason: Reason, l: Json, r: Json, key: string, keys: seq<string>, path: string, depth: nat,
                    lim: Limits)
    requires Member(l, key).Some? && Member(r, key).Some? && SiblingsAgree(l, r, key)
    ensures FitsAt(reason, l, r, [key] + keys, path, depth, lim)
            <==> FitsAt(reason, Member(l, key).value, Member(r, key).value, keys, Child(path, key), depth + 1, lim)
  {
    VisitedChild(l, r, key, keys);
    WalkFromChild(l, key, keys);
    WalkFromChild(r, key, keys);
    PrintFirst(path, key, keys);
  }

  lemma MemberWithin(reason: Reason, l: Json, r: Json, key: string, path: string, depth: nat, lim: Limits)
    requires Within(reason, l, r, path, depth, lim)
    ensures WithinMember(reason, l, r, key, path, depth, lim)
  {
    if Member(l, key).Some? && Member(r, key).Some? && SiblingsAgree(l, r, key) {
      var a, b, next, below := Member(l, key).value, Member(r, key).value, Child(path, key), depth + 1;
      forall keys ensures FitsAt(reason, a, b, keys, next, below, lim) {
        FitsAtFirst(reason, l, r, key, keys, path, depth, lim);
        assert FitsAt(reason, l, r, [key] + keys, path, depth, lim);
      }
    }
  }

  lemma FitsHere(reason: Reason, l: Json, r: Json, path: string, depth: nat, lim: Limits)
    ensures FitsAt(reason, l, r, [], path, depth, lim) <==> NodeFits(reason, l, r, path, depth, lim)
  {
    VisitedHere(l, r);
    assert path + "" == path;
  }

  lemma MembersMakeWithin(reason: Reason, l: Json, r: Json, path: string, depth: nat, lim: Limits)
    requires NodeFits(reason, l, r, path, depth, lim)
    requires forall key :: WithinMember(reason, l, r, key, path, depth, lim)
    ensures Within(reason, l, r, path, depth, lim)
  {
    forall keys ensures FitsAt(reason, l, r, keys, path, depth, lim) {
      if keys == [] {
        FitsHere(reason, l, r, path, depth, lim);
      } else {
        MemberMakesFit(reason, l, r, keys, path, depth, lim);
      }
    }
  }

  lemma MemberMakesFit(reason: Reason, l: Json, r: Json, keys: seq<string>, path: string, depth: nat, lim: Limits)
    requires keys != [] && WithinMember(reason, l, r, keys[0], path, depth, lim)
    ensures FitsAt(reason, l, r, keys, path, depth, lim)
  {
    if Visited(l, r, keys) {
      VisitedBelow(l, r, keys);
      assert keys == [keys[0]] + keys[1..];
      FitsAtFirst(reason, l, r, keys[0], keys[1..], path, depth, lim);
    }
  }

  lemma WithinSplits(reason: Reason, l: Json, r: Json, path: string, depth: nat, lim: Limits)
    ensures Within(reason, l, r, path, depth, lim)
            <==> NodeFits(reason, l, r, path, depth, lim)
                 && forall key :: WithinMember(reason, l, r, key, path, depth, lim)
  {
    if Within(reason, l, r, path, depth, lim) {
      FitsHere(reason, l, r, path, depth, lim);
      assert FitsAt(reason, l, r, [], path, depth, lim);
      forall key ensures WithinMember(reason, l, r, key, path, depth, lim) {
        MemberWithin(reason, l, r, key, path, depth, lim);
      }
    }
    if NodeFits(reason, l, r, path, depth, lim) && forall key :: WithinMember(reason, l, r, key, path, depth, lim) {
      MembersMakeWithin(reason, l, r, path, depth, lim);
    }
  }

  // ----- the run fits exactly when every visited position does -----

  /** The run never met the limit. */
  predicate Kept(run: Run, reason: Reason) {
    if reason == Depth then run.shallow else run.short
  }

  /** A member that is compared: its pointer fits, and so does everything below it. */
  ghost predicate MemberFits(reason: Reason, l: Json, r: Json, key: string, path: string, depth: nat, lim: Limits) {
    && (reason != Depth ==> |Child(path, key)| <= lim.maxPathLength)
    && WithinMember(reason, l, r, key, path, depth, lim)
  }

  ghost predicate ItemsFit(reason: Reason, l: Json, r: Json, i: nat, path: string, depth: nat, lim: Limits)
    requires l.Arr? && r.Arr?
  {
    forall j: nat :: i <= j < |l.items| && ItemsAgree(l.items, r.items, j) ==>
      MemberFits(reason, l, r, Decimal(j), path, depth, lim)
  }

  lemma {:induction false} RunFits(reason: Reason, l: Json, r: Json, path: string, depth: nat, lim: Limits)
    requires WellTyped(l) && WellTyped(r)
    ensures Kept(Trace(l, r, path, depth, lim), reason) <==> Within(reason, l, r, path, depth, lim)
    decreases l, 3
  {
    WithinSplits(reason, l, r, path, depth, lim);
    KindOfIsType(l, r);
    if l.Arr? && r.Arr? && |l.items| == |r.items| {
      ItemsRunFits(reason, l, r, 0, path, depth, lim);
      ItemsAreMembers(reason, l, r, path, depth, lim);
    } else if l.Obj? && r.Obj? {
      FieldsRunFits(reason, l, r, l.fields.Keys + r.fields.Keys, path, depth, lim);
      FieldsAreMembers(reason, l, r, path, depth, lim);
    } else {
      assert forall key :: !SiblingsAgree(l, r, key);
    }
  }

  /** For two arrays of one length, the members that are compared are the items up to the first
      that differs. */
  lemma ItemsAreMembers(reason: Reason, l: Json, r: Json, path: string, depth: nat, lim: Limits)
    requires l.Arr? && r.Arr? && |l.items| == |r.items|
    ensures ItemsFit(reason, l, r, 0, path, depth, lim) && (reason == Depth ==> depth <= lim.maxDepth)
            <==> NodeFits(reason, l, r, path, depth, lim)
                 && forall key :: WithinMember(reason, l, r, key, path, depth, lim)
  {
    forall j: nat | j < |l.items| && ItemsAgree(l.items, r.items, j)
      ensures SiblingsAgree(l, r, Decimal(j)) && Member(l, Decimal(j)).Some? && Member(r, Decimal(j)).Some?
    {
      MemberAtIndex(l.items, j);
      MemberAtIndex(r.items, j);
    }
    if ItemsFit(reason, l, r, 0, path, depth, lim) {
      forall key | SiblingsAgree(l, r, key) ensures MemberFits(reason, l, r, key, path, depth, lim) {
        var i: nat :| i < |l.items| && key == Decimal(i) && ItemsAgree(l.items, r.items, i);
      }
    }
  }

  lemma ItemsFitSplits(reason: Reason, l: Json, r: Json, i: nat, path: string, depth: nat, lim: Limits)
    requires l.Arr? && r.Arr? && i < |l.items| == |r.items| && ItemsAgree(l.items, r.items, i)
    ensures ItemsFit(reason, l, r, i, path, depth, lim)
            <==> MemberFits(reason, l, r, Decimal(i), path, depth, lim)
                 && (l.items[i] == r.items[i] && IsJson(l.items[i]) ==> ItemsFit(reason, l, r, i + 1, path, depth, lim))
  {
    var same := l.items[i] == r.items[i] && IsJson(l.items[i]);
    forall j: nat | i < j < |l.items| && ItemsAgree(l.items, r.items, j) ensures same { }
  }

  /** The run over one item. */
  ghost function ItemRun(l: Json, r: Json, i: nat, path: string, depth: nat, lim: Limits): Run
    requires l.Arr? && r.Arr? && i < |l.items| == |r.items|
  {
    var next := Child(path, Decimal(i));
    After(0, true, |next| <= lim.maxPathLength, Trace(l.items[i], r.items[i], next, depth + 1, lim))
  }

  lemma ItemsKept(reason: Reason, l: Json, r: Json, i: nat, path: string, depth: nat, lim: Limits)
    requires l.Arr? && r.Arr? && i < |l.items| == |r.items|
    ensures Kept(TraceItems(l, r, i, path, depth, lim), reason)
            <==> var first := ItemRun(l, r, i, path, depth, lim);
                 Kept(first, reason)
                 && (first.finding == None ==> Kept(TraceItems(l, r, i + 1, path, depth, lim), reason))
  {
  }

  lemma {:induction false} ItemsRunFits(reason: Reason, l: Json, r: Json, i: nat, path: string, depth: nat, lim: Limits)
    requires l.Arr? && r.Arr? && |l.items| == |r.items| && WellTyped(l) && WellTyped(r)
    requires ItemsAgree(l.items, r.items, i)
    ensures Kept(TraceItems(l, r, i, path, depth, lim), reason) <==> ItemsFit(reason, l, r, i, path, depth, lim)
    decreases l, 1, |l.items| - i
  {
    if i < |l.items| {
      ItemsKept(reason, l, r, i, path, depth, lim);
      ItemRunFits(reason, l, r, i, path, depth, lim);
      ItemsFitSplits(reason, l, r, i, path, depth, lim);
      if l.items[i] == r.items[i] && IsJson(l.items[i]) {
        ItemsRunFits(reason, l, r, i + 1, path, depth, lim);
      }
    }
  }

  lemma {:induction false} ItemRunFits(reason: Reason, l: Json, r: Json, i: nat, path: string, depth: nat, lim: Limits)
    requires l.Arr? && r.Arr? && i < |l.items| == |r.items| && WellTyped(l) && WellTyped(r)
    requires ItemsAgree(l.items, r.items, i)
    ensures var first := ItemRun(l, r, i, path, depth, lim);
            && (Kept(first, reason) <==> MemberFits(reason, l, r, Decimal(i), path, depth, lim))
            && (first.finding == None <==> l.items[i] == r.items[i] && IsJson(l.items[i]))
    decreases l, 0
  {
    var next := Child(path, Decimal(i));
    MemberAtIndex(l.items, i);
    MemberAtIndex(r.items, i);
    RunFits(reason, l.items[i], r.items[i], next, depth + 1, lim);
    TraceDecidesEquality(l.items[i], r.items[i], next, depth + 1, lim);
    assert SiblingsAgree(l, r, Decimal(i));
  }

  /** The pending fields that are compared: those before which everything agrees. */
  ghost predicate PendingFit(reason: Reason, l: Json, r: Json, pending: set<string>, path: string, depth: nat,
                             lim: Limits)
    requires l.Obj? && r.Obj?
  {
    forall key :: key in pending && SiblingsAgree(l, r, key) ==> MemberFits(reason, l, r, key, path, depth, lim)
  }

  lemma FieldsAreMembers(reason: Reason, l: Json, r: Json, path: string, depth: nat, lim: Limits)
    requires l.Obj? && r.Obj?
    ensures PendingFit(reason, l, r, l.fields.Keys + r.fields.Keys, path, depth, lim)
            && (reason == Depth ==> depth <= lim.maxDepth)
            && (reason != Depth ==> EnumerationFits(l.fields, path, lim) && EnumerationFits(r.fields, path, lim))
            <==> NodeFits(reason, l, r, path, depth, lim)
                 && forall key :: WithinMember(reason, l, r, key, path, depth, lim)
  {
  }

  lemma {:induction false} FieldsRunFits(reason: Reason, l: Json, r: Json, pending: set<string>, path: string,
                                         depth: nat,
                                         lim: Limits)
    requires l.Obj? && r.Obj? && pending <= l.fields.Keys + r.fields.Keys && WellTyped(l) && WellTyped(r)
    requires FieldsAgree(l, r, pending)
    ensures Kept(TraceFields(l, r, pending, path, depth, lim), reason)
            <==> PendingFit(reason, l, r, pending, path, depth, lim)
    decreases l, 1, |pending|
  {
    if pending != {} {
      var key := Least(pending);
      FieldRunFits(reason, l, r, key, path, depth, lim);
      assert SiblingsAgree(l, r, key);
      if SameField(l, r, key) {
        FieldsRunFits(reason, l, r, pending - {key}, path, depth, lim);
      } else {
        forall other | other in pending && other != key ensures !SiblingsAgree(l, r, other) {
          BelowTrichotomy(key, other);
        }
      }
    }
  }

  lemma {:induction false} FieldRunFits(reason: Reason, l: Json, r: Json, key: string, path: string, depth: nat,
                                        lim: Limits)
    requires l.Obj? && r.Obj? && key in l.fields.Keys + r.fields.Keys && WellTyped(l) && WellTyped(r)
    requires SiblingsAgree(l, r, key)
    ensures Kept(TraceField(l, r, key, path, depth, lim), reason) <==> MemberFits(reason, l, r, key, path, depth, lim)
    ensures TraceField(l, r, key, path, depth, lim).finding == None <==> SameField(l, r, key)
    decreases l, 0
  {
    if key in l.fields && key in r.fields {
      RunFits(reason, l.fields[key], r.fields[key], Child(path, key), depth + 1, lim);
      TraceDecidesEquality(l.fields[key], r.fields[key], Child(path, key), depth + 1, lim);
    }
  }

  // ----- visits -----

  /** The nodes of a value, and its keys twice: each side enumerates them once. */
  ghost function Cost(value: Json): nat
    decreases value, 2
  {
    match value
    case Arr(items) => 1 + ItemsCost(value, |items|)
    case Obj(fields) => 1 + 2 * |fields| + FieldsCost(value, fields.Keys)
    case _ => 1
  }

  ghost function ItemsCost(value: Json, n: nat): nat
    requires value.Arr? && n <= |value.items|
    decreases value, 1, n
  {
    if n == 0 then 0 else ItemsCost(value, n - 1) + Cost(value.items[n - 1])
  }

  ghost function FieldsCost(value: Json, keys: set<string>): nat
    requires value.Obj? && keys <= value.fields.Keys
    decreases value, 1, |keys|
  {
    if keys == {} then 0
    else
      var key :| key in keys;
      Cost(value.fields[key]) + FieldsCost(value, keys - {key})
  }

  lemma {:induction false} FieldsCostSplits(value: Json, keys: set<string>, key: string)
    requires value.Obj? && keys <= value.fields.Keys && key in keys
    ensures FieldsCost(value, keys) == Cost(value.fields[key]) + FieldsCost(value, keys - {key})
    decreases keys
  {
    var other :| other in keys && FieldsCost(value, keys) == Cost(value.fields[other]) + FieldsCost(value, keys - {other});
    if other != key {
      FieldsCostSplits(value, keys - {other}, key);
      FieldsCostSplits(value, keys - {key}, other);
      assert keys - {other} - {key} == keys - {key} - {other};
    }
  }

  /** Comparing a JSON value with itself visits every node once, and every key once on each side. */
  lemma {:induction false} EqualVisits(value: Json, path: string, depth: nat, lim: Limits)
    requires IsJson(value) && WellTyped(value)
    ensures Trace(value, value, path, depth, lim).visits == Cost(value)
    decreases value, 3
  {
    match value
    case Arr(items) => EqualItemVisits(value, 0, path, depth, lim);
    case Obj(fields) =>
      assert fields.Keys + fields.Keys == fields.Keys;
      EqualFieldVisits(value, fields.Keys, path, depth, lim);
    case _ =>
  }

  lemma {:induction false} EqualItemVisits(value: Json, i: nat, path: string, depth: nat, lim: Limits)
    requires value.Arr? && i <= |value.items| && IsJson(value) && WellTyped(value)
    ensures TraceItems(value, value, i, path, depth, lim).visits + ItemsCost(value, i) == ItemsCost(value, |value.items|)
    decreases value, 1, |value.items| - i
  {
    if i < |value.items| {
      var next := Child(path, Decimal(i));
      TraceDecidesEquality(value.items[i], value.items[i], next, depth + 1, lim);
      EqualVisits(value.items[i], next, depth + 1, lim);
      EqualItemVisits(value, i + 1, path, depth, lim);
    }
  }

  lemma {:induction false} EqualFieldVisits(value: Json, keys: set<string>, path: string, depth: nat, lim: Limits)
    requires value.Obj? && keys <= value.fields.Keys && IsJson(value) && WellTyped(value)
    ensures TraceFields(value, value, keys, path, depth, lim).visits == FieldsCost(value, keys)
    decreases value, 1, |keys|
  {
    if keys != {} {
      var key := Least(keys);
      var next := Child(path, key);
      TraceDecidesEquality(value.fields[key], value.fields[key], next, depth + 1, lim);
      EqualVisits(value.fields[key], next, depth + 1, lim);
      FieldsCostSplits(value, keys, key);
      EqualFieldVisits(value, keys - {key}, path, depth, lim);
    }
  }
}
