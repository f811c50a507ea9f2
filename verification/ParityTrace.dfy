/** The limits, findings and previews of `boundedParityDifference`
    (scripts/scheduling-profile/parity.ts), and the unbounded traversal that it cuts short. */
module ParityTrace {
  import opened Ordering
  import opened JsonPointer
  import opened Wrappers

  // ----- limits -----

  datatype Options = Options(
    maxDepth: Option<int>, maxVisitedNodes: Option<int>, maxPathLength: Option<int>, maxPreviewLength: Option<int>)

  datatype Limits = Limits(maxDepth: nat, maxVisitedNodes: nat, maxPathLength: nat, maxPreviewLength: nat)

  const MAX_SAFE_INTEGER := 0x1F_FFFF_FFFF_FFFF

  /** A request that JavaScript can represent exactly and that reaches the minimum. */
  predicate Usable(requested: Option<int>, minimum: nat) {
    requested.Some? && minimum <= requested.value <= MAX_SAFE_INTEGER
  }

  /** A usable request is capped at the ceiling; anything else falls back to the ceiling. */
  function Limit(requested: Option<int>, ceiling: nat, minimum: nat): (r: nat)
    requires minimum <= ceiling
    ensures minimum <= r <= ceiling
    ensures Usable(requested, minimum) ==> r <= requested.value && (r == requested.value || r == ceiling)
    ensures !Usable(requested, minimum) ==> r == ceiling
  {
    match requested
    case None => ceiling
    case Some(n) => if minimum <= n <= MAX_SAFE_INTEGER then if n < ceiling then n else ceiling else ceiling
  }

  function LimitsOf(options: Options): Limits {
    Limits(Limit(options.maxDepth, 64, 0), Limit(options.maxVisitedNodes, 200_000, 1),
           Limit(options.maxPathLength, 512, 0), Limit(options.maxPreviewLength, 160, 8))
  }

  /** Without usable requests: 64 levels, 200000 nodes, paths of 512 and previews of 160 characters. */
  lemma DefaultLimits(options: Options)
    requires !Usable(options.maxDepth, 0) && !Usable(options.maxVisitedNodes, 1)
    requires !Usable(options.maxPathLength, 0) && !Usable(options.maxPreviewLength, 8)
    ensures LimitsOf(options) == Limits(64, 200_000, 512, 160)
  {
  }

  // ----- findings -----

  datatype DiffKind = TypeDiffers | ScalarDiffers | ArrayLength | MissingKey | ExtraKey | NotJson

  /** One side of a finding. */
  datatype Seen = Shown(value: Json) | Absent

  datatype Finding = Finding(path: string, kind: DiffKind, left: Seen, right: Seen)

  datatype Reason = Depth | VisitedNodes | PathLength | NonJsonValue

  datatype Difference = Difference(
    path: string, kind: Option<DiffKind>, actualPreview: string, expectedPreview: string,
    reason: Option<Reason>, visitedNodes: nat)
  {
    /** The reported `truncated` flag. */
    predicate Truncated() { reason.Some? }
  }

  function KindOf(value: Json): string {
    match value
    case Null => "null"
    case Bool(_) => "boolean"
    case Num(_) => "number"
    case Str(_) => "string"
    case Arr(_) => "array"
    case Obj(_) => "object"
    case Opaque(name) => name
  }

  /** `typeof` of a value outside JSON. */
  predicate ForeignType(name: string) {
    name in {"undefined", "function", "symbol", "bigint"}
  }

  predicate WellTyped(value: Json) {
    match value
    case Opaque(name) => ForeignType(name)
    case Arr(items) => forall i :: 0 <= i < |items| ==> WellTyped(items[i])
    case Obj(fields) => forall key :: key in fields ==> WellTyped(fields[key])
    case _ => true
  }

  // ----- previews -----

  /** `JSON.stringify` of a string and `String` of a number or boolean. */
  datatype Printer = Printer(quote: string -> string, scalar: Json -> string)

  function Clip(text: string, max: nat): (r: string)
    requires max >= 1
    ensures |r| <= max
  {
    if |text| <= max then text else text[..max - 1] + "…"
  }

  function Preview(printer: Printer, max: nat, seen: Seen): string
    requires max >= 8
  {
    match seen
    case Absent => "[missing]"
    case Shown(value) =>
      match value
      case Str(s) =>
        var prefix := if |s| <= max then s else s[..max];
        Clip(printer.quote(prefix) + if |prefix| < |s| then "…" else "", max)
      case Null => "null"
      case Arr(items) => Clip("[array length=" + Decimal(|items|) + "]", max)
      case Obj(_) => "[object]"
      case Opaque(name) => Clip("[" + name + "]", max)
      case _ => Clip(printer.scalar(value), max)
  }

  /** Previews respect their limit, except that the missing-side marker is one longer than the
      smallest limit a caller can ask for. */
  lemma PreviewBounded(printer: Printer, max: nat, seen: Seen)
    requires max >= 8
    ensures |Preview(printer, max, seen)| <= max <==> !(seen.Absent? && max == 8)
  {
    assert |"[missing]"| == 9;
  }

  // ----- the unbounded traversal -----

  /** What an unbounded traversal finds, how many nodes it visits, and whether every depth, and
      every path, that it touches is within its limit. */
  datatype Run = Run(finding: Option<Finding>, visits: nat, shallow: bool, short: bool)
  {
    predicate Fits() { shallow && short }
  }

  lemma {:induction false} LeastExists(keys: set<string>)
    requires keys != {}
    ensures exists k :: IsLeast(keys, k)
    decreases |keys|
  {
    var x :| x in keys;
    BelowTrichotomy(x, x);
    var rest := keys - {x};
    if rest == {} {
      assert keys == {x} && IsLeast(keys, x);
    } else {
      LeastExists(rest);
      var k :| IsLeast(rest, k);
      if Below(x, k) {
        forall j | j in rest ensures !Below(j, x) {
          if Below(j, x) { BelowTransitive(j, x, k); }
        }
        assert IsLeast(keys, x);
      } else {
        assert IsLeast(keys, k);
      }
    }
  }

  ghost predicate IsLeast(keys: set<string>, k: string) {
    k in keys && forall j :: j in keys ==> !Below(j, k)
  }

  ghost function Least(keys: set<string>): (k: string)
    requires keys != {}
    ensures IsLeast(keys, k)
  {
    LeastExists(keys);
    var k :| IsLeast(keys, k);
    k
  }

  function Child(path: string, key: string): string {
    path + "/" + Escape(key)
  }

  ghost predicate EnumerationFits(fields: map<string, Json>, path: string, lim: Limits) {
    forall key :: key in fields ==> |key| + |path| + 1 <= lim.maxPathLength
  }

  /** `visits` nodes before `rest`, with a depth and a path that are within their limits or not. */
  function After(visits: nat, shallow: bool, short: bool, rest: Run): Run {
    Run(rest.finding, visits + rest.visits, shallow && rest.shallow, short && rest.short)
  }

  function Found(path: string, kind: DiffKind, left: Seen, right: Seen): Run {
    Run(Some(Finding(path, kind, left, right)), 0, true, true)
  }

  const NOTHING := Run(None, 0, true, true)

  predicate IsScalar(value: Json) {
    value.Null? || value.Str? || value.Bool? || value.Num?
  }

  /** The traversal of two values. */
  ghost function Trace(left: Json, right: Json, path: string, depth: nat, lim: Limits): Run
    decreases left, 3
  {
    After(1, depth <= lim.maxDepth, true, TraceNode(left, right, path, depth, lim))
  }

  ghost function TraceNode(left: Json, right: Json, path: string, depth: nat, lim: Limits): Run
    decreases left, 2
  {
    if KindOf(left) != KindOf(right) then Found(path, TypeDiffers, Shown(left), Shown(right))
    else if left.Arr? && right.Arr? then
      if |left.items| != |right.items| then Found(path, ArrayLength, Length(left), Length(right))
      else TraceItems(left, right, 0, path, depth, lim)
    else if left.Obj? && right.Obj? then
      After(|left.fields| + |right.fields|, true,
            EnumerationFits(left.fields, path, lim) && EnumerationFits(right.fields, path, lim),
            TraceFields(left, right, left.fields.Keys + right.fields.Keys, path, depth, lim))
    else if IsScalar(left) then
      if left == right then NOTHING else Found(path, ScalarDiffers, Shown(left), Shown(right))
    else Found(path, NotJson, Shown(left), Shown(right))
  }

  function Length(value: Json): Seen
    requires value.Arr?
  {
    Shown(Num(Finite(|value.items| as real)))
  }

  ghost function TraceItems(left: Json, right: Json, i: nat, path: string, depth: nat, lim: Limits): Run
    requires left.Arr? && right.Arr? && |left.items| == |right.items| && i <= |left.items|
    decreases left, 1, |left.items| - i
  {
    if i == |left.items| then NOTHING
    else
      var next := Child(path, Decimal(i));
      var first := After(0, true, |next| <= lim.maxPathLength, Trace(left.items[i], right.items[i], next, depth + 1, lim));
      if first.finding.Some? then first
      else After(first.visits, first.shallow, first.short, TraceItems(left, right, i + 1, path, depth, lim))
  }

  /** One key of either object. */
  ghost function TraceField(left: Json, right: Json, key: string, path: string, depth: nat, lim: Limits): Run
    requires left.Obj? && right.Obj? && key in left.fields.Keys + right.fields.Keys
    decreases left, 0
  {
    var next := Child(path, key);
    After(0, true, |next| <= lim.maxPathLength,
          if key !in left.fields then Found(next, MissingKey, Absent, Shown(right.fields[key]))
          else if key !in right.fields then Found(next, ExtraKey, Shown(left.fields[key]), Absent)
          else Trace(left.fields[key], right.fields[key], next, depth + 1, lim))
  }

  /** The fields in ascending key order; `keys` are still to be compared. */
  ghost function TraceFields(left: Json, right: Json, keys: set<string>, path: string, depth: nat, lim: Limits): Run
    requires left.Obj? && right.Obj? && keys <= left.fields.Keys + right.fields.Keys
    decreases left, 1, |keys|
  {
    if keys == {} then NOTHING
    else
      var key := Least(keys);
      var first := TraceField(left, right, key, path, depth, lim);
      if first.finding.Some? then first
      else After(first.visits, first.shallow, first.short, TraceFields(left, right, keys - {key}, path, depth, lim))
  }

  // ----- the traversal decides structural equality -----

  ghost predicate IsJson(value: Json) {
    match value
    case Opaque(_) => false
    case Arr(items) => forall i :: 0 <= i < |items| ==> IsJson(items[i])
    case Obj(fields) => forall key :: key in fields ==> IsJson(fields[key])
    case _ => true
  }

  /** Nothing is found exactly when the values are equal JSON. */
  lemma {:induction false} TraceDecidesEquality(left: Json, right: Json, path: string, depth: nat, lim: Limits)
    requires WellTyped(left) && WellTyped(right)
    ensures Trace(left, right, path, depth, lim).finding == None <==> left == right && IsJson(left)
    decreases left, 3
  {
    match (left, right) {
      case (Arr(a), Arr(b)) =>
        if |a| == |b| { ItemsDecideEquality(left, right, 0, path, depth, lim); }
      case (Obj(a), Obj(b)) =>
        FieldsDecideEquality(left, right, a.Keys + b.Keys, path, depth, lim);
        FieldsEqual(a, b);
      case _ =>
    }
  }

  lemma FieldsEqual(a: map<string, Json>, b: map<string, Json>)
    ensures (forall k :: k in a.Keys + b.Keys ==> k in a && k in b && a[k] == b[k] && IsJson(a[k]))
            <==> a == b && forall k :: k in a ==> IsJson(a[k])
  {
    if forall k :: k in a.Keys + b.Keys ==> k in a && k in b && a[k] == b[k] && IsJson(a[k]) {
      assert forall k :: k in a ==> k in a.Keys + b.Keys;
      assert forall k :: k in b ==> k in a.Keys + b.Keys;
      assert a == b;
    }
  }

  lemma {:induction false} ItemsDecideEquality(left: Json, right: Json, i: nat, path: string, depth: nat, lim: Limits)
    requires left.Arr? && right.Arr? && |left.items| == |right.items| && i <= |left.items|
    requires WellTyped(left) && WellTyped(right)
    ensures TraceItems(left, right, i, path, depth, lim).finding == None <==> ItemsEqualFrom(left.items, right.items, i)
    decreases left, 1, |left.items| - i
  {
    if i < |left.items| {
      TraceDecidesEquality(left.items[i], right.items[i], Child(path, Decimal(i)), depth + 1, lim);
      ItemsDecideEquality(left, right, i + 1, path, depth, lim);
      NextItemEqual(left.items, right.items, i);
    }
  }

  ghost predicate ItemsEqualFrom(left: seq<Json>, right: seq<Json>, i: nat)
    requires |left| == |right|
  {
    forall j :: i <= j < |left| ==> left[j] == right[j] && IsJson(left[j])
  }

  lemma NextItemEqual(left: seq<Json>, right: seq<Json>, i: nat)
    requires |left| == |right| && i < |left|
    ensures ItemsEqualFrom(left, right, i)
            <==> left[i] == right[i] && IsJson(left[i]) && ItemsEqualFrom(left, right, i + 1)
  {
    if left[i] == right[i] && IsJson(left[i]) && ItemsEqualFrom(left, right, i + 1) {
      forall j | i <= j < |left| ensures left[j] == right[j] && IsJson(left[j]) { }
    }
  }

  lemma {:induction false} FieldsDecideEquality(left: Json, right: Json, keys: set<string>, path: string, depth: nat,
        lim: Limits)
    requires left.Obj? && right.Obj? && keys <= left.fields.Keys + right.fields.Keys
    requires WellTyped(left) && WellTyped(right)
    ensures TraceFields(left, right, keys, path, depth, lim).finding == None
            <==> forall k :: k in keys ==> k in left.fields && k in right.fields
                                           && left.fields[k] == right.fields[k] && IsJson(left.fields[k])
    decreases left, 1, |keys|
  {
    if keys != {} {
      var key := Least(keys);
      if key in left.fields && key in right.fields {
        TraceDecidesEquality(left.fields[key], right.fields[key], Child(path, key), depth + 1, lim);
        FieldsDecideEquality(left, right, keys - {key}, path, depth, lim);
        assert forall k :: k in keys <==> k == key || k in keys - {key};
      }
    }
  }

  /** Equal inputs never yield a claimed difference, whatever they contain. */
  lemma {:induction false} EqualInputsClaimNothing(value: Json, path: string, depth: nat, lim: Limits)
    ensures var f := Trace(value, value, path, depth, lim).finding; f == None || f.value.kind == NotJson
    decreases value, 3
  {
    match value
    case Arr(items) => EqualItems(value, 0, path, depth, lim);
    case Obj(fields) => EqualFields(value, fields.Keys + fields.Keys, path, depth, lim);
    case _ =>
  }

  lemma {:induction false} EqualItems(value: Json, i: nat, path: string, depth: nat, lim: Limits)
    requires value.Arr? && i <= |value.items|
    ensures var f := TraceItems(value, value, i, path, depth, lim).finding; f == None || f.value.kind == NotJson
    decreases value, 1, |value.items| - i
  {
    if i < |value.items| {
      EqualInputsClaimNothing(value.items[i], Child(path, Decimal(i)), depth + 1, lim);
      EqualItems(value, i + 1, path, depth, lim);
    }
  }

  lemma {:induction false} EqualFields(value: Json, keys: set<string>, path: string, depth: nat, lim: Limits)
    requires value.Obj? && keys <= value.fields.Keys + value.fields.Keys
    ensures var f := TraceFields(value, value, keys, path, depth, lim).finding; f == None || f.value.kind == NotJson
    decreases value, 1, |keys|
  {
    if keys != {} {
      var key := Least(keys);
      EqualInputsClaimNothing(value.fields[key], Child(path, key), depth + 1, lim);
      EqualFields(value, keys - {key}, path, depth, lim);
    }
  }

  /** JSON values never yield a finding outside JSON. */
  lemma {:induction false} JsonFindsJson(left: Json, right: Json, path: string, depth: nat, lim: Limits)
    requires IsJson(left) && IsJson(right)
    ensures var f := Trace(left, right, path, depth, lim).finding; f == None || f.value.kind != NotJson
    decreases left, 3
  {
    if left.Arr? && right.Arr? && |left.items| == |right.items| {
      JsonItems(left, right, 0, path, depth, lim);
    } else if left.Obj? && right.Obj? {
      JsonFields(left, right, left.fields.Keys + right.fields.Keys, path, depth, lim);
    }
  }

  lemma {:induction false} JsonItems(left: Json, right: Json, i: nat, path: string, depth: nat, lim: Limits)
    requires left.Arr? && right.Arr? && |left.items| == |right.items| && i <= |left.items| && IsJson(left)
             && IsJson(right)
    ensures var f := TraceItems(left, right, i, path, depth, lim).finding; f == None || f.value.kind != NotJson
    decreases left, 1, |left.items| - i
  {
    if i < |left.items| {
      JsonFindsJson(left.items[i], right.items[i], Child(path, Decimal(i)), depth + 1, lim);
      JsonItems(left, right, i + 1, path, depth, lim);
    }
  }

  lemma {:induction false} JsonFields(left: Json, right: Json, keys: set<string>, path: string, depth: nat, lim: Limits)
    requires left.Obj? && right.Obj? && keys <= left.fields.Keys + right.fields.Keys && IsJson(left) && IsJson(right)
    ensures var f := TraceFields(left, right, keys, path, depth, lim).finding; f == None || f.value.kind != NotJson
    decreases left, 1, |keys|
  {
    if keys != {} {
      var key := Least(keys);
      if key in left.fields && key in right.fields {
        JsonFindsJson(left.fields[key], right.fields[key], Child(path, key), depth + 1, lim);
      }
      JsonFields(left, right, keys - {key}, path, depth, lim);
    }
  }

  // ----- a finding's path names what it shows -----

  /** Following `keys` from `root` reaches what a finding shows on that side. */
  ghost predicate Reaches(root: Json, keys: seq<string>, kind: DiffKind, seen: Seen) {
    match seen
    case Absent => Walk(root, keys) == None
    case Shown(value) =>
      if kind == ArrayLength then Walk(root, keys).Some? && Walk(root, keys).value.Arr? && Length(Walk(root, keys).value) == seen
      else Walk(root, keys) == Some(value)
  }

  ghost predicate Names(f: Finding, left: Json, right: Json, prefix: seq<string>, keys: seq<string>) {
    f.path == Print(prefix + keys) && Reaches(left, keys, f.kind, f.left) && Reaches(right, keys, f.kind, f.right)
  }

  lemma {:induction false} WalkFromChild(root: Json, key: string, keys: seq<string>)
    requires Member(root, key).Some?
    ensures Walk(root, [key] + keys) == Walk(Member(root, key).value, keys)
  {
    if keys == [] {
      assert ([key] + keys)[..0] == [];
    } else {
      var n := |keys| - 1;
      assert ([key] + keys)[..n + 1] == [key] + keys[..n];
      WalkFromChild(root, key, keys[..n]);
    }
  }

  lemma PrintChild(prefix: seq<string>, key: string)
    ensures Print(prefix + [key]) == Child(Print(prefix), key)
  {
    assert (prefix + [key])[..|prefix|] == prefix;
  }

  lemma NamesLift(f: Finding, left: Json, right: Json, prefix: seq<string>, key: string, keys: seq<string>)
    requires Member(left, key).Some? && Member(right, key).Some?
    requires Names(f, Member(left, key).value, Member(right, key).value, prefix + [key], keys)
    ensures Names(f, left, right, prefix, [key] + keys)
  {
    assert prefix + ([key] + keys) == prefix + [key] + keys;
    WalkFromChild(left, key, keys);
    WalkFromChild(right, key, keys);
  }

  /** The pointer of every finding leads, on each side, to exactly the value it shows. */
  lemma {:induction false} FindingNames(left: Json, right: Json, prefix: seq<string>, depth: nat, lim: Limits)
      returns (keys: seq<string>)
    requires Trace(left, right, Print(prefix), depth, lim).finding.Some?
    ensures Names(Trace(left, right, Print(prefix), depth, lim).finding.value, left, right, prefix, keys)
    decreases left, 3
  {
    if left.Arr? && right.Arr? && |left.items| == |right.items| {
      keys := ItemFindingNames(left, right, 0, prefix, depth, lim);
    } else if left.Obj? && right.Obj? {
      keys := FieldFindingNames(left, right, left.fields.Keys + right.fields.Keys, prefix, depth, lim);
    } else {
      keys := [];
      assert prefix + [] == prefix;
    }
  }

  lemma {:induction false} ItemFindingNames(left: Json, right: Json, i: nat, prefix: seq<string>, depth: nat,
                                            lim: Limits)
      returns (keys: seq<string>)
    requires left.Arr? && right.Arr? && |left.items| == |right.items| && i <= |left.items|
    requires TraceItems(left, right, i, Print(prefix), depth, lim).finding.Some?
    ensures Names(TraceItems(left, right, i, Print(prefix), depth, lim).finding.value, left, right, prefix, keys)
    decreases left, 1, |left.items| - i
  {
    var key := Decimal(i);
    PrintChild(prefix, key);
    MemberAtIndex(left.items, i);
    MemberAtIndex(right.items, i);
    var first := Trace(left.items[i], right.items[i], Child(Print(prefix), key), depth + 1, lim);
    if first.finding.Some? {
      var more := FindingNames(left.items[i], right.items[i], prefix + [key], depth + 1, lim);
      NamesLift(first.finding.value, left, right, prefix, key, more);
      keys := [key] + more;
    } else {
      keys := ItemFindingNames(left, right, i + 1, prefix, depth, lim);
    }
  }

  lemma {:induction false} FieldFindingNames(left: Json, right: Json, pending: set<string>, prefix: seq<string>,
        depth: nat, lim: Limits)
      returns (keys: seq<string>)
    requires left.Obj? && right.Obj? && pending <= left.fields.Keys + right.fields.Keys
    requires TraceFields(left, right, pending, Print(prefix), depth, lim).finding.Some?
    ensures Names(TraceFields(left, right, pending, Print(prefix), depth, lim).finding.value, left, right, prefix, keys)
    decreases left, 1, |pending|
  {
    var key := Least(pending);
    if TraceField(left, right, key, Print(prefix), depth, lim).finding == None {
      keys := FieldFindingNames(left, right, pending - {key}, prefix, depth, lim);
    } else {
      keys := OneFieldFindingNames(left, right, key, prefix, depth, lim);
    }
  }

  lemma {:induction false} OneFieldFindingNames(left: Json, right: Json, key: string, prefix: seq<string>,
        depth: nat, lim: Limits)
      returns (keys: seq<string>)
    requires left.Obj? && right.Obj? && key in left.fields.Keys + right.fields.Keys
    requires TraceField(left, right, key, Print(prefix), depth, lim).finding.Some?
    ensures Names(TraceField(left, right, key, Print(prefix), depth, lim).finding.value, left, right, prefix, keys)
    decreases left, 0
  {
    PrintChild(prefix, key);
    if key in left.fields && key in right.fields {
      var more := FindingNames(left.fields[key], right.fields[key], prefix + [key], depth + 1, lim);
      NamesLift(TraceField(left, right, key, Print(prefix), depth, lim).finding.value, left, right, prefix, key, more);
      keys := [key] + more;
    } else {
      keys := [key];
      assert [key][..0] == [];
    }
  }

  /** What the reader of a report sees: decoding and walking its path reaches both shown values. */
  lemma ReportedPathReachesValues(actual: Json, expected: Json, lim: Limits)
    requires Trace(actual, expected, "", 0, lim).finding.Some?
    ensures var f := Trace(actual, expected, "", 0, lim).finding.value;
            Reaches(actual, Keys(f.path), f.kind, f.left) && Reaches(expected, Keys(f.path), f.kind, f.right)
  {
    var keys := FindingNames(actual, expected, [], 0, lim);
    assert [] + keys == keys;
    RoundTrip(keys);
  }
}
