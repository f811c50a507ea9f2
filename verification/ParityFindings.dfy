/** What the first difference of two values means (`boundedParityDifference` in
    scripts/scheduling-profile/parity.ts), told by walking its path in both of them. */
module ParityFindings {
  import opened JsonPointer
  import opened Ordering
  import opened ParityTrace
  import opened Wrappers

  // ----- what a kind says -----

  /** The values have one `typeof`, where null and arrays count as types of their own. */
  predicate SameType(l: Json, r: Json) {
    match (l, r)
    case (Null, Null) => true
    case (Bool(_), Bool(_)) => true
    case (Num(_), Num(_)) => true
    case (Str(_), Str(_)) => true
    case (Arr(_), Arr(_)) => true
    case (Obj(_), Obj(_)) => true
    case (Opaque(a), Opaque(b)) => a == b
    case _ => false
  }

  /** What each kind of finding says of the two values at its path. */
  predicate KindFits(kind: DiffKind, l: Option<Json>, r: Option<Json>) {
    match kind
    case MissingKey => l == None && r.Some?
    case ExtraKey => l.Some? && r == None
    case TypeDiffers => l.Some? && r.Some? && !SameType(l.value, r.value)
    case ArrayLength => l.Some? && r.Some? && l.value.Arr? && r.value.Arr? && |l.value.items| != |r.value.items|
    case ScalarDiffers =>
      && l.Some? && r.Some? && SameType(l.value, r.value) && l != r
      && (l.value.Bool? || l.value.Num? || l.value.Str?)
    case NotJson => l.Some? && r.Some? && l.value.Opaque? && l == r
  }

  /** So the values at the path leave only one kind. */
  lemma OneKind(a: DiffKind, b: DiffKind, l: Option<Json>, r: Option<Json>)
    requires KindFits(a, l, r) && KindFits(b, l, r)
    ensures a == b
  {
  }

  lemma KindOfIsType(l: Json, r: Json)
    requires WellTyped(l) && WellTyped(r)
    ensures KindOf(l) == KindOf(r) <==> SameType(l, r)
  {
  }

  /** What a finding shows of the value at its path. */
  function SeenAt(kind: DiffKind, walked: Option<Json>): Seen {
    match walked
    case None => Absent
    case Some(value) =>
      if kind == ArrayLength && value.Arr? then Shown(Num(Finite(|value.items| as real))) else Shown(value)
  }

  // ----- what "first" means -----

  /** Both sides have the same JSON value under the key, or neither has it. */
  ghost predicate SameField(left: Json, right: Json, key: string) {
    Member(left, key) == Member(right, key) && (Member(left, key).Some? ==> IsJson(Member(left, key).value))
  }

  /** Everything that is compared before `key` agrees: the items at smaller indices of two arrays of
      one length, or the fields whose keys come first in the dictionary. */
  ghost predicate SiblingsAgree(left: Json, right: Json, key: string) {
    || (left.Obj? && right.Obj? && forall k :: Below(k, key) ==> SameField(left, right, k))
    || (left.Arr? && right.Arr? && |left.items| == |right.items|
        && exists i: nat :: i < |left.items| && key == Decimal(i) && ItemsAgree(left.items, right.items, i))
  }

  ghost predicate ItemsAgree(left: seq<Json>, right: seq<Json>, n: nat) {
    n <= |left| && n <= |right| && forall j :: 0 <= j < n ==> left[j] == right[j] && IsJson(left[j])
  }

  /** Along `keys` everything that is compared earlier agrees. */
  ghost predicate FirstAt(left: Json, right: Json, keys: seq<string>)
    decreases |keys|
  {
    keys == [] ||
    (&& SiblingsAgree(left, right, keys[0])
     && (Member(left, keys[0]).Some? && Member(right, keys[0]).Some? ==>
           FirstAt(Member(left, keys[0]).value, Member(right, keys[0]).value, keys[1..])))
  }

  // ----- what a finding tells -----

  ghost predicate Tells(f: Finding, left: Json, right: Json, prefix: seq<string>, keys: seq<string>) {
    && f.path == Print(prefix + keys)
    && KindFits(f.kind, Walk(left, keys), Walk(right, keys))
    && f.left == SeenAt(f.kind, Walk(left, keys)) && f.right == SeenAt(f.kind, Walk(right, keys))
    && FirstAt(left, right, keys)
  }

  lemma TellsLift(f: Finding, left: Json, right: Json, prefix: seq<string>, key: string, keys: seq<string>)
    requires Member(left, key).Some? && Member(right, key).Some? && SiblingsAgree(left, right, key)
    requires Tells(f, Member(left, key).value, Member(right, key).value, prefix + [key], keys)
    ensures Tells(f, left, right, prefix, [key] + keys)
  {
    assert prefix + ([key] + keys) == prefix + [key] + keys;
    WalkFromChild(left, key, keys);
    WalkFromChild(right, key, keys);
    assert ([key] + keys)[1..] == keys;
  }

  lemma TellsHere(f: Finding, left: Json, right: Json, prefix: seq<string>)
    requires f.path == Print(prefix) && KindFits(f.kind, Some(left), Some(right))
    requires f.left == SeenAt(f.kind, Some(left)) && f.right == SeenAt(f.kind, Some(right))
    ensures Tells(f, left, right, prefix, [])
  {
    assert prefix + [] == prefix;
  }

  /** A finding names the kind of difference at its path, and nothing before it differs. */
  lemma {:induction false} FindingTells(left: Json, right: Json, prefix: seq<string>, depth: nat, lim: Limits)
      returns (keys: seq<string>)
    requires WellTyped(left) && WellTyped(right) && Trace(left, right, Print(prefix), depth, lim).finding.Some?
    ensures Tells(Trace(left, right, Print(prefix), depth, lim).finding.value, left, right, prefix, keys)
    decreases left, 3
  {
    KindOfIsType(left, right);
    if left.Arr? && right.Arr? && |left.items| == |right.items| {
      keys := ItemTells(left, right, 0, prefix, depth, lim);
    } else if left.Obj? && right.Obj? {
      keys := FieldsTell(left, right, left.fields.Keys + right.fields.Keys, prefix, depth, lim);
    } else {
      keys := [];
      TellsHere(Trace(left, right, Print(prefix), depth, lim).finding.value, left, right, prefix);
    }
  }

  lemma {:induction false} ItemTells(left: Json, right: Json, i: nat, prefix: seq<string>, depth: nat, lim: Limits)
      returns (keys: seq<string>)
    requires left.Arr? && right.Arr? && |left.items| == |right.items| && WellTyped(left) && WellTyped(right)
    requires ItemsAgree(left.items, right.items, i)
    requires TraceItems(left, right, i, Print(prefix), depth, lim).finding.Some?
    ensures Tells(TraceItems(left, right, i, Print(prefix), depth, lim).finding.value, left, right, prefix, keys)
    decreases left, 1, |left.items| - i
  {
    var key := Decimal(i);
    PrintChild(prefix, key);
    MemberAtIndex(left.items, i);
    MemberAtIndex(right.items, i);
    var first := Trace(left.items[i], right.items[i], Child(Print(prefix), key), depth + 1, lim);
    if first.finding.Some? {
      var more := FindingTells(left.items[i], right.items[i], prefix + [key], depth + 1, lim);
      TellsLift(first.finding.value, left, right, prefix, key, more);
      keys := [key] + more;
    } else {
      TraceDecidesEquality(left.items[i], right.items[i], Child(Print(prefix), key), depth + 1, lim);
      keys := ItemTells(left, right, i + 1, prefix, depth, lim);
    }
  }

  /** Outside `pending` the fields agree. */
  ghost predicate FieldsAgree(left: Json, right: Json, pending: set<string>) {
    forall k :: k !in pending ==> SameField(left, right, k)
  }

  lemma {:induction false} FieldsTell(left: Json, right: Json, pending: set<string>, prefix: seq<string>, depth: nat,
                                      lim: Limits)
      returns (keys: seq<string>)
    requires left.Obj? && right.Obj? && pending <= left.fields.Keys + right.fields.Keys
    requires WellTyped(left) && WellTyped(right) && FieldsAgree(left, right, pending)
    requires TraceFields(left, right, pending, Print(prefix), depth, lim).finding.Some?
    ensures Tells(TraceFields(left, right, pending, Print(prefix), depth, lim).finding.value, left, right, prefix, keys)
    decreases left, 1, |pending|
  {
    var key := Least(pending);
    if TraceField(left, right, key, Print(prefix), depth, lim).finding == None {
      if key in left.fields && key in right.fields {
        TraceDecidesEquality(left.fields[key], right.fields[key], Child(Print(prefix), key), depth + 1, lim);
      }
      keys := FieldsTell(left, right, pending - {key}, prefix, depth, lim);
    } else {
      keys := OneFieldTells(left, right, key, prefix, depth, lim);
    }
  }

  lemma {:induction false} OneFieldTells(left: Json, right: Json, key: string, prefix: seq<string>, depth: nat,
                                         lim: Limits)
      returns (keys: seq<string>)
    requires left.Obj? && right.Obj? && key in left.fields.Keys + right.fields.Keys
    requires WellTyped(left) && WellTyped(right) && SiblingsAgree(left, right, key)
    requires TraceField(left, right, key, Print(prefix), depth, lim).finding.Some?
    ensures Tells(TraceField(left, right, key, Print(prefix), depth, lim).finding.value, left, right, prefix, keys)
    decreases left, 0
  {
    PrintChild(prefix, key);
    if key in left.fields && key in right.fields {
      var more := FindingTells(left.fields[key], right.fields[key], prefix + [key], depth + 1, lim);
      TellsLift(TraceField(left, right, key, Print(prefix), depth, lim).finding.value, left, right, prefix, key, more);
      keys := [key] + more;
    } else {
      keys := [key];
      assert [key][..0] == [];
    }
  }

  /** What the reader of a report can rely on. */
  ghost predicate Explained(actual: Json, expected: Json, f: Finding) {
    var l, r := Walk(actual, Keys(f.path)), Walk(expected, Keys(f.path));
    && KindFits(f.kind, l, r) && f.left == SeenAt(f.kind, l) && f.right == SeenAt(f.kind, r)
    && FirstAt(actual, expected, Keys(f.path))
  }

  lemma FindingExplained(actual: Json, expected: Json, lim: Limits)
    requires WellTyped(actual) && WellTyped(expected) && Trace(actual, expected, "", 0, lim).finding.Some?
    ensures Explained(actual, expected, Trace(actual, expected, "", 0, lim).finding.value)
  {
    var keys := FindingTells(actual, expected, [], 0, lim);
    assert [] + keys == keys;
    RoundTrip(keys);
  }

  lemma KindTells(kind: DiffKind, l: Option<Json>, r: Option<Json>)
    requires KindFits(kind, l, r)
    ensures kind == MissingKey <==> l == None
    ensures kind == ExtraKey <==> r == None
    ensures kind == TypeDiffers <==> l.Some? && r.Some? && !SameType(l.value, r.value)
    ensures kind == ArrayLength
            <==> l.Some? && r.Some? && l.value.Arr? && r.value.Arr? && |l.value.items| != |r.value.items|
    ensures kind == ScalarDiffers
            <==> l.Some? && r.Some? && SameType(l.value, r.value) && l != r
                 && (l.value.Bool? || l.value.Num? || l.value.Str?)
  {
  }

  /** The kind of a finding tells the values at its path, and they tell the kind. */
  lemma KindsAre(actual: Json, expected: Json, lim: Limits)
    requires WellTyped(actual) && WellTyped(expected) && Trace(actual, expected, "", 0, lim).finding.Some?
    ensures var f := Trace(actual, expected, "", 0, lim).finding.value;
            var l, r := Walk(actual, Keys(f.path)), Walk(expected, Keys(f.path));
            && (f.kind == MissingKey <==> l == None)
            && (f.kind == ExtraKey <==> r == None)
            && (f.kind == TypeDiffers <==> l.Some? && r.Some? && !SameType(l.value, r.value))
            && (f.kind == ArrayLength
                <==> l.Some? && r.Some? && l.value.Arr? && r.value.Arr? && |l.value.items| != |r.value.items|)
            && (f.kind == ScalarDiffers
                <==> l.Some? && r.Some? && SameType(l.value, r.value) && l != r
                     && (l.value.Bool? || l.value.Num? || l.value.Str?))
  {
    var f := Trace(actual, expected, "", 0, lim).finding.value;
    FindingExplained(actual, expected, lim);
    KindTells(f.kind, Walk(actual, Keys(f.path)), Walk(expected, Keys(f.path)));
  }

  // ----- what a preview shows -----

  /** The text itself if it fits, and otherwise its beginning and an ellipsis, `max` characters in all. */
  predicate ClippedTo(full: string, max: nat, text: string) {
    if |full| <= max then text == full
    else |text| == max > 0 && text[..max - 1] == full[..max - 1] && text[max - 1] == '…'
  }

  predicate Describes(printer: Printer, max: nat, seen: Seen, text: string) {
    match seen
    case Absent => text == "[missing]"
    case Shown(Null) => text == "null"
    case Shown(Obj(_)) => text == "[object]"
    case Shown(Arr(items)) => ClippedTo("[array length=" + Decimal(|items|) + "]", max, text)
    case Shown(Opaque(name)) => ClippedTo("[" + name + "]", max, text)
    case Shown(Str(s)) =>
      ClippedTo(if |s| <= max then printer.quote(s) else printer.quote(s[..max]) + "…", max, text)
    case Shown(value) => ClippedTo(printer.scalar(value), max, text)
  }

  lemma ClipIsClipped(full: string, max: nat)
    requires max >= 1
    ensures ClippedTo(full, max, Clip(full, max))
  {
  }

  lemma PreviewDescribes(printer: Printer, max: nat, seen: Seen)
    requires max >= 8
    ensures Describes(printer, max, seen, Preview(printer, max, seen))
  {
    match seen {
      case Shown(Str(s)) =>
        var full := if |s| <= max then printer.quote(s) else printer.quote(s[..max]) + "…";
        assert printer.quote(s) + "" == printer.quote(s);
        ClipIsClipped(full, max);
      case _ =>
    }
  }
}
