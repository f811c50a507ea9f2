/** When the identity of an assignment (src/lib/assignment-qualification.ts) is canonical: exactly
    if the key order ties no two kept keys of one object. Otherwise there is a reordering of the
    same assignment with another identity. */
module AssignmentTies {
  import opened AssignmentIdentity
  import opened Ordering
  import opened Wrappers

  // ----- looking fields up -----

  lemma {:induction false} ItemAt(collate: Collation, items: seq<Value>, i: nat)
    requires i < |items|
    ensures NormalizeItems(collate, items)[i] == Normalize(collate, items[i])
    ensures MeaningOfItems(items)[i] == Meaning(items[i])
  {
    if i > 0 { ItemAt(collate, items[1..], i - 1); }
  }

  ghost predicate HoldsField(fields: seq<(string, Value)>, k: string, i: nat) {
    i < |fields| && fields[i].0 == k && !Dropped(fields[i])
  }

  /** A key of the meaning belongs to a kept field, which gives it its value. */
  lemma {:induction false} FieldOfKey(fields: seq<(string, Value)>, k: string) returns (i: nat)
    requires k in MeaningOfFields(fields)
    ensures HoldsField(fields, k, i) && MeaningOfFields(fields)[k] == Meaning(fields[i].1)
  {
    if !Dropped(fields[0]) && fields[0].0 == k {
      i := 0;
    } else {
      i := FieldOfKey(fields[1..], k);
      i := i + 1;
    }
  }

  lemma {:induction false} KeyOfField(fields: seq<(string, Value)>, i: nat)
    requires DistinctKeys(fields) && i < |fields| && !Dropped(fields[i])
    ensures fields[i].0 in MeaningOfFields(fields) && MeaningOfFields(fields)[fields[i].0] == Meaning(fields[i].1)
  {
    if i > 0 { KeyOfField(fields[1..], i - 1); }
  }

  lemma {:induction false} NormalFieldAt(collate: Collation, fields: seq<(string, Value)>, i: nat)
    requires i < |fields| && !Dropped(fields[i])
    ensures NormalizeField(collate, fields[i]) in NormalizeFields(collate, fields)
  {
    var rest := NormalizeFields(collate, fields[1..]);
    if i > 0 {
      NormalFieldAt(collate, fields[1..], i - 1);
      assert fields[1..][i - 1] == fields[i];
    } else {
      assert NormalizeFields(collate, fields) == [NormalizeField(collate, fields[0])] + rest;
    }
  }

  // ----- reordering keeps the meaning -----

  lemma SameFields<T>(s: seq<T>, t: seq<T>, i: nat) returns (j: nat)
    requires multiset(s) == multiset(t) && i < |s|
    ensures j < |t| && t[j] == s[i]
  {
    assert s[i] in multiset(t);
    j :| 0 <= j < |t| && t[j] == s[i];
  }

  lemma KeysCarryOver(s: seq<(string, Value)>, t: seq<(string, Value)>, k: string)
    requires DistinctKeys(t) && multiset(s) == multiset(t) && k in MeaningOfFields(s)
    ensures k in MeaningOfFields(t) && MeaningOfFields(t)[k] == MeaningOfFields(s)[k]
  {
    var i := FieldOfKey(s, k);
    var j := SameFields(s, t, i);
    KeyOfField(t, j);
  }

  /** The order of the fields is not part of the meaning. */
  lemma ReorderedMeaning(s: seq<(string, Value)>, t: seq<(string, Value)>)
    requires DistinctKeys(s) && DistinctKeys(t) && multiset(s) == multiset(t)
    ensures MeaningOfFields(s) == MeaningOfFields(t)
  {
    var a, b := MeaningOfFields(s), MeaningOfFields(t);
    forall k ensures (k in a <==> k in b) && (k in a ==> a[k] == b[k]) {
      if k in a { KeysCarryOver(s, t, k); }
      if k in b { KeysCarryOver(t, s, k); }
    }
  }

  lemma ReorderedProper(s: seq<(string, Value)>, t: seq<(string, Value)>)
    requires Proper(Obj(s)) && multiset(s) == multiset(t)
    ensures Proper(Obj(t))
  {
    PermutedKeysDistinct(s, t);
    forall i | 0 <= i < |t| ensures Proper(t[i].1) {
      var j := SameFields(t, s, i);
    }
  }

  // ----- a tie within one object -----

  /** The fields with those at `p` and `q` in front. */
  function Front(fields: seq<(string, Value)>, p: nat, q: nat): seq<(string, Value)>
    requires p < q < |fields|
  {
    [fields[p], fields[q]] + Without(Without(fields, q), p)
  }

  function SwappedFront(fields: seq<(string, Value)>, p: nat, q: nat): seq<(string, Value)>
    requires p < q < |fields|
  {
    [fields[q], fields[p]] + Without(Without(fields, q), p)
  }

  lemma FrontPermutes(fields: seq<(string, Value)>, p: nat, q: nat)
    requires p < q < |fields|
    ensures multiset(Front(fields, p, q)) == multiset(fields) == multiset(SwappedFront(fields, p, q))
  {
    WithoutOne(fields, q);
    WithoutOne(Without(fields, q), p);
    assert Without(fields, q)[p] == fields[p];
  }

  lemma TwoNormalFields(collate: Collation, f: (string, Value), g: (string, Value), rest: seq<(string, Value)>)
    requires !Dropped(f) && !Dropped(g)
    ensures NormalizeFields(collate, [f, g] + rest)
            == [NormalizeField(collate, f), NormalizeField(collate, g)] + NormalizeFields(collate, rest)
  {
    assert ([f, g] + rest)[1..] == [g] + rest && ([g] + rest)[1..] == rest;
  }

  /** Putting either of two tied fields first gives different normal forms. */
  lemma SwapShows(collate: Collation, f: (string, Value), g: (string, Value), rest: seq<(string, Value)>)
    requires TotalPreorder(collate) && f.0 != g.0 && collate(f.0, g.0) && collate(g.0, f.0) && !Dropped(f)
             && !Dropped(g)
    ensures Normalize(collate, Obj([f, g] + rest)) != Normalize(collate, Obj([g, f] + rest))
  {
    TwoNormalFields(collate, f, g, rest);
    TwoNormalFields(collate, g, f, rest);
    ByKeyIsTotal(collate);
    SortTied(ByKey(collate), NormalizeField(collate, f), NormalizeField(collate, g), NormalizeFields(collate, rest));
  }

  /** `w` is the same assignment in another order, with another normal form. */
  ghost predicate Leaks(collate: Collation, v: Value, w: Value) {
    Proper(w) && w != Undefined && Meaning(w) == Meaning(v) && Normalize(collate, w) != Normalize(collate, v)
  }

  lemma TiedFieldsLeak(collate: Collation, fields: seq<(string, Value)>, p: nat, q: nat) returns (w: Value)
    requires TotalPreorder(collate) && Proper(Obj(fields)) && p < q < |fields|
    requires collate(fields[p].0, fields[q].0) && collate(fields[q].0, fields[p].0)
    requires !Dropped(fields[p]) && !Dropped(fields[q])
    ensures Leaks(collate, Obj(fields), w)
  {
    var s, t := Front(fields, p, q), SwappedFront(fields, p, q);
    FrontPermutes(fields, p, q);
    ReorderedProper(fields, s);
    ReorderedProper(fields, t);
    ReorderedMeaning(fields, s);
    ReorderedMeaning(fields, t);
    SwapShows(collate, fields[p], fields[q], Without(Without(fields, q), p));
    w := if Normalize(collate, Obj(s)) != Normalize(collate, Obj(fields)) then Obj(s) else Obj(t);
  }

  // ----- a tie deeper down -----

  lemma NestedItemLeaks(collate: Collation, items: seq<Value>, i: nat, w: Value)
    requires Proper(Arr(items)) && i < |items| && Leaks(collate, items[i], w)
    ensures Leaks(collate, Arr(items), Arr(items[i := w]))
  {
    var changed := items[i := w];
    forall j | 0 <= j < |items| ensures MeaningOfItems(changed)[j] == MeaningOfItems(items)[j] {
      ItemAt(collate, items, j);
      ItemAt(collate, changed, j);
    }
    assert MeaningOfItems(changed) == MeaningOfItems(items);
    ItemAt(collate, items, i);
    ItemAt(collate, changed, i);
  }

  lemma {:induction false} ReplacedFieldMeans(fields: seq<(string, Value)>, i: nat, w: Value)
    requires i < |fields| && !Dropped(fields[i]) && w != Undefined && Meaning(w) == Meaning(fields[i].1)
    ensures MeaningOfFields(fields[i := (fields[i].0, w)]) == MeaningOfFields(fields)
  {
    var changed := fields[i := (fields[i].0, w)];
    if i == 0 {
      assert changed[1..] == fields[1..];
    } else {
      assert changed[1..] == fields[1..][i - 1 := (fields[i].0, w)];
      ReplacedFieldMeans(fields[1..], i - 1, w);
    }
  }

  /** Lists that sort to the same list give each key the same value. */
  lemma SortedAgree(collate: Collation, s: seq<(string, Normal)>, t: seq<(string, Normal)>, f: (string, Normal),
                    g: (string, Normal))
    requires DistinctKeys(s) && f in s && g in t && f.0 == g.0
    requires SortBy(ByKey(collate), s) == SortBy(ByKey(collate), t)
    ensures f == g
  {
    assert multiset(s) == multiset(t) && g in multiset(t);
    assert g in multiset(s);
    var i :| 0 <= i < |s| && s[i] == f;
    var j :| 0 <= j < |s| && s[j] == g;
  }

  lemma ReplacedProper(fields: seq<(string, Value)>, i: nat, w: Value)
    requires Proper(Obj(fields)) && i < |fields| && Proper(w)
    ensures Proper(Obj(fields[i := (fields[i].0, w)]))
  {
  }

  lemma ReplacedNormal(collate: Collation, fields: seq<(string, Value)>, i: nat, w: Value)
    requires Proper(Obj(fields)) && i < |fields| && !Dropped(fields[i]) && w != Undefined
    requires Normalize(collate, w) != Normalize(collate, fields[i].1)
    ensures Normalize(collate, Obj(fields[i := (fields[i].0, w)])) != Normalize(collate, Obj(fields))
  {
    var changed := fields[i := (fields[i].0, w)];
    NormalFieldAt(collate, fields, i);
    NormalFieldAt(collate, changed, i);
    NormalFields(collate, fields);
    if Normalize(collate, Obj(changed)) == Normalize(collate, Obj(fields)) {
      SortedAgree(collate, NormalizeFields(collate, fields), NormalizeFields(collate, changed),
                  NormalizeField(collate, fields[i]), NormalizeField(collate, changed[i]));
    }
  }

  lemma NestedFieldLeaks(collate: Collation, fields: seq<(string, Value)>, i: nat, w: Value)
    requires Proper(Obj(fields)) && i < |fields| && !Dropped(fields[i]) && Leaks(collate, fields[i].1, w)
    ensures Leaks(collate, Obj(fields), Obj(fields[i := (fields[i].0, w)]))
  {
    ReplacedProper(fields, i, w);
    ReplacedFieldMeans(fields, i, w);
    ReplacedNormal(collate, fields, i, w);
  }

  /** Every tie between kept keys shows: the same assignment in another order gets another
      normal form. */
  lemma {:induction false} TieShows(collate: Collation, v: Value) returns (w: Value)
    requires TotalPreorder(collate) && Proper(v) && !Untied(collate, Meaning(v))
    ensures Leaks(collate, v, w)
    decreases v
  {
    match v {
      case Arr(items) =>
        var i :| 0 <= i < |items| && !Untied(collate, MeaningOfItems(items)[i]);
        ItemAt(collate, items, i);
        w := TieShows(collate, items[i]);
        NestedItemLeaks(collate, items, i, w);
        w := Arr(items[i := w]);
      case Obj(fields) =>
        if KeysUntied(collate, MeaningOfFields(fields).Keys) {
          var k :| k in MeaningOfFields(fields) && !Untied(collate, MeaningOfFields(fields)[k]);
          var i := FieldOfKey(fields, k);
          w := TieShows(collate, fields[i].1);
          NestedFieldLeaks(collate, fields, i, w);
          w := Obj(fields[i := (fields[i].0, w)]);
        } else {
          w := TiedKeysShow(collate, fields);
        }
    }
  }

  lemma TiedKeysShow(collate: Collation, fields: seq<(string, Value)>) returns (w: Value)
    requires TotalPreorder(collate) && Proper(Obj(fields)) && !KeysUntied(collate, MeaningOfFields(fields).Keys)
    ensures Leaks(collate, Obj(fields), w)
  {
    var keys := MeaningOfFields(fields).Keys;
    var j, k :| j in keys && k in keys && collate(j, k) && collate(k, j) && j != k;
    var p := FieldOfKey(fields, j);
    var q := FieldOfKey(fields, k);
    if p < q { w := TiedFieldsLeak(collate, fields, p, q); } else { w := TiedFieldsLeak(collate, fields, q, p); }
  }

  // ----- the exact condition -----

  /** Every value that means the same as `a` has the same identity. */
  ghost predicate Canonical(collate: Collation, a: Value) {
    forall b :: Proper(b) && b != Undefined && Meaning(b) == Meaning(a) ==> Identity(collate, b) == Identity(collate, a)
  }

  /** The identity of an assignment is canonical exactly if no two kept keys of one of its objects
      tie in the key order. */
  lemma CanonicalIffUntied(collate: Collation, a: Value)
    requires TotalPreorder(collate) && Proper(a) && a != Undefined
    ensures Canonical(collate, a) <==> Untied(collate, Meaning(a))
  {
    if Untied(collate, Meaning(a)) {
      forall b | Proper(b) && b != Undefined && Meaning(b) == Meaning(a) ensures Identity(collate, b) == Identity(collate, a) {
        IdentityIsMeaning(collate, a, b);
      }
    } else {
      var w := TieShows(collate, a);
      if Identity(collate, w) == Identity(collate, a) { IdentityIsInjective(collate, w, a); }
    }
  }
}
