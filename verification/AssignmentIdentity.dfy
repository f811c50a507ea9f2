/** The stable identity of an assignment (src/lib/assignment-qualification.ts): normalise, then
    print as JSON. Two values get the same identity exactly when they mean the same assignment. */
module AssignmentIdentity {
  import opened Ordering
  import opened Wrappers

  /** An input value. Objects keep their fields in insertion order; a number is identified by its
      JSON text and a date by its ISO text. */
  datatype Value =
    | Undefined
    | Null
    | Bool(b: bool)
    | Num(text: string)
    | Str(s: string)
    | Date(iso: string)
    | Arr(items: seq<Value>)
    | Obj(fields: seq<(string, Value)>)

  /** A normalised value. */
  datatype Normal =
    | NNull
    | NBool(b: bool)
    | NNum(text: string)
    | NStr(s: string)
    | NArr(items: seq<Normal>)
    | NObj(fields: seq<(string, Normal)>)

  // ----- normalising -----

  predicate Dropped(field: (string, Value)) {
    field.0 == "ticket" || field.0 == "overrideTicket" || field.1 == Undefined
  }

  /** `collate(a, b)` says that key `a` may be printed before key `b`. JavaScript enumerates
      array-index keys first, by number, and the others as `localeCompare` has sorted them. */
  type Collation = (string, string) -> bool

  function ByKey(collate: Collation): ((string, Normal), (string, Normal)) -> bool {
    (f: (string, Normal), g: (string, Normal)) => collate(f.0, g.0)
  }

  function Normalize(collate: Collation, v: Value): Normal
    decreases v, 1
  {
    match v
    // an array element without a value prints as null
    case Undefined => NNull
    case Null => NNull
    case Bool(b) => NBool(b)
    case Num(text) => NNum(text)
    case Str(s) => NStr(s)
    case Date(iso) => NStr(iso)
    case Arr(items) => NArr(NormalizeItems(collate, items))
    case Obj(fields) => NObj(SortBy(ByKey(collate), NormalizeFields(collate, fields)))
  }

  function NormalizeItems(collate: Collation, items: seq<Value>): (r: seq<Normal>)
    ensures |r| == |items|
    decreases items, 0
  {
    if items == [] then [] else [Normalize(collate, items[0])] + NormalizeItems(collate, items[1..])
  }

  function NormalizeFields(collate: Collation, fields: seq<(string, Value)>): seq<(string, Normal)>
    decreases fields, 0
  {
    if fields == [] then []
    else
      (if Dropped(fields[0]) then [] else [NormalizeField(collate, fields[0])])
      + NormalizeFields(collate, fields[1..])
  }

  function NormalizeField(collate: Collation, field: (string, Value)): (string, Normal)
    decreases field, 2
  {
    (field.0, Normalize(collate, field.1))
  }

  // ----- printing -----

  function HexDigit(n: nat): char
    requires n < 16
  {
    if n < 10 then '0' + n as char else 'a' + (n - 10) as char
  }

  /** How `JSON.stringify` writes one character of a string. */
  function EscapeChar(c: char): string {
    if c == '"' then "\\\"" else if c == '\\' then "\\\\"
    else if c == '\U{0008}' then "\\b" else if c == '\U{000C}' then "\\f"
    else if c == '\n' then "\\n" else if c == '\r' then "\\r" else if c == '\t' then "\\t"
    else if c < ' ' then "\\u00" + [HexDigit(c as nat / 16), HexDigit(c as nat % 16)]
    else [c]
  }

  /** The rest of a string literal, up to and including its closing quote. */
  function QuoteRest(s: string): string {
    if s == [] then "\"" else EscapeChar(s[0]) + QuoteRest(s[1..])
  }

  function Quote(s: string): string {
    "\"" + QuoteRest(s)
  }

  function Print(n: Normal): string
    decreases n, 1
  {
    match n
    case NNull => "null"
    case NBool(b) => if b then "true" else "false"
    case NNum(text) => text
    case NStr(s) => Quote(s)
    case NArr(items) => "[" + PrintItems(items, true)
    case NObj(fields) => "{" + PrintFields(fields, true)
  }

  /** The rest of an array, up to and including its closing bracket. */
  function PrintItems(items: seq<Normal>, first: bool): string
    decreases items, 0
  {
    if items == [] then "]"
    else (if first then "" else ",") + (Print(items[0]) + PrintItems(items[1..], false))
  }

  function PrintFields(fields: seq<(string, Normal)>, first: bool): string
    decreases fields, 0
  {
    if fields == [] then "}"
    else
      (if first then "" else ",") + (PrintField(fields[0]) + PrintFields(fields[1..], false))
  }

  function PrintField(field: (string, Normal)): string
    decreases field, 2
  {
    Quote(field.0) + (":" + Print(field.1))
  }

  /** `assignmentIdentity`; only `undefined` itself has none. */
  function Identity(collate: Collation, v: Value): Option<string> {
    if v == Undefined then None else Some(Print(Normalize(collate, v)))
  }

  // ----- the printed text determines the normal form -----

  predicate NumberChar(c: char) {
    '0' <= c <= '9' || c == '-' || c == '+' || c == '.' || c == 'e'
  }

  /** Number texts start with a digit or a minus sign and use no other characters. */
  predicate NumberText(text: string) {
    && text != [] && ('0' <= text[0] <= '9' || text[0] == '-')
    && forall i :: 0 <= i < |text| ==> NumberChar(text[i])
  }

  predicate WellFormed(n: Normal) {
    match n
    case NNum(text) => NumberText(text)
    case NArr(items) => forall i :: 0 <= i < |items| ==> WellFormed(items[i])
    case NObj(fields) => forall i :: 0 <= i < |fields| ==> WellFormed(fields[i].1)
    case _ => true
  }

  /** What may follow a value: nothing, or a delimiter. */
  predicate Delimited(rest: string) {
    rest == [] || rest[0] == ',' || rest[0] == ']' || rest[0] == '}'
  }

  lemma EscapePrefix(c: char, d: char, x: string, y: string)
    requires EscapeChar(c) + x == EscapeChar(d) + y
    ensures c == d && x == y
  {
    var e, f := EscapeChar(c) + x, EscapeChar(d) + y;
    assert e[0] == f[0];
    if |EscapeChar(c)| > 1 || |EscapeChar(d)| > 1 {
      assert e[1] == f[1];
      if |EscapeChar(c)| == 6 { assert e[4] == f[4] && e[5] == f[5]; }
    }
    assert c == d;
    assert e[|EscapeChar(c)|..] == x && f[|EscapeChar(d)|..] == y;
  }

  /** A common prefix cancels. */
  lemma Peel(p: string, a: string, b: string, x: string, y: string)
    requires (p + a) + x == (p + b) + y
    ensures a + x == b + y
  {
    assert ((p + a) + x)[|p|..] == a + x;
    assert ((p + b) + y)[|p|..] == b + y;
  }

  lemma PeelAll(p: string, x: string, y: string)
    requires p + x == p + y
    ensures x == y
  {
    assert (p + x)[|p|..] == x && (p + y)[|p|..] == y;
  }

  lemma Regroup(a: string, b: string, c: string)
    ensures (a + b) + c == a + (b + c)
  {
  }

  lemma {:induction false} QuoteRestInjective(s: string, t: string, x: string, y: string)
    requires QuoteRest(s) + x == QuoteRest(t) + y
    ensures s == t && x == y
  {
    assert (QuoteRest(s) + x)[0] == (QuoteRest(t) + y)[0];
    if s == [] || t == [] {
      assert s == [] && t == [];
      PeelAll("\"", x, y);
    } else {
      Regroup(EscapeChar(s[0]), QuoteRest(s[1..]), x);
      Regroup(EscapeChar(t[0]), QuoteRest(t[1..]), y);
      EscapePrefix(s[0], t[0], QuoteRest(s[1..]) + x, QuoteRest(t[1..]) + y);
      QuoteRestInjective(s[1..], t[1..], x, y);
      assert s == [s[0]] + s[1..] && t == [t[0]] + t[1..];
    }
  }

  lemma QuoteInjective(s: string, t: string, x: string, y: string)
    requires Quote(s) + x == Quote(t) + y
    ensures s == t && x == y
  {
    Peel("\"", QuoteRest(s), QuoteRest(t), x, y);
    QuoteRestInjective(s, t, x, y);
  }

  lemma CharBeyond(a: string, b: string, x: string, y: string)
    requires a + x == b + y && |a| < |b|
    ensures x != [] && x[0] == b[|a|]
  {
    assert (a + x)[|a|] == (b + y)[|a|];
  }

  /** A number text ends where its delimiter begins. */
  lemma NumberNotLonger(a: string, b: string, x: string, y: string)
    requires NumberText(a) && NumberText(b) && Delimited(x) && a + x == b + y
    ensures |b| <= |a|
  {
    if |a| < |b| { CharBeyond(a, b, x, y); }
  }

  lemma NumberInjective(a: string, b: string, x: string, y: string)
    requires NumberText(a) && NumberText(b) && Delimited(x) && Delimited(y) && a + x == b + y
    ensures a == b && x == y
  {
    NumberNotLonger(a, b, x, y);
    NumberNotLonger(b, a, y, x);
    assert (a + x)[..|a|] == a && (b + y)[..|b|] == b;
    assert (a + x)[|a|..] == x && (b + y)[|b|..] == y;
  }

  /** The first character of a printed value tells what kind of value it is. */
  function Tag(n: Normal): char {
    match n
    case NNull => 'n'
    case NBool(b) => if b then 't' else 'f'
    case NNum(text) => '0'
    case NStr(_) => '"'
    case NArr(_) => '['
    case NObj(_) => '{'
  }

  lemma PrintTag(n: Normal)
    requires WellFormed(n)
    ensures Print(n) != []
    ensures if n.NNum? then NumberChar(Print(n)[0]) else Print(n)[0] == Tag(n)
  {
  }

  lemma SameTag(m: Normal, n: Normal, x: string, y: string)
    requires WellFormed(m) && WellFormed(n) && Print(m) + x == Print(n) + y
    ensures Tag(m) == Tag(n)
  {
    PrintTag(m);
    PrintTag(n);
    assert (Print(m) + x)[0] == Print(m)[0] && (Print(n) + y)[0] == Print(n)[0];
  }

  /** Printed values determine the value and where it ends. */
  lemma {:induction false} PrintInjective(m: Normal, n: Normal, x: string, y: string)
    requires WellFormed(m) && WellFormed(n) && Delimited(x) && Delimited(y)
    requires Print(m) + x == Print(n) + y
    ensures m == n && x == y
    decreases m, 1
  {
    SameTag(m, n, x, y);
    match (m, n) {
      case (NNum(a), NNum(b)) => NumberInjective(a, b, x, y);
      case (NStr(s), NStr(t)) => QuoteInjective(s, t, x, y);
      case (NArr(s), NArr(t)) =>
        Peel("[", PrintItems(s, true), PrintItems(t, true), x, y);
        ItemsInjective(s, t, true, x, y);
      case (NObj(s), NObj(t)) =>
        Peel("{", PrintFields(s, true), PrintFields(t, true), x, y);
        FieldsInjective(s, t, true, x, y);
      case _ =>
        PeelAll(Print(m), x, y);
    }
  }

  lemma ItemsEnd(items: seq<Normal>, first: bool)
    requires forall i :: 0 <= i < |items| ==> WellFormed(items[i])
    ensures PrintItems(items, first) != [] && (PrintItems(items, first)[0] == ']' <==> items == [])
    ensures !first ==> Delimited(PrintItems(items, first))
  {
    if items != [] { PrintTag(items[0]); }
  }

  lemma {:induction false} ItemsInjective(s: seq<Normal>, t: seq<Normal>, first: bool, x: string, y: string)
    requires forall i :: 0 <= i < |s| ==> WellFormed(s[i])
    requires forall i :: 0 <= i < |t| ==> WellFormed(t[i])
    requires PrintItems(s, first) + x == PrintItems(t, first) + y
    ensures s == t && x == y
    decreases s, 0
  {
    ItemsEnd(s, first);
    ItemsEnd(t, first);
    assert (PrintItems(s, first) + x)[0] == (PrintItems(t, first) + y)[0];
    if s == [] {
      PeelAll("]", x, y);
    } else {
      var s', t' := PrintItems(s[1..], false), PrintItems(t[1..], false);
      Peel(if first then "" else ",", Print(s[0]) + s', Print(t[0]) + t', x, y);
      Regroup(Print(s[0]), s', x);
      Regroup(Print(t[0]), t', y);
      ItemsEnd(s[1..], false);
      ItemsEnd(t[1..], false);
      PrintInjective(s[0], t[0], s' + x, t' + y);
      ItemsInjective(s[1..], t[1..], false, x, y);
      assert s == [s[0]] + s[1..] && t == [t[0]] + t[1..];
    }
  }

  lemma FieldsEnd(fields: seq<(string, Normal)>, first: bool)
    ensures PrintFields(fields, first) != [] && (PrintFields(fields, first)[0] == '}' <==> fields == [])
    ensures !first ==> Delimited(PrintFields(fields, first))
  {
  }

  lemma {:induction false} FieldsInjective(s: seq<(string, Normal)>, t: seq<(string, Normal)>, first: bool,
        x: string, y: string)
    requires forall i :: 0 <= i < |s| ==> WellFormed(s[i].1)
    requires forall i :: 0 <= i < |t| ==> WellFormed(t[i].1)
    requires PrintFields(s, first) + x == PrintFields(t, first) + y
    ensures s == t && x == y
    decreases s, 0
  {
    FieldsEnd(s, first);
    FieldsEnd(t, first);
    assert (PrintFields(s, first) + x)[0] == (PrintFields(t, first) + y)[0];
    if s == [] {
      PeelAll("}", x, y);
    } else {
      var s', t' := PrintFields(s[1..], false), PrintFields(t[1..], false);
      Peel(if first then "" else ",", PrintField(s[0]) + s', PrintField(t[0]) + t', x, y);
      Regroup(PrintField(s[0]), s', x);
      Regroup(PrintField(t[0]), t', y);
      FieldsEnd(s[1..], false);
      FieldsEnd(t[1..], false);
      FieldInjective(s[0], t[0], s' + x, t' + y);
      FieldsInjective(s[1..], t[1..], false, x, y);
      assert s == [s[0]] + s[1..] && t == [t[0]] + t[1..];
    }
  }

  lemma {:induction false} FieldInjective(s: (string, Normal), t: (string, Normal), x: string, y: string)
    requires WellFormed(s.1) && WellFormed(t.1) && Delimited(x) && Delimited(y)
    requires PrintField(s) + x == PrintField(t) + y
    ensures s == t && x == y
    decreases s, 2
  {
    Regroup(Quote(s.0), ":" + Print(s.1), x);
    Regroup(Quote(t.0), ":" + Print(t.1), y);
    QuoteInjective(s.0, t.0, (":" + Print(s.1)) + x, (":" + Print(t.1)) + y);
    Peel(":", Print(s.1), Print(t.1), x, y);
    PrintInjective(s.1, t.1, x, y);
  }

  // ----- what the identity ignores -----

  /** The meaning of a value: no dropped fields, dates as text, and objects as unordered maps. */
  datatype Tree =
    | TNull
    | TBool(b: bool)
    | TNum(text: string)
    | TStr(s: string)
    | TArr(items: seq<Tree>)
    | TObj(fields: map<string, Tree>)

  function Meaning(v: Value): Tree
    decreases v, 1
  {
    match v
    case Undefined => TNull
    case Null => TNull
    case Bool(b) => TBool(b)
    case Num(text) => TNum(text)
    case Str(s) => TStr(s)
    case Date(iso) => TStr(iso)
    case Arr(items) => TArr(MeaningOfItems(items))
    case Obj(fields) => TObj(MeaningOfFields(fields))
  }

  function MeaningOfItems(items: seq<Value>): (r: seq<Tree>)
    ensures |r| == |items|
    decreases items, 0
  {
    if items == [] then [] else [Meaning(items[0])] + MeaningOfItems(items[1..])
  }

  function MeaningOfFields(fields: seq<(string, Value)>): map<string, Tree>
    decreases fields, 0
  {
    if fields == [] then map[]
    else if Dropped(fields[0]) then MeaningOfFields(fields[1..])
    else MeaningOfFields(fields[1..])[fields[0].0 := MeaningOfField(fields[0])]
  }

  function MeaningOfField(field: (string, Value)): Tree
    decreases field, 2
  {
    Meaning(field.1)
  }

  /** The meaning of a normal form. */
  function Unordered(n: Normal): Tree
    decreases n, 1
  {
    match n
    case NNull => TNull
    case NBool(b) => TBool(b)
    case NNum(text) => TNum(text)
    case NStr(s) => TStr(s)
    case NArr(items) => TArr(UnorderedItems(items))
    case NObj(fields) => TObj(UnorderedFields(fields))
  }

  function UnorderedItems(items: seq<Normal>): (r: seq<Tree>)
    ensures |r| == |items|
    decreases items, 0
  {
    if items == [] then [] else [Unordered(items[0])] + UnorderedItems(items[1..])
  }

  function UnorderedFields(fields: seq<(string, Normal)>): map<string, Tree>
    decreases fields, 0
  {
    if fields == [] then map[] else UnorderedFields(fields[1..])[fields[0].0 := UnorderedField(fields[0])]
  }

  function UnorderedField(field: (string, Normal)): Tree
    decreases field, 2
  {
    Unordered(field.1)
  }

  predicate DistinctKeys<T>(fields: seq<(string, T)>) {
    forall i, j :: 0 <= i < j < |fields| ==> fields[i].0 != fields[j].0
  }

  /** A value as JSON-like data can be: no object repeats a key, and number texts are numbers. */
  predicate Proper(v: Value) {
    match v
    case Num(text) => NumberText(text)
    case Arr(items) => forall i :: 0 <= i < |items| ==> Proper(items[i])
    case Obj(fields) => DistinctKeys(fields) && forall i :: 0 <= i < |fields| ==> Proper(fields[i].1)
    case _ => true
  }

  /** A normal form whose objects are in key order, each key once. */
  ghost predicate Ordered(collate: Collation, n: Normal) {
    match n
    case NArr(items) => forall i :: 0 <= i < |items| ==> Ordered(collate, items[i])
    case NObj(fields) =>
      && SortedBy(ByKey(collate), fields) && DistinctKeys(fields)
      && forall i :: 0 <= i < |fields| ==> Ordered(collate, fields[i].1)
    case _ => true
  }

  // ----- normal forms are ordered and keep the meaning -----

  lemma HeadKeyIsNew<T>(fields: seq<(string, T)>)
    requires fields != [] && DistinctKeys(fields)
    ensures forall f :: f in fields[1..] ==> f.0 != fields[0].0
  {
    forall f | f in fields[1..] ensures f.0 != fields[0].0 {
      var i :| 0 <= i < |fields[1..]| && fields[1..][i] == f;
    }
  }

  lemma {:induction false} LookupFields(fields: seq<(string, Normal)>)
    requires DistinctKeys(fields)
    ensures forall k :: k in UnorderedFields(fields) <==> exists f :: f in fields && f.0 == k
    ensures forall f :: f in fields ==> f.0 in UnorderedFields(fields) && UnorderedFields(fields)[f.0] == Unordered(f.1)
  {
    if fields != [] {
      LookupFields(fields[1..]);
      assert fields == [fields[0]] + fields[1..];
      assert forall f :: f in fields <==> f == fields[0] || f in fields[1..];
      HeadKeyIsNew(fields);
      forall k | k in UnorderedFields(fields) ensures exists f :: f in fields && f.0 == k {
        if k == fields[0].0 {
          assert fields[0] in fields;
        } else {
          var f :| f in fields[1..] && f.0 == k;
          assert f in fields;
        }
      }
    }
  }

  lemma {:induction false} DistinctOnce<T>(fields: seq<(string, T)>, f: (string, T))
    requires DistinctKeys(fields)
    ensures multiset(fields)[f] <= 1
  {
    if fields != [] {
      DistinctOnce(fields[1..], f);
      assert fields == [fields[0]] + fields[1..];
      HeadKeyIsNew(fields);
    }
  }

  lemma PermutedKeysDistinct<T>(s: seq<(string, T)>, t: seq<(string, T)>)
    requires DistinctKeys(s) && multiset(s) == multiset(t)
    ensures DistinctKeys(t)
  {
    forall i, j | 0 <= i < j < |t| ensures t[i].0 != t[j].0 {
      assert t[i] in multiset(s) && t[j] in multiset(s);
      if t[i] == t[j] {
        DistinctOnce(s, t[i]);
        TwiceCounted(t, i, j);
      } else {
        var k :| 0 <= k < |s| && s[k] == t[i];
        var l :| 0 <= l < |s| && s[l] == t[j];
      }
    }
  }

  lemma PermutedFieldsMean(s: seq<(string, Normal)>, t: seq<(string, Normal)>)
    requires DistinctKeys(s) && multiset(s) == multiset(t)
    ensures UnorderedFields(s) == UnorderedFields(t)
  {
    PermutedKeysDistinct(s, t);
    LookupFields(s);
    LookupFields(t);
    forall f ensures f in s <==> f in t { assert f in multiset(s) <==> f in multiset(t); }
    var a, b := UnorderedFields(s), UnorderedFields(t);
    forall k ensures (k in a <==> k in b) && (k in a ==> a[k] == b[k]) {
      if k in a { var f :| f in s && f.0 == k; }
      if k in b { var f :| f in t && f.0 == k; }
    }
  }

  /** `NormalizeFields` invents no key. */
  lemma {:induction false} NormalKeys(collate: Collation, fields: seq<(string, Value)>, f: (string, Normal))
    requires f in NormalizeFields(collate, fields)
    ensures exists g :: g in fields && g.0 == f.0
  {
    var rest := NormalizeFields(collate, fields[1..]);
    if f in rest {
      NormalKeys(collate, fields[1..], f);
      var g :| g in fields[1..] && g.0 == f.0;
      assert g in fields;
    } else {
      assert fields[0] in fields && fields[0].0 == f.0;
    }
  }

  lemma PrependField(head: (string, Normal), rest: seq<(string, Normal)>)
    requires DistinctKeys(rest) && forall f :: f in rest ==> f.0 != head.0
    ensures DistinctKeys([head] + rest)
    ensures UnorderedFields([head] + rest) == UnorderedFields(rest)[head.0 := UnorderedField(head)]
  {
    assert ([head] + rest)[1..] == rest;
  }

  lemma NewHeadKey(collate: Collation, fields: seq<(string, Value)>)
    requires fields != [] && DistinctKeys(fields)
    ensures forall f :: f in NormalizeFields(collate, fields[1..]) ==> f.0 != fields[0].0
  {
    HeadKeyIsNew(fields);
    forall f | f in NormalizeFields(collate, fields[1..]) ensures f.0 != fields[0].0 {
      NormalKeys(collate, fields[1..], f);
    }
  }

  /** What `NormalizeFields` leaves: each key once, with printable values, and the same meaning. */
  lemma {:induction false} NormalFields(collate: Collation, fields: seq<(string, Value)>)
    requires DistinctKeys(fields) && forall i :: 0 <= i < |fields| ==> Proper(fields[i].1)
    ensures var r := NormalizeFields(collate, fields);
            && DistinctKeys(r)
            && (forall f :: f in r ==> WellFormed(f.1))
            && UnorderedFields(r) == MeaningOfFields(fields)
    decreases fields, 0
  {
    if fields != [] {
      var rest, head := NormalizeFields(collate, fields[1..]), NormalizeField(collate, fields[0]);
      NormalFields(collate, fields[1..]);
      if Dropped(fields[0]) {
        assert [] + rest == rest;
      } else {
        NormalField(collate, fields[0]);
        NewHeadKey(collate, fields);
        PrependField(head, rest);
      }
    }
  }

  lemma {:induction false} NormalField(collate: Collation, field: (string, Value))
    requires Proper(field.1)
    ensures var r := NormalizeField(collate, field);
            WellFormed(r.1) && UnorderedField(r) == MeaningOfField(field)
    decreases field, 2
  {
    NormalMeaning(collate, field.1);
  }

  lemma {:induction false} NormalItems(collate: Collation, items: seq<Value>)
    requires forall i :: 0 <= i < |items| ==> Proper(items[i])
    ensures var r := NormalizeItems(collate, items);
            && (forall i :: 0 <= i < |r| ==> WellFormed(r[i]))
            && UnorderedItems(r) == MeaningOfItems(items)
    decreases items, 0
  {
    if items != [] {
      NormalMeaning(collate, items[0]);
      NormalItems(collate, items[1..]);
      var r := NormalizeItems(collate, items);
      assert r[1..] == NormalizeItems(collate, items[1..]);
    }
  }

  /** Normalising keeps the meaning, whatever order the keys are sorted by. */
  lemma {:induction false} NormalMeaning(collate: Collation, v: Value)
    requires Proper(v)
    ensures WellFormed(Normalize(collate, v)) && Unordered(Normalize(collate, v)) == Meaning(v)
    decreases v, 1
  {
    match v
    case Arr(items) => NormalItems(collate, items);
    case Obj(fields) =>
      NormalFields(collate, fields);
      SortedFieldsMean(collate, NormalizeFields(collate, fields));
    case _ =>
  }

  lemma SortedFieldsMean(collate: Collation, fields: seq<(string, Normal)>)
    requires DistinctKeys(fields) && forall f :: f in fields ==> WellFormed(f.1)
    ensures var n := NObj(SortBy(ByKey(collate), fields));
            WellFormed(n) && DistinctKeys(n.fields) && Unordered(n) == TObj(UnorderedFields(fields))
  {
    var sorted := SortBy(ByKey(collate), fields);
    PermutedKeysDistinct(fields, sorted);
    PermutedFieldsMean(fields, sorted);
    forall i | 0 <= i < |sorted| ensures sorted[i] in fields {
      assert sorted[i] in multiset(fields);
    }
  }

  // ----- normal forms are ordered -----

  lemma {:induction false} NormalFieldsOrdered(collate: Collation, fields: seq<(string, Value)>)
    requires TotalPreorder(collate) && DistinctKeys(fields) && forall i :: 0 <= i < |fields| ==> Proper(fields[i].1)
    ensures forall f :: f in NormalizeFields(collate, fields) ==> Ordered(collate, f.1)
    decreases fields, 0
  {
    if fields != [] {
      NormalFieldsOrdered(collate, fields[1..]);
      NormalFieldOrdered(collate, fields[0]);
    }
  }

  lemma {:induction false} NormalFieldOrdered(collate: Collation, field: (string, Value))
    requires TotalPreorder(collate) && Proper(field.1)
    ensures Ordered(collate, NormalizeField(collate, field).1)
    decreases field, 2
  {
    NormalOrdered(collate, field.1);
  }

  lemma {:induction false} NormalItemsOrdered(collate: Collation, items: seq<Value>)
    requires TotalPreorder(collate) && forall i :: 0 <= i < |items| ==> Proper(items[i])
    ensures forall i :: 0 <= i < |items| ==> Ordered(collate, NormalizeItems(collate, items)[i])
    decreases items, 0
  {
    if items != [] {
      NormalOrdered(collate, items[0]);
      NormalItemsOrdered(collate, items[1..]);
    }
  }

  /** A normal form lists each key of an object once, in order. */
  lemma {:induction false} NormalOrdered(collate: Collation, v: Value)
    requires TotalPreorder(collate) && Proper(v)
    ensures Ordered(collate, Normalize(collate, v))
    decreases v, 1
  {
    match v
    case Arr(items) => NormalItemsOrdered(collate, items);
    case Obj(fields) =>
      NormalFieldsOrdered(collate, fields);
      NormalFields(collate, fields);
      SortedFieldsOrdered(collate, NormalizeFields(collate, fields));
    case _ =>
  }

  lemma ByKeyIsTotal(collate: Collation)
    requires TotalPreorder(collate)
    ensures TotalPreorder(ByKey(collate))
  {
    var le := ByKey(collate);
    forall f, g ensures le(f, g) || le(g, f) { assert collate(f.0, g.0) || collate(g.0, f.0); }
    forall f, g, h | le(f, g) && le(g, h) ensures le(f, h) { assert collate(f.0, g.0) && collate(g.0, h.0); }
  }

  lemma SortedFieldsOrdered(collate: Collation, fields: seq<(string, Normal)>)
    requires TotalPreorder(collate) && DistinctKeys(fields) && forall f :: f in fields ==> Ordered(collate, f.1)
    ensures Ordered(collate, NObj(SortBy(ByKey(collate), fields)))
  {
    var sorted := SortBy(ByKey(collate), fields);
    ByKeyIsTotal(collate);
    SortBySorted(ByKey(collate), fields);
    PermutedKeysDistinct(fields, sorted);
    forall i | 0 <= i < |sorted| ensures sorted[i] in fields {
      assert sorted[i] in multiset(fields);
    }
  }

  // ----- ordered forms with the same meaning are equal, unless keys tie -----

  ghost predicate KeysUntied(collate: Collation, keys: set<string>) {
    forall j, k :: j in keys && k in keys && collate(j, k) && collate(k, j) ==> j == k
  }

  /** No two keys of one object tie; dropped fields are not part of the meaning. */
  ghost predicate Untied(collate: Collation, t: Tree) {
    match t
    case TArr(items) => forall i :: 0 <= i < |items| ==> Untied(collate, items[i])
    case TObj(fields) => KeysUntied(collate, fields.Keys) && forall k :: k in fields ==> Untied(collate, fields[k])
    case _ => true
  }

  lemma {:induction false} OrderedUnique(collate: Collation, m: Normal, n: Normal)
    requires Ordered(collate, m) && Ordered(collate, n)
    requires Unordered(m) == Unordered(n) && Untied(collate, Unordered(m))
    ensures m == n
    decreases m, 1
  {
    match (m, n) {
      case (NArr(s), NArr(t)) => OrderedItemsUnique(collate, s, t);
      case (NObj(s), NObj(t)) => OrderedFieldsUnique(collate, s, t);
      case _ =>
    }
  }

  lemma {:induction false} OrderedItemsUnique(collate: Collation, s: seq<Normal>, t: seq<Normal>)
    requires UnorderedItems(s) == UnorderedItems(t)
    requires forall i :: 0 <= i < |s| ==> Ordered(collate, s[i]) && Untied(collate, UnorderedItems(s)[i])
    requires forall i :: 0 <= i < |t| ==> Ordered(collate, t[i])
    ensures s == t
    decreases s, 0
  {
    if s != [] {
      assert UnorderedItems(s)[1..] == UnorderedItems(s[1..]) && UnorderedItems(t)[1..] == UnorderedItems(t[1..]);
      OrderedUnique(collate, s[0], t[0]);
      OrderedItemsUnique(collate, s[1..], t[1..]);
      assert s == [s[0]] + s[1..] && t == [t[0]] + t[1..];
    }
  }

  /** The first field of an ordered object has the least key, and the rest is the map without it. */
  lemma HeadField(collate: Collation, s: seq<(string, Normal)>)
    requires s != [] && SortedBy(ByKey(collate), s) && DistinctKeys(s)
    ensures s[0].0 in UnorderedFields(s) && UnorderedFields(s)[s[0].0] == UnorderedField(s[0])
    ensures forall k :: k in UnorderedFields(s) && k != s[0].0 ==> collate(s[0].0, k)
    ensures UnorderedFields(s[1..]) == UnorderedFields(s) - {s[0].0}
  {
    forall k | k in UnorderedFields(s) && k != s[0].0 ensures collate(s[0].0, k) { HeadIsLeast(collate, s, k); }
    HeadAbsentBelow(s);
  }

  lemma HeadIsLeast(collate: Collation, s: seq<(string, Normal)>, k: string)
    requires s != [] && SortedBy(ByKey(collate), s) && DistinctKeys(s)
    requires k in UnorderedFields(s) && k != s[0].0
    ensures collate(s[0].0, k)
  {
    LookupFields(s);
    var f :| f in s && f.0 == k;
    var i :| 0 <= i < |s| && s[i] == f;
    assert ByKey(collate)(s[0], s[i]);
  }

  lemma HeadAbsentBelow(s: seq<(string, Normal)>)
    requires s != [] && DistinctKeys(s)
    ensures s[0].0 !in UnorderedFields(s[1..])
  {
    LookupFields(s[1..]);
    HeadKeyIsNew(s);
  }

  ghost predicate FieldsUntied(collate: Collation, fields: map<string, Tree>) {
    KeysUntied(collate, fields.Keys) && forall k :: k in fields ==> Untied(collate, fields[k])
  }

  lemma {:induction false} OrderedFieldsUnique(collate: Collation, s: seq<(string, Normal)>, t: seq<(string, Normal)>)
    requires UnorderedFields(s) == UnorderedFields(t) && FieldsUntied(collate, UnorderedFields(s))
    requires SortedBy(ByKey(collate), s) && DistinctKeys(s) && SortedBy(ByKey(collate), t) && DistinctKeys(t)
    requires forall i :: 0 <= i < |s| ==> Ordered(collate, s[i].1)
    requires forall i :: 0 <= i < |t| ==> Ordered(collate, t[i].1)
    ensures s == t
    decreases s, 0
  {
    if s == [] {
      if t != [] { HeadField(collate, t); }
    } else {
      HeadField(collate, s);
      if t != [] {
        HeadField(collate, t);
        assert s[0].0 == t[0].0;
        OrderedFieldUnique(collate, s[0], t[0]);
        OrderedFieldsUnique(collate, s[1..], t[1..]);
        assert s == [s[0]] + s[1..] && t == [t[0]] + t[1..];
      }
    }
  }

  lemma {:induction false} OrderedFieldUnique(collate: Collation, s: (string, Normal), t: (string, Normal))
    requires s.0 == t.0 && UnorderedField(s) == UnorderedField(t)
    requires Ordered(collate, s.1) && Ordered(collate, t.1) && Untied(collate, UnorderedField(s))
    ensures s == t
    decreases s, 2
  {
    OrderedUnique(collate, s.1, t.1);
  }

  // ----- the main results -----

  lemma PrintDetermines(m: Normal, n: Normal)
    requires WellFormed(m) && WellFormed(n) && Print(m) == Print(n)
    ensures m == n
  {
    assert Print(m) + [] == Print(m) && Print(n) + [] == Print(n);
    PrintInjective(m, n, [], []);
  }

  /** Values with the same identity have the same normal form and mean the same, whatever order
      the keys are sorted by: the identity never confuses two assignments. */
  lemma IdentityIsInjective(collate: Collation, a: Value, b: Value)
    requires Proper(a) && Proper(b) && Identity(collate, a) == Identity(collate, b)
    ensures (a == Undefined <==> b == Undefined) && Meaning(a) == Meaning(b)
    ensures Normalize(collate, a) == Normalize(collate, b)
  {
    NormalMeaning(collate, a);
    NormalMeaning(collate, b);
    if a != Undefined && b != Undefined { PrintDetermines(Normalize(collate, a), Normalize(collate, b)); }
  }

  /** When no two kept keys of one object tie, the identity is the meaning. */
  lemma IdentityIsMeaning(collate: Collation, a: Value, b: Value)
    requires TotalPreorder(collate) && Proper(a) && Proper(b) && Untied(collate, Meaning(a))
    ensures Identity(collate, a) == Identity(collate, b)
            <==> (a == Undefined <==> b == Undefined) && Meaning(a) == Meaning(b)
  {
    if Identity(collate, a) == Identity(collate, b) {
      IdentityIsInjective(collate, a, b);
    } else if (a == Undefined <==> b == Undefined) && Meaning(a) == Meaning(b) {
      NormalMeaning(collate, a);
      NormalMeaning(collate, b);
      NormalOrdered(collate, a);
      NormalOrdered(collate, b);
      OrderedUnique(collate, Normalize(collate, a), Normalize(collate, b));
    }
  }

  /** A two-field object of nulls. */
  function Pair(j: string, k: string): Value {
    Obj([(j, Null), (k, Null)])
  }

  predicate Kept(key: string) {
    key != "ticket" && key != "overrideTicket"
  }

  lemma PairNormal(collate: Collation, j: string, k: string)
    requires Kept(j) && Kept(k) && collate(j, k)
    ensures Normalize(collate, Pair(j, k)) == NObj([(j, NNull), (k, NNull)])
  {
    var f, g := (j, Null), (k, Null);
    var fn, gn := (j, NNull), (k, NNull);
    assert [f, g][1..] == [g] && [g][1..] == [];
    assert NormalizeField(collate, f) == fn && NormalizeField(collate, g) == gn;
    assert !Dropped(f) && !Dropped(g);
    assert NormalizeFields(collate, []) == [];
    assert NormalizeFields(collate, [g]) == [gn] + [];
    assert NormalizeFields(collate, [f, g]) == [fn] + [gn];
    assert [fn] + [gn] == [fn, gn];
    assert [fn, gn][1..] == [gn] && [gn][1..] == [];
    assert SortBy(ByKey(collate), [gn]) == [gn];
  }

  lemma PairMeaning(j: string, k: string)
    requires Kept(j) && Kept(k) && j != k
    ensures Meaning(Pair(j, k)) == TObj(map[j := TNull, k := TNull])
  {
    var f, g := (j, Null), (k, Null);
    assert [f, g][1..] == [g] && [g][1..] == [];
    assert MeaningOfField(f) == TNull && MeaningOfField(g) == TNull;
    assert !Dropped(f) && !Dropped(g);
    assert MeaningOfFields([]) == map[];
    assert MeaningOfFields([g]) == map[k := TNull];
    assert MeaningOfFields([f, g]) == map[k := TNull][j := TNull];
  }

  lemma PairMeaningSwaps(j: string, k: string)
    requires Kept(j) && Kept(k) && j != k
    ensures Meaning(Pair(j, k)) == Meaning(Pair(k, j))
  {
    PairMeaning(j, k);
    PairMeaning(k, j);
    assert map[j := TNull, k := TNull] == map[k := TNull, j := TNull];
  }

  lemma SwappedPrintsDiffer(j: string, k: string)
    requires j != k
    ensures Print(NObj([(j, NNull), (k, NNull)])) != Print(NObj([(k, NNull), (j, NNull)]))
  {
    var m, n := NObj([(j, NNull), (k, NNull)]), NObj([(k, NNull), (j, NNull)]);
    assert m.fields[0].0 != n.fields[0].0;
    if Print(m) == Print(n) { PrintDetermines(m, n); }
  }

  /** The order must not tie two keys: if it does, the insertion order shows in the identity. */
  lemma TiedKeysLeakOrder(collate: Collation, j: string, k: string)
    requires j != k && collate(j, k) && collate(k, j) && Kept(j) && Kept(k)
    ensures Meaning(Pair(j, k)) == Meaning(Pair(k, j))
    ensures Identity(collate, Pair(j, k)) != Identity(collate, Pair(k, j))
  {
    PairMeaningSwaps(j, k);
    PairNormal(collate, j, k);
    PairNormal(collate, k, j);
    SwappedPrintsDiffer(j, k);
  }

  // ----- which fields count -----

  lemma {:induction false} NormalizeFieldsAppend(collate: Collation, a: seq<(string, Value)>, b: seq<(string, Value)>)
    ensures NormalizeFields(collate, a + b) == NormalizeFields(collate, a) + NormalizeFields(collate, b)
  {
    if a == [] {
      assert a + b == b;
    } else {
      assert (a + b)[1..] == a[1..] + b;
      NormalizeFieldsAppend(collate, a[1..], b);
    }
  }

  lemma {:induction false} MeaningKeys(fields: seq<(string, Value)>, k: string)
    ensures k in MeaningOfFields(fields)
            <==> exists i :: 0 <= i < |fields| && fields[i].0 == k && !Dropped(fields[i])
  {
    if fields != [] {
      MeaningKeys(fields[1..], k);
      if i :| 0 <= i < |fields| - 1 && fields[1..][i].0 == k && !Dropped(fields[1..][i]) {
        assert fields[i + 1].0 == k && !Dropped(fields[i + 1]);
      }
      if i :| 0 <= i < |fields| && fields[i].0 == k && !Dropped(fields[i]) && i > 0 {
        assert fields[1..][i - 1] == fields[i];
      }
    }
  }

  lemma DroppedFieldGone(collate: Collation, a: seq<(string, Value)>, f: (string, Value), b: seq<(string, Value)>)
    requires Dropped(f)
    ensures NormalizeFields(collate, a + [f] + b) == NormalizeFields(collate, a + b)
  {
    NormalizeFieldsAppend(collate, a + [f], b);
    NormalizeFieldsAppend(collate, a, [f]);
    NormalizeFieldsAppend(collate, a, b);
    OnlyDropped(collate, f);
    assert NormalizeFields(collate, a) + [] == NormalizeFields(collate, a);
  }

  lemma OnlyDropped(collate: Collation, f: (string, Value))
    requires Dropped(f)
    ensures NormalizeFields(collate, [f]) == []
  {
    assert [f][1..] == [];
  }

  lemma SameFieldsNormalize(collate: Collation, a: seq<(string, Value)>, b: seq<(string, Value)>)
    requires NormalizeFields(collate, a) == NormalizeFields(collate, b)
    ensures Normalize(collate, Obj(a)) == Normalize(collate, Obj(b))
  {
  }

  lemma KeptCounts(a: seq<(string, Value)>, f: (string, Value), b: seq<(string, Value)>)
    requires DistinctKeys(a + [f] + b) && !Dropped(f)
    ensures MeaningOfFields(a + [f] + b) != MeaningOfFields(a + b)
  {
    var all := a + [f] + b;
    assert all[|a|] == f;
    MeaningKeys(all, f.0);
    MeaningKeys(a + b, f.0);
    KeyOnce(a, f, b);
  }

  /** Leaving a field out of an object leaves the identity as it is exactly when the field is one of
      the two tickets or has no value, whatever the key order does. */
  lemma FieldCounts(collate: Collation, a: seq<(string, Value)>, f: (string, Value), b: seq<(string, Value)>)
    requires Proper(Obj(a + [f] + b)) && Proper(Obj(a + b))
    ensures Identity(collate, Obj(a + [f] + b)) == Identity(collate, Obj(a + b))
            <==> f.0 in {"ticket", "overrideTicket"} || f.1 == Undefined
  {
    if Dropped(f) {
      DroppedFieldGone(collate, a, f, b);
      SameFieldsNormalize(collate, a + [f] + b, a + b);
    } else {
      KeptCounts(a, f, b);
      if Identity(collate, Obj(a + [f] + b)) == Identity(collate, Obj(a + b)) {
        IdentityIsInjective(collate, Obj(a + [f] + b), Obj(a + b));
      }
    }
  }

  lemma KeyOnce(a: seq<(string, Value)>, f: (string, Value), b: seq<(string, Value)>)
    requires DistinctKeys(a + [f] + b)
    ensures forall i :: 0 <= i < |a + b| ==> (a + b)[i].0 != f.0
  {
    var all := a + [f] + b;
    assert all[|a|] == f;
    forall i | 0 <= i < |a + b| ensures (a + b)[i].0 != f.0 {
      if i < |a| { assert all[i] == (a + b)[i]; } else { assert all[i + 1] == (a + b)[i]; }
    }
  }
}
