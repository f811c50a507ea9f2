/** JSON values as JavaScript holds them, and the two halves of the JSON pointer syntax
    (RFC 6901): printing in scripts/scheduling-profile/parity.ts, decoding and walking in
    src/lib/audit-change-summary.ts. */
module JsonPointer {
  import opened Wrappers

  /** Numbers up to `Object.is`: one NaN, and a zero that remembers its sign. */
  datatype Number = NaN | Infinity | NegativeInfinity | NegativeZero | Finite(value: real)

  /** A JSON value, or a value outside JSON known only by its `typeof`. */
  datatype Json =
    | Null
    | Bool(b: bool)
    | Num(n: Number)
    | Str(s: string)
    | Arr(items: seq<Json>)
    | Obj(fields: map<string, Json>)
    | Opaque(typeName: string)

  // ----- printing -----

  function EscapeChar(c: char): string {
    if c == '~' then "~0" else if c == '/' then "~1" else [c]
  }

  function Escape(key: string): string {
    if key == [] then [] else Escape(key[..|key| - 1]) + EscapeChar(key[|key| - 1])
  }

  /** The pointer that names the value reached through `keys`. */
  function Print(keys: seq<string>): string {
    if keys == [] then "" else Print(keys[..|keys| - 1]) + "/" + Escape(keys[|keys| - 1])
  }

  // ----- decoding -----

  /** `text.replaceAll([a, b], [c])`, from left to right. */
  function ReplacePair(text: string, a: char, b: char, c: char): string {
    if |text| >= 2 && text[0] == a && text[1] == b then [c] + ReplacePair(text[2..], a, b, c)
    else if text == [] then []
    else [text[0]] + ReplacePair(text[1..], a, b, c)
  }

  /** The two passes of `at`. */
  function Decode(encoded: string): string {
    ReplacePair(ReplacePair(encoded, '~', '1', '/'), '~', '0', '~')
  }

  /** `text.split(separator)`. */
  function Split(text: string, separator: char): (parts: seq<string>)
    ensures parts != []
  {
    if text == [] then [""]
    else
      var front := Split(text[..|text| - 1], separator);
      var last := text[|text| - 1];
      if last == separator then front + [""]
      else front[..|front| - 1] + [front[|front| - 1] + [last]]
  }

  /** The decoded reference tokens of a pointer. */
  function Keys(path: string): seq<string> {
    var encoded := Split(path, '/')[1..];
    seq(|encoded|, i requires 0 <= i < |encoded| => Decode(encoded[i]))
  }

  // ----- round trip -----

  /** What the first pass leaves: tildes still escaped, slashes restored. */
  function HalfEscape(key: string): string {
    if key == [] then [] else (if key[0] == '~' then "~0" else [key[0]]) + HalfEscape(key[1..])
  }

  lemma MiddleOf(key: string, n: nat)
    requires |key| == n + 1 && n > 0
    ensures key[..n] != [] && key[..n][0] == key[0] && key[..n][1..] == key[1..][..n - 1]
    ensures |key[1..]| == n && key[1..][n - 1] == key[n]
  {
  }

  lemma {:induction false} EscapeFront(key: string)
    requires key != []
    ensures Escape(key) == EscapeChar(key[0]) + Escape(key[1..])
  {
    var n := |key| - 1;
    if n > 0 {
      MiddleOf(key, n);
      EscapeFront(key[..n]);
      var first, middle, last := EscapeChar(key[0]), Escape(key[1..][..n - 1]), EscapeChar(key[n]);
      assert Escape(key) == first + middle + last;
      assert Escape(key[1..]) == middle + last;
      assert first + middle + last == first + (middle + last);
    }
  }

  lemma PairHit(a: char, b: char, c: char, rest: string)
    ensures ReplacePair([a, b] + rest, a, b, c) == [c] + ReplacePair(rest, a, b, c)
  {
    assert ([a, b] + rest)[2..] == rest;
  }

  lemma PairMiss(x: char, a: char, b: char, c: char, rest: string)
    requires x != a || rest == [] || rest[0] != b
    ensures ReplacePair([x] + rest, a, b, c) == [x] + ReplacePair(rest, a, b, c)
  {
    assert ([x] + rest)[1..] == rest;
  }

  lemma FirstPassStep(c: char, rest: string)
    ensures ReplacePair(EscapeChar(c) + rest, '~', '1', '/')
            == (if c == '~' then "~0" else [c]) + ReplacePair(rest, '~', '1', '/')
  {
    var done := ReplacePair(rest, '~', '1', '/');
    if c == '~' {
      PairMiss('0', '~', '1', '/', rest);
      PairMiss('~', '~', '1', '/', ['0'] + rest);
      assert "~0" + rest == ['~'] + (['0'] + rest);
      assert "~0" + done == ['~'] + (['0'] + done);
    } else if c == '/' {
      PairHit('~', '1', '/', rest);
    } else {
      PairMiss(c, '~', '1', '/', rest);
    }
  }

  lemma {:induction false} FirstPass(key: string)
    ensures ReplacePair(Escape(key), '~', '1', '/') == HalfEscape(key)
  {
    if key != [] {
      EscapeFront(key);
      FirstPassStep(key[0], Escape(key[1..]));
      FirstPass(key[1..]);
    }
  }

  lemma {:induction false} SecondPass(key: string)
    ensures ReplacePair(HalfEscape(key), '~', '0', '~') == key
  {
    if key != [] {
      SecondPass(key[1..]);
      var rest := HalfEscape(key[1..]);
      assert key == [key[0]] + key[1..];
      if key[0] == '~' {
        PairHit('~', '0', '~', rest);
      } else {
        PairMiss(key[0], '~', '0', '~', rest);
      }
    }
  }

  lemma DecodeEscape(key: string)
    ensures Decode(Escape(key)) == key
  {
    FirstPass(key);
    SecondPass(key);
  }

  lemma {:induction false} EscapeHasNoSlash(key: string)
    ensures '/' !in Escape(key)
  {
    if key != [] { EscapeHasNoSlash(key[..|key| - 1]); }
  }

  /** A separator starts a new part, and text without one extends the last part. */
  lemma {:induction false} SplitAppend(text: string, part: string, separator: char)
    requires separator !in part
    ensures Split(text + [separator] + part, separator) == Split(text, separator) + [part]
  {
    var whole := text + [separator] + part;
    if part == [] {
      assert whole[..|whole| - 1] == text;
    } else {
      var n := |part| - 1;
      assert whole[..|whole| - 1] == text + [separator] + part[..n];
      SplitAppend(text, part[..n], separator);
      assert part == part[..n] + [part[n]];
      var front := Split(text, separator) + [part[..n]];
      assert front[..|front| - 1] == Split(text, separator);
    }
  }

  function EscapeAll(keys: seq<string>): (r: seq<string>)
    ensures |r| == |keys|
  {
    seq(|keys|, i requires 0 <= i < |keys| => Escape(keys[i]))
  }

  lemma {:induction false} SplitPrint(keys: seq<string>)
    ensures Split(Print(keys), '/') == [""] + EscapeAll(keys)
  {
    if keys != [] {
      var n := |keys| - 1;
      SplitPrint(keys[..n]);
      SplitLastKey(keys);
      EscapeAllLast(keys);
    }
  }

  lemma EscapeAllLast(keys: seq<string>)
    requires keys != []
    ensures var n := |keys| - 1; [""] + EscapeAll(keys) == [""] + EscapeAll(keys[..n]) + [Escape(keys[n])]
  {
    assert EscapeAll(keys) == EscapeAll(keys[..|keys| - 1]) + [Escape(keys[|keys| - 1])];
  }

  lemma SplitLastKey(keys: seq<string>)
    requires keys != []
    ensures var n := |keys| - 1; Split(Print(keys), '/') == Split(Print(keys[..n]), '/') + [Escape(keys[n])]
  {
    var n := |keys| - 1;
    EscapeHasNoSlash(keys[n]);
    SplitAppend(Print(keys[..n]), Escape(keys[n]), '/');
  }

  /** Splitting and decoding a printed pointer recovers exactly the keys. */
  lemma RoundTrip(keys: seq<string>)
    ensures Keys(Print(keys)) == keys
  {
    SplitPrint(keys);
    assert Split(Print(keys), '/')[1..] == EscapeAll(keys);
    forall i | 0 <= i < |keys| ensures Decode(EscapeAll(keys)[i]) == keys[i] {
      DecodeEscape(keys[i]);
    }
  }

  /** So different key lists print differently. */
  lemma PrintInjective(a: seq<string>, b: seq<string>)
    requires Print(a) == Print(b)
    ensures a == b
  {
    RoundTrip(a);
    RoundTrip(b);
  }

  // ----- walking -----

  function Digit(n: nat): char
    requires n < 10
  {
    '0' + n as char
  }

  /** `String(n)` for an index. */
  function Decimal(n: nat): string {
    if n < 10 then [Digit(n)] else Decimal(n / 10) + [Digit(n % 10)]
  }

  lemma {:induction false} DecimalInjective(a: nat, b: nat)
    requires Decimal(a) == Decimal(b)
    ensures a == b
  {
    DecimalNotEmpty(a / 10);
    DecimalNotEmpty(b / 10);
    var text := Decimal(a);
    assert text[|text| - 1] == Digit(a % 10) == Digit(b % 10);
    if a >= 10 && b >= 10 {
      assert text[..|text| - 1] == Decimal(a / 10) == Decimal(b / 10);
      DecimalInjective(a / 10, b / 10);
    }
  }

  lemma DecimalNotEmpty(n: nat)
    ensures |Decimal(n)| >= 1
  {
  }

  /** The own property `key` of a value (`Object.hasOwn` and the read after it). */
  ghost function Member(value: Json, key: string): Option<Json> {
    match value
    case Obj(fields) => if key in fields then Some(fields[key]) else None
    case Arr(items) =>
      if exists i: nat :: i < |items| && Decimal(i) == key then
        var i: nat :| i < |items| && Decimal(i) == key;
        Some(items[i])
      else if key == "length" then Some(Num(Finite(|items| as real)))
      else None
    case _ => None
  }

  lemma MemberAtIndex(items: seq<Json>, i: nat)
    requires i < |items|
    ensures Member(Arr(items), Decimal(i)) == Some(items[i])
  {
    var j: nat :| j < |items| && Decimal(j) == Decimal(i);
    forall k: nat | k < |items| && Decimal(k) == Decimal(i) ensures k == i { DecimalInjective(k, i); }
  }

  /** The value reached through `keys`, if every key on the way exists. */
  ghost function Walk(value: Json, keys: seq<string>): Option<Json> {
    if keys == [] then Some(value)
    else
      match Walk(value, keys[..|keys| - 1])
      case None => None
      case Some(parent) => Member(parent, keys[|keys| - 1])
  }

  lemma WalkFurther(value: Json, keys: seq<string>, i: nat)
    requires i < |keys|
    ensures var parent := Walk(value, keys[..i]);
            Walk(value, keys[..i + 1]) == if parent.Some? then Member(parent.value, keys[i]) else None
  {
    assert keys[..i + 1][..i] == keys[..i];
  }

  /** The `hasOwn` test and the property read, for the walk below. */
  method ReadMember(value: Json, key: string) returns (r: Option<Json>)
    ensures r == Member(value, key)
  {
    match value {
      case Obj(fields) => r := if key in fields then Some(fields[key]) else None;
      case Arr(items) =>
        for i := 0 to |items|
          invariant forall j: nat :: j < i ==> Decimal(j) != key
        {
          if Decimal(i) == key {
            MemberAtIndex(items, i);
            return Some(items[i]);
          }
        }
        r := if key == "length" then Some(Num(Finite(|items| as real))) else None;
      case _ => r := None;
    }
  }

  /** `publicValue`: drops the undo data of every object, at any depth. */
  function Public(value: Json): Json {
    match value
    case Arr(items) => Arr(seq(|items|, i requires 0 <= i < |items| => Public(items[i])))
    case Obj(fields) => Obj(map key | key in fields && key != "undoData" :: Public(fields[key]))
    case _ => value
  }

  ghost predicate HidesUndo(value: Json) {
    match value
    case Arr(items) => forall i :: 0 <= i < |items| ==> HidesUndo(items[i])
    case Obj(fields) => "undoData" !in fields && forall key :: key in fields ==> HidesUndo(fields[key])
    case _ => true
  }

  /** Redaction leaves no undo data behind and changes nothing else. */
  lemma {:induction false} PublicHidesExactlyUndo(value: Json)
    ensures HidesUndo(Public(value))
    ensures HidesUndo(value) ==> Public(value) == value
  {
    match value
    case Arr(items) =>
      forall i | 0 <= i < |items|
        ensures HidesUndo(Public(items[i])) && (HidesUndo(items[i]) ==> Public(items[i]) == items[i])
      {
        PublicHidesExactlyUndo(items[i]);
      }
    case Obj(fields) =>
      forall key | key in fields
        ensures HidesUndo(Public(fields[key])) && (HidesUndo(fields[key]) ==> Public(fields[key]) == fields[key])
      {
        PublicHidesExactlyUndo(fields[key]);
      }
    case _ =>
  }

  function PublicOf(value: Option<Json>): Option<Json> {
    match value
    case None => None
    case Some(v) => Some(Public(v))
  }

  lemma PublicMember(value: Json, key: string)
    requires key != "undoData"
    ensures Member(Public(value), key) == PublicOf(Member(value, key))
  {
    if value.Arr? {
      var items := value.items;
      if i: nat :| i < |items| && Decimal(i) == key {
        MemberAtIndex(items, i);
        MemberAtIndex(Public(value).items, i);
      }
    }
  }

  /** Below every key but the undo data, redaction keeps what was there, redacted in turn. */
  lemma {:induction false} PublicKeepsRest(value: Json, keys: seq<string>)
    requires "undoData" !in keys
    ensures Walk(Public(value), keys) == PublicOf(Walk(value, keys))
  {
    if keys != [] {
      var n := |keys| - 1;
      assert keys[n] in keys;
      PublicKeepsRest(value, keys[..n]);
      if Walk(value, keys[..n]).Some? { PublicMember(Walk(value, keys[..n]).value, keys[n]); }
    }
  }

  /** `at`: follows a pointer while its keys exist, then redacts what it found. */
  method At(root: Json, wasPresent: bool, path: string) returns (present: bool, value: Json)
    ensures present == (wasPresent && Walk(root, Keys(path)).Some?)
    ensures present ==> value == Public(Walk(root, Keys(path)).value)
    ensures !present && Keys(path) != [] ==> value == Opaque("undefined")
  {
    value, present := root, wasPresent;
    var keys := Keys(path);
    for i := 0 to |keys|
      invariant present == (wasPresent && Walk(root, keys[..i]).Some?)
      invariant present ==> value == Walk(root, keys[..i]).value
      invariant !present && i > 0 ==> value == Opaque("undefined")
    {
      WalkFurther(root, keys, i);
      var member := ReadMember(value, keys[i]);
      present := present && member.Some?;
      value := if present then member.value else Opaque("undefined");
    }
    assert keys[..|keys|] == keys;
    value := Public(value);
  }

  /** Walking a printed pointer reaches the value its keys name. */
  lemma WalkPrinted(root: Json, keys: seq<string>)
    ensures Walk(root, Keys(Print(keys))) == Walk(root, keys)
  {
    RoundTrip(keys);
  }

  // ----- the escapes and the decimal indices -----

  /** Section 3 of RFC 6901: a tilde becomes ~0, a slash ~1, and nothing else changes. */
  lemma {:induction false} EscapesAre(before: string, c: char, after: string)
    ensures c == '~' ==> Escape(before + [c] + after) == Escape(before) + "~0" + Escape(after)
    ensures c == '/' ==> Escape(before + [c] + after) == Escape(before) + "~1" + Escape(after)
    ensures c != '~' && c != '/' ==> Escape(before + [c] + after) == Escape(before) + [c] + Escape(after)
  {
    EscapeAppend(before + [c], after);
    EscapeAppend(before, [c]);
    assert [c][..0] == [];
  }

  lemma EscapeLast(text: string, c: char)
    ensures Escape(text + [c]) == Escape(text) + EscapeChar(c)
  {
    assert (text + [c])[..|text|] == text;
  }

  lemma Regroup(a: string, b: string, c: string)
    ensures (a + b) + c == a + (b + c)
  {
  }

  lemma EscapeStep(a: string, front: string, c: char)
    requires Escape(a + front) == Escape(a) + Escape(front)
    ensures Escape(a + (front + [c])) == Escape(a) + Escape(front + [c])
  {
    EscapeLast(front, c);
    EscapeLast(a + front, c);
    Regroup(a, front, [c]);
    Regroup(Escape(a), Escape(front), EscapeChar(c));
  }

  lemma {:induction false} EscapeAppend(a: string, b: string)
    ensures Escape(a + b) == Escape(a) + Escape(b)
  {
    if b == [] {
      assert a + b == a;
    } else {
      var front := b[..|b| - 1];
      EscapeAppend(a, front);
      EscapeStep(a, front, b[|b| - 1]);
      assert front + [b[|b| - 1]] == b;
    }
  }

  /** The number that decimal digits denote. */
  function NumberOf(text: string): int {
    if text == [] then 0 else 10 * NumberOf(text[..|text| - 1]) + (text[|text| - 1] as int - '0' as int)
  }

  /** An array index is printed in decimal digits, without leading zeros. */
  lemma {:induction false} DecimalMeans(n: nat)
    ensures NumberOf(Decimal(n)) == n
    ensures forall i :: 0 <= i < |Decimal(n)| ==> '0' <= Decimal(n)[i] <= '9'
    ensures |Decimal(n)| > 1 ==> Decimal(n)[0] != '0'
  {
    if n < 10 {
      assert [Digit(n)][..0] == [];
    } else {
      DecimalMeans(n / 10);
      DecimalNotEmpty(n / 10);
      assert Decimal(n)[..|Decimal(n)| - 1] == Decimal(n / 10);
      assert Decimal(n)[0] == Decimal(n / 10)[0];
      if |Decimal(n / 10)| == 1 { assert n / 10 == NumberOf(Decimal(n / 10)); }
    }
  }
}
