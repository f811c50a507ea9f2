/** What the definition of a generated alias holds once it is expanded
    (scripts/scheduling-profile/parity.ts), told by the texts alone. */
module AliasExpansion {
  import opened AliasRegistry
  import opened AliasResolution
  import opened AliasRewriter
  import opened Wrappers

  // ----- references in a text -----

  /** A match of the pending pattern: the marker and 64 hexadecimal digits. */
  predicate IsReference(text: string) {
    && |text| == |"@pending:"| + 64
    && text[..|"@pending:"|] == "@pending:"
    && forall i :: |"@pending:"| <= i < |text| ==> text[i] in "0123456789abcdef"
  }

  lemma PendingIsReference(value: string, i: nat)
    ensures PendingAt(value, i) <==> i + 73 <= |value| && IsReference(value[i..i + 73])
  {
    if i + 73 <= |value| {
      var text := value[i..i + 73];
      assert text[..9] == value[i..i + 9];
      assert forall j :: 9 <= j < 73 ==> text[j] == value[i + j];
      assert forall j :: i + 9 <= j < i + 73 ==> value[j] == text[j - i];
    }
  }

  /** A known reference starts at `i`. */
  predicate KnownAt(known: set<string>, value: string, i: nat) {
    i + 73 <= |value| && IsReference(value[i..i + 73]) && value[i..i + 73] in known
  }

  lemma MarkerFirst(value: string, i: nat)
    requires PendingAt(value, i)
    ensures value[i] == '@'
  {
    assert value[i] == value[i..i + |PENDING|][0];
  }

  lemma MarkerOnlyFirst(value: string, i: nat, j: nat)
    requires PendingAt(value, i) && i < j < i + REFERENCE_LENGTH
    ensures value[j] != '@'
  {
    if j < i + |PENDING| { assert value[j] == value[i..i + |PENDING|][j - i] == PENDING[j - i]; }
  }

  /** Two matches of the pattern do not overlap: no match has an '@' after its first character. */
  lemma NoOverlap(value: string, i: nat, j: nat)
    requires PendingAt(value, i) && i < j < i + REFERENCE_LENGTH
    ensures !PendingAt(value, j)
  {
    MarkerOnlyFirst(value, i, j);
    if PendingAt(value, j) { MarkerFirst(value, j); }
  }

  // ----- splitting a text at its references -----

  /** `parts` cuts `value` at its known references: literal text without any, alternating with them. */
  ghost predicate Cuts(known: set<string>, value: string, parts: seq<Token>)
    decreases |parts|
  {
    && parts != [] && parts[0].Literal?
    && (forall i: nat :: !KnownAt(known, parts[0].text, i))
    && if |parts| == 1 then value == parts[0].text
       else
         var n := |parts[0].text|;
         && |parts| > 2 && parts[1].Ref? && KnownAt(known, value, n)
         && value[..n] == parts[0].text && value[n..n + 73] == parts[1].reference
         && Cuts(known, value[n + 73..], parts[2..])
  }

  /** No known reference starts between `from` and `at`. */
  ghost predicate NoneBetween(known: set<string>, value: string, from: nat, at: nat) {
    forall i: nat :: from <= i < at ==> !KnownAt(known, value, i)
  }

  lemma SliceOfSlice(value: string, from: nat, at: nat, i: nat, j: nat)
    requires from <= at <= |value| && i <= j && from + j <= at
    ensures value[from..at][i..j] == value[from + i..from + j]
  {
    var a, b := value[from..at][i..j], value[from + i..from + j];
    assert forall k :: 0 <= k < j - i ==> a[k] == value[from + i + k] == b[k];
  }

  lemma KnownInSlice(known: set<string>, value: string, from: nat, at: nat, i: nat)
    requires from <= at <= |value| && KnownAt(known, value[from..at], i)
    ensures from + i < at && KnownAt(known, value, from + i)
  {
    SliceOfSlice(value, from, at, i, i + 73);
  }

  lemma LiteralHasNone(known: set<string>, value: string, from: nat, at: nat)
    requires from <= at <= |value| && NoneBetween(known, value, from, at)
    ensures forall i: nat :: !KnownAt(known, value[from..at], i)
  {
    forall i: nat ensures !KnownAt(known, value[from..at], i) {
      if KnownAt(known, value[from..at], i) { KnownInSlice(known, value, from, at, i); }
    }
  }

  lemma PassOver(known: set<string>, value: string, from: nat, at: nat)
    requires from <= at < |value| && NoneBetween(known, value, from, at) && !KnownAt(known, value, at)
    ensures NoneBetween(known, value, from, at + 1)
    ensures PendingAt(value, at) ==> NoneBetween(known, value, from, at + 73)
  {
    if PendingAt(value, at) {
      forall i: nat | from <= i < at + 73 ensures !KnownAt(known, value, i) {
        if at < i {
          NoOverlap(value, at, i);
          PendingIsReference(value, i);
        }
      }
    }
  }

  lemma TokensSkip(known: set<string>, value: string, from: nat, at: nat)
    requires from <= at < |value| && !KnownAt(known, value, at)
    ensures var next := if PendingAt(value, at) then at + 73 else at + 1;
            next <= |value| && Tokens(known, value, from, at) == Tokens(known, value, from, next)
  {
    PendingIsReference(value, at);
  }

  lemma TokensFind(known: set<string>, value: string, from: nat, at: nat)
    requires from <= at < |value| && KnownAt(known, value, at)
    ensures Tokens(known, value, from, at)
            == [Literal(value[from..at]), Ref(value[at..at + 73])] + Tokens(known, value, at + 73, at + 73)
  {
    PendingIsReference(value, at);
  }

  lemma CutsMore(known: set<string>, value: string, from: nat, at: nat, rest: seq<Token>)
    requires from <= at < |value| && KnownAt(known, value, at) && NoneBetween(known, value, from, at)
    requires Cuts(known, value[at + 73..], rest)
    ensures Cuts(known, value[from..], [Literal(value[from..at]), Ref(value[at..at + 73])] + rest)
  {
    var text, n := value[from..], at - from;
    LiteralHasNone(known, value, from, at);
    SliceOfSlice(value, from, |value|, 0, n);
    SliceOfSlice(value, from, |value|, n, n + 73);
    SliceOfSlice(value, from, |value|, n + 73, |text|);
    assert value[from..|value|] == text && text[n + 73..|text|] == text[n + 73..] && value[at + 73..|value|] == value[at + 73..];
    assert text[0..n] == text[..n];
    var parts := [Literal(value[from..at]), Ref(value[at..at + 73])] + rest;
    assert parts[2..] == rest;
  }

  /** The tokens of a text are such a cut. */
  lemma {:induction false} TokensCut(known: set<string>, value: string, from: nat, at: nat)
    requires from <= at <= |value| && NoneBetween(known, value, from, at)
    ensures Cuts(known, value[from..], Tokens(known, value, from, at))
    decreases |value| - at
  {
    if at == |value| {
      LiteralHasNone(known, value, from, at);
      assert value[from..at] == value[from..];
    } else if KnownAt(known, value, at) {
      TokensCut(known, value, at + 73, at + 73);
      TokensFind(known, value, from, at);
      CutsMore(known, value, from, at, Tokens(known, value, at + 73, at + 73));
    } else {
      PassOver(known, value, from, at);
      TokensSkip(known, value, from, at);
      TokensCut(known, value, from, if PendingAt(value, at) then at + 73 else at + 1);
    }
  }

  lemma LiteralIsFree(known: set<string>, value: string, text: string, i: nat)
    requires |text| <= |value| && value[..|text|] == text && i + 73 <= |text|
    requires forall k: nat :: !KnownAt(known, text, k)
    ensures !KnownAt(known, value, i)
  {
    assert text[i..i + 73] == value[i..i + 73];
    assert !KnownAt(known, text, i);
  }

  /** The first literal of a cut ends at the first known reference. */
  lemma FirstLiteral(known: set<string>, value: string, parts: seq<Token>, i: nat)
    requires Cuts(known, value, parts) && KnownAt(known, value, i)
    ensures |parts| > 2 && |parts[0].text| <= i
    ensures |parts[0].text| < i ==> |parts[0].text| + 73 <= i
  {
    var n := |parts[0].text|;
    PendingIsReference(value, i);
    if i + 73 <= n {
      LiteralIsFree(known, value, parts[0].text, i);
    } else if i < n {
      PendingIsReference(value, n);
      NoOverlap(value, i, n);
    } else if n < i < n + 73 {
      PendingIsReference(value, n);
      NoOverlap(value, n, i);
    }
  }

  /** A text has only one cut. */
  lemma {:induction false} CutUnique(known: set<string>, value: string, a: seq<Token>, b: seq<Token>)
    requires Cuts(known, value, a) && Cuts(known, value, b)
    ensures a == b
    decreases |a|
  {
    if |a| > 1 { FirstLiteral(known, value, b, |a[0].text|); }
    if |b| > 1 { FirstLiteral(known, value, a, |b[0].text|); }
    if |a| > 1 {
      var n := |a[0].text|;
      assert a[0] == b[0] && a[1] == b[1];
      CutUnique(known, value[n + 73..], a[2..], b[2..]);
      assert a == [a[0], a[1]] + a[2..] && b == [b[0], b[1]] + b[2..];
    }
  }

  /** So the tokens of a text are its cut. */
  lemma TokensAreTheCut(known: set<string>, value: string, parts: seq<Token>)
    ensures Cuts(known, value, parts) <==> parts == Tokens(known, value, 0, 0)
  {
    TokensCut(known, value, 0, 0);
    assert value[0..] == value;
    if Cuts(known, value, parts) { CutUnique(known, value, parts, Tokens(known, value, 0, 0)); }
  }

  /** `b` is known and stands in the text at `p`. */
  predicate NamedAt(known: set<string>, value: string, b: string, p: nat) {
    KnownAt(known, value, p) && value[p..p + 73] == b
  }

  ghost predicate NamedIn(known: set<string>, value: string, b: string) {
    exists p: nat :: NamedAt(known, value, b, p)
  }

  lemma NamedInRest(known: set<string>, value: string, n: nat, b: string, p: nat)
    requires n <= |value|
    ensures NamedAt(known, value[n..], b, p) <==> NamedAt(known, value, b, n + p)
  {
    ShiftKnown(known, value, n, p);
  }

  lemma NamedFromFirst(known: set<string>, value: string, parts: seq<Token>, b: string, p: nat)
    requires Cuts(known, value, parts) && |parts| > 1 && NamedAt(known, value, b, p)
    ensures var n := |parts[0].text|; (p == n && parts[1] == Ref(b)) || n + 73 <= p
  {
    FirstLiteral(known, value, parts, p);
  }

  lemma NamedInFirstOrRest(known: set<string>, value: string, parts: seq<Token>, b: string)
    requires Cuts(known, value, parts) && |parts| > 1
    ensures NamedIn(known, value, b)
            <==> parts[1] == Ref(b) || NamedIn(known, value[|parts[0].text| + 73..], b)
  {
    if parts[1] == Ref(b) || NamedIn(known, value[|parts[0].text| + 73..], b) { FirstOrRestNamed(known, value, parts, b); }
    if NamedIn(known, value, b) { NamedFirstOrRest(known, value, parts, b); }
  }

  lemma FirstOrRestNamed(known: set<string>, value: string, parts: seq<Token>, b: string)
    requires Cuts(known, value, parts) && |parts| > 1
    requires parts[1] == Ref(b) || NamedIn(known, value[|parts[0].text| + 73..], b)
    ensures NamedIn(known, value, b)
  {
    var n := |parts[0].text|;
    if parts[1] == Ref(b) {
      assert NamedAt(known, value, b, n);
    } else {
      var p: nat :| NamedAt(known, value[n + 73..], b, p);
      NamedInRest(known, value, n + 73, b, p);
    }
  }

  lemma NamedFurther(known: set<string>, value: string, b: string, n: nat, p: nat)
    requires n <= p && NamedAt(known, value, b, p)
    ensures NamedIn(known, value[n..], b)
  {
    NamedInRest(known, value, n, b, p - n);
    assert NamedAt(known, value[n..], b, p - n);
  }

  lemma NamedFirstOrRest(known: set<string>, value: string, parts: seq<Token>, b: string)
    requires Cuts(known, value, parts) && |parts| > 1 && NamedIn(known, value, b)
    ensures parts[1] == Ref(b) || NamedIn(known, value[|parts[0].text| + 73..], b)
  {
    var p: nat :| NamedAt(known, value, b, p);
    NamedFromFirst(known, value, parts, b, p);
    if parts[1] != Ref(b) { NamedFurther(known, value, b, |parts[0].text| + 73, p); }
  }

  lemma RefInParts(parts: seq<Token>, b: string)
    requires |parts| > 1 && parts[0].Literal?
    ensures Ref(b) in parts <==> parts[1] == Ref(b) || Ref(b) in parts[2..]
  {
    assert parts == [parts[0], parts[1]] + parts[2..];
  }

  /** Every known reference of the text is one of the parts, and the parts name no other. */
  lemma {:induction false} CutNames(known: set<string>, value: string, parts: seq<Token>, b: string)
    requires Cuts(known, value, parts)
    ensures Ref(b) in parts <==> NamedIn(known, value, b)
    decreases |parts|
  {
    if |parts| > 1 {
      CutNames(known, value[|parts[0].text| + 73..], parts[2..], b);
      NamedInFirstOrRest(known, value, parts, b);
      RefInParts(parts, b);
    } else {
      assert forall p: nat :: !KnownAt(known, parts[0].text, p);
      assert !NamedIn(known, value, b);
    }
  }

  lemma ShiftKnown(known: set<string>, value: string, n: nat, p: nat)
    requires n <= |value|
    ensures KnownAt(known, value[n..], p) <==> KnownAt(known, value, n + p)
    ensures n + p + 73 <= |value| ==> value[n..][p..p + 73] == value[n + p..n + p + 73]
  {
    if n + p + 73 <= |value| {
      SliceOfSlice(value, n, |value|, p, p + 73);
      assert value[n..|value|] == value[n..];
    }
  }

  // ----- the text of a token list -----

  lemma RenderOne(token: Token, resolved: map<string, string>)
    ensures token.Literal? ==> Render([token], resolved) == token.text
    ensures token.Ref? && token.reference in resolved ==> Render([token], resolved) == resolved[token.reference]
    ensures token.Ref? && token.reference !in resolved ==> Render([token], resolved) == token.reference
  {
    assert [token][..0] == [];
  }

  /** The text of a list is the texts of its tokens, one after the other. */
  lemma {:induction false} RenderAppend(a: seq<Token>, b: seq<Token>, resolved: map<string, string>)
    ensures Render(a + b, resolved) == Render(a, resolved) + Render(b, resolved)
  {
    if b == [] {
      assert a + b == a;
    } else {
      var n := |b| - 1;
      var front, last := Render(b[..n], resolved), TextOf(b[n], resolved);
      assert (a + b)[..|a + b| - 1] == a + b[..n] && (a + b)[|a + b| - 1] == b[n];
      RenderAppend(a, b[..n], resolved);
      assert Render(a, resolved) + (front + last) == (Render(a, resolved) + front) + last;
    }
  }

  /** With its references written as themselves a cut reads the text it was made from. */
  lemma {:induction false} CutReadsText(known: set<string>, value: string, parts: seq<Token>)
    requires Cuts(known, value, parts)
    ensures Render(parts, map[]) == value
    decreases |parts|
  {
    if |parts| == 1 {
      assert parts == [parts[0]];
      RenderOne(parts[0], map[]);
    } else {
      var n := |parts[0].text|;
      CutReadsText(known, value[n + 73..], parts[2..]);
      RenderTwo(parts);
      ThreePieces(value, n, n + 73);
    }
  }

  lemma ThreePieces(value: string, lo: nat, hi: nat)
    requires lo <= hi <= |value|
    ensures value == value[..lo] + (value[lo..hi] + value[hi..])
  {
  }

  lemma RenderTwo(parts: seq<Token>)
    requires |parts| > 1 && parts[0].Literal? && parts[1].Ref?
    ensures Render(parts, map[]) == parts[0].text + (parts[1].reference + Render(parts[2..], map[]))
  {
    assert parts == [parts[0]] + ([parts[1]] + parts[2..]);
    RenderAppend([parts[0]], [parts[1]] + parts[2..], map[]);
    RenderAppend([parts[1]], parts[2..], map[]);
    RenderOne(parts[0], map[]);
    RenderOne(parts[1], map[]);
  }

  // ----- what a definition expands to -----

  /** A reference stays; a literal text has its raw IDs replaced and is cut again. */
  ghost predicate Expansion(g: Registry, part: Token, expanded: seq<Token>) {
    match part
    case Ref(_) => expanded == [part]
    case Literal(text) =>
      exists replaced :: Replaces(g.aliases, text, replaced) && Cuts(g.definitions.Keys, replaced, expanded)
  }

  lemma ReplacesOnlyReplaced(aliases: Aliases, value: string, r: string)
    ensures Replaces(aliases, value, r) <==> r == Replaced(aliases, value)
  {
    ReplacedReplaces(aliases, value);
    var pieces := ReadingExists(aliases, value, 0);
  }

  lemma ExpansionIs(g: Registry, part: Token, expanded: seq<Token>)
    ensures Expansion(g, part, expanded) <==> expanded == ExpandToken(g, part)
  {
    if part.Literal? {
      var replaced := Replaced(g.aliases, part.text);
      ReplacesOnlyReplaced(g.aliases, part.text, replaced);
      TokensAreTheCut(g.definitions.Keys, replaced, expanded);
      forall other | Replaces(g.aliases, part.text, other) ensures other == replaced {
        ReplacesOnlyReplaced(g.aliases, part.text, other);
      }
    }
  }

  function Joined(groups: seq<seq<Token>>): seq<Token> {
    if groups == [] then [] else groups[0] + Joined(groups[1..])
  }

  /** The groups expand the parts, one by one. */
  ghost predicate Expansions(g: Registry, parts: seq<Token>, groups: seq<seq<Token>>) {
    |groups| == |parts| && forall i :: 0 <= i < |parts| ==> Expansion(g, parts[i], groups[i])
  }

  lemma {:induction false} ExpandIs(g: Registry, parts: seq<Token>, groups: seq<seq<Token>>)
    requires Expansions(g, parts, groups)
    ensures Expand(g, parts) == Joined(groups)
  {
    if parts != [] {
      ExpansionIs(g, parts[0], groups[0]);
      assert forall i :: 0 <= i < |parts| - 1 ==> parts[1..][i] == parts[i + 1] && groups[1..][i] == groups[i + 1];
      ExpandIs(g, parts[1..], groups[1..]);
    }
  }

  /** The body of a reference: its definition cut at the known references, which stay, while the
      text between them has its raw IDs replaced and is cut again. */
  lemma BodyIs(g: Registry, a: string, parts: seq<Token>, groups: seq<seq<Token>>)
    requires a in g.definitions && Cuts(g.definitions.Keys, g.definitions[a], parts) && Expansions(g, parts, groups)
    ensures Body(g, a) == Joined(groups)
  {
    TokensAreTheCut(g.definitions.Keys, g.definitions[a], parts);
    ExpandIs(g, parts, groups);
  }

  lemma {:induction false} ExpansionsExist(g: Registry, parts: seq<Token>) returns (groups: seq<seq<Token>>)
    ensures Expansions(g, parts, groups)
  {
    groups := seq(|parts|, i requires 0 <= i < |parts| => ExpandToken(g, parts[i]));
    forall i | 0 <= i < |parts| ensures Expansion(g, parts[i], groups[i]) { ExpansionIs(g, parts[i], groups[i]); }
  }

  // ----- what a reference depends on -----

  /** A part names `b`, or its text does once its raw IDs are replaced. */
  ghost predicate Mentions(g: Registry, part: Token, b: string) {
    match part
    case Ref(r) => r == b
    case Literal(text) => exists replaced, p: nat :: Replaces(g.aliases, text, replaced) && StandsAt(b, replaced, p)
  }

  lemma ExpansionMentions(g: Registry, part: Token, b: string)
    requires b in g.definitions && IsReference(b)
    ensures Ref(b) in ExpandToken(g, part) <==> Mentions(g, part, b)
  {
    if part.Literal? {
      var known, replaced := g.definitions.Keys, Replaced(g.aliases, part.text);
      TokensAreTheCut(known, replaced, Tokens(known, replaced, 0, 0));
      CutNames(known, replaced, Tokens(known, replaced, 0, 0), b);
      LiteralMentions(g, part.text, b);
    }
  }

  lemma LiteralMentions(g: Registry, text: string, b: string)
    requires b in g.definitions && IsReference(b)
    ensures NamedIn(g.definitions.Keys, Replaced(g.aliases, text), b) <==> Mentions(g, Literal(text), b)
  {
    var known, replaced := g.definitions.Keys, Replaced(g.aliases, text);
    ReplacesOnlyReplaced(g.aliases, text, replaced);
    forall p: nat ensures NamedAt(known, replaced, b, p) <==> StandsAt(b, replaced, p) { }
    forall other, p: nat | Replaces(g.aliases, text, other) && StandsAt(b, other, p)
      ensures NamedAt(known, replaced, b, p)
    {
      ReplacesOnlyReplaced(g.aliases, text, other);
    }
  }

  lemma {:induction false} ExpandMentions(g: Registry, parts: seq<Token>, b: string)
    requires b in g.definitions && IsReference(b)
    ensures Ref(b) in Expand(g, parts) <==> exists i :: 0 <= i < |parts| && Mentions(g, parts[i], b)
  {
    if parts != [] {
      ExpansionMentions(g, parts[0], b);
      ExpandMentions(g, parts[1..], b);
      if i :| 0 <= i < |parts| && Mentions(g, parts[i], b) && i > 0 { assert Mentions(g, parts[1..][i - 1], b); }
      if i :| 0 <= i < |parts| - 1 && Mentions(g, parts[1..][i], b) { assert Mentions(g, parts[i + 1], b); }
    }
  }

  lemma DependencyIsReference(g: Registry, a: string, b: string)
    requires DependsOn(g, a, b)
    ensures IsReference(b)
  {
    var known, definition := g.definitions.Keys, g.definitions[a];
    ExpandRefs(g, Tokens(known, definition, 0, 0), b, definition);
  }

  lemma TokensRefs(known: set<string>, value: string, b: string)
    requires Ref(b) in Tokens(known, value, 0, 0)
    ensures IsReference(b)
  {
    TokensAreTheCut(known, value, Tokens(known, value, 0, 0));
    CutNames(known, value, Tokens(known, value, 0, 0), b);
  }

  lemma {:induction false} ExpandRefs(g: Registry, parts: seq<Token>, b: string, value: string)
    requires Ref(b) in Expand(g, parts)
             && forall r :: Ref(r) in parts ==> Ref(r) in Tokens(g.definitions.Keys, value, 0, 0)
    ensures IsReference(b)
  {
    if Ref(b) in ExpandToken(g, parts[0]) {
      match parts[0]
      case Ref(r) =>
        assert parts[0] in parts;
        TokensRefs(g.definitions.Keys, value, b);
      case Literal(text) => TokensRefs(g.definitions.Keys, Replaced(g.aliases, text), b);
    } else {
      ExpandRefs(g, parts[1..], b, value);
    }
  }

  /** A reference depends on exactly the references that its definition names, itself or after the
      raw IDs between them have been replaced. */
  lemma DependsIff(g: Registry, a: string, parts: seq<Token>, b: string)
    requires a in g.definitions && Cuts(g.definitions.Keys, g.definitions[a], parts)
    ensures DependsOn(g, a, b)
            <==> b in g.definitions && IsReference(b) && exists i :: 0 <= i < |parts| && Mentions(g, parts[i], b)
  {
    TokensAreTheCut(g.definitions.Keys, g.definitions[a], parts);
    if DependsOn(g, a, b) {
      DependenciesDefined(g, a, b);
      DependencyIsReference(g, a, b);
    }
    if b in g.definitions && IsReference(b) { ExpandMentions(g, parts, b); }
  }

  // ----- late references -----

  /** A hit of a reading puts its alias into the output. */
  lemma {:induction false} OutputHasHit(aliases: Aliases, pieces: seq<Piece>, key: string) returns (p: nat)
    requires Hit(key) in pieces && key in aliases
    ensures StandsAt(aliases[key], OutputOf(aliases, pieces), p)
  {
    var first := OutputOf(aliases, [pieces[0]]);
    OutputUnfolds(aliases, pieces);
    if pieces[0] == Hit(key) {
      p := 0;
      assert first == aliases[key];
    } else {
      var q := OutputHasHit(aliases, pieces[1..], key);
      p := |first| + q;
      var output := OutputOf(aliases, pieces);
      SliceOfSlice(output, |first|, |output|, q, q + |aliases[key]|);
      assert output[|first|..|output|] == OutputOf(aliases, pieces[1..]);
    }
  }

  lemma OutputUnfolds(aliases: Aliases, pieces: seq<Piece>)
    requires pieces != []
    ensures OutputOf(aliases, pieces) == OutputOf(aliases, [pieces[0]]) + OutputOf(aliases, pieces[1..])
    ensures forall key :: pieces[0] == Hit(key) && key in aliases ==> OutputOf(aliases, [pieces[0]]) == aliases[key]
  {
    assert [pieces[0]][1..] == [];
    assert OutputOf(aliases, []) == "";
  }

  /** A text that is a long key itself is read as that one key. */
  lemma ExactIsOneHit(aliases: Aliases, text: string, pieces: seq<Piece>, key: string)
    requires Reads(aliases, text, 0, pieces) && Hit(key) in pieces && text in aliases && |text| >= 8
    ensures key == text
  {
    assert StandsAt(text, text, 0);
    assert Occurs(aliases, text, 0, text);
    assert pieces[0] == Hit(text);
    RestIsRead(aliases, text, 0, pieces);
    assert pieces[1..] == [] by { EndIsRead(aliases, text, pieces[1..]); }
    assert pieces == [pieces[0]];
  }

  lemma EndIsRead(aliases: Aliases, text: string, pieces: seq<Piece>)
    requires Reads(aliases, text, |text|, pieces)
    ensures pieces == []
  {
  }

  lemma {:induction false} HitsAreLong(aliases: Aliases, text: string, position: nat, pieces: seq<Piece>, key: string)
    requires position <= |text| && Reads(aliases, text, position, pieces) && Hit(key) in pieces
    ensures key in aliases && 8 <= |key| <= |text|
    decreases pieces
  {
    if pieces[0] != Hit(key) {
      FirstPiece(aliases, text, position, pieces);
      RestIsRead(aliases, text, position, pieces);
      HitsAreLong(aliases, text, Step(aliases, text, position).1, pieces[1..], key);
    }
  }

  /** A raw ID that stands in the text of a definition makes the reference depend on that ID's
      reference, although the definition was written with the raw ID. */
  lemma LateIdIsDependency(g: Registry, a: string, parts: seq<Token>, i: nat, pieces: seq<Piece>, key: string)
    requires a in g.definitions && Cuts(g.definitions.Keys, g.definitions[a], parts)
    requires i < |parts| && parts[i].Literal? && Reads(g.aliases, parts[i].text, 0, pieces) && Hit(key) in pieces
    requires key in g.aliases && g.aliases[key] in g.definitions && IsReference(g.aliases[key])
    ensures DependsOn(g, a, g.aliases[key])
  {
    var text, b := parts[i].text, g.aliases[key];
    HitsAreLong(g.aliases, text, 0, pieces, key);
    ReplacedReplaces(g.aliases, text);
    var replaced := Replaced(g.aliases, text);
    var p := OutputHasHit(g.aliases, pieces, key);
    if text in g.aliases && g.aliases[text] != "" {
      ExactIsOneHit(g.aliases, text, pieces, key);
      assert StandsAt(b, replaced, 0);
    } else {
      assert StandsAt(b, replaced, p);
    }
    assert Mentions(g, parts[i], b);
    DependsIff(g, a, parts, b);
  }
}
