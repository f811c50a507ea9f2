/** Resolution of the generated-alias dependency graph (scripts/scheduling-profile/parity.ts):
    a memoised depth-first search with cycle, collision and owner checks. */
module AliasResolution {
  import opened AliasRewriter
  import opened AliasRegistry
  import opened Wrappers

  // ----- definitions and what they refer to -----

  predicate IsHex(c: char) {
    '0' <= c <= '9' || 'a' <= c <= 'f'
  }

  const REFERENCE_LENGTH: nat := 73

  /** `/@pending:[a-f0-9]{64}/` matches at `i`. */
  predicate PendingAt(value: string, i: nat) {
    && i + REFERENCE_LENGTH <= |value|
    && value[i..i + |PENDING|] == PENDING
    && forall j :: i + |PENDING| <= j < i + REFERENCE_LENGTH ==> IsHex(value[j])
  }

  datatype Token = Literal(text: string) | Ref(reference: string)

  /** Splits `value[from..]` at the references the dictionary knows; scanning continues at `at`. */
  function Tokens(known: set<string>, value: string, from: nat, at: nat): seq<Token>
    requires from <= at <= |value|
    decreases |value| - at
  {
    if at == |value| then [Literal(value[from..])]
    else if !PendingAt(value, at) then Tokens(known, value, from, at + 1)
    else
      var next := at + REFERENCE_LENGTH;
      var reference := value[at..next];
      if reference in known then
        [Literal(value[from..at]), Ref(reference)] + Tokens(known, value, next, next)
      else Tokens(known, value, from, next)
  }

  /** Literal segments have their raw IDs replaced and are split once more. */
  function Expand(g: Registry, tokens: seq<Token>): seq<Token> {
    if tokens == [] then [] else ExpandToken(g, tokens[0]) + Expand(g, tokens[1..])
  }

  /** A reference stays; the raw IDs of a literal text are replaced by their references. */
  function ExpandToken(g: Registry, token: Token): seq<Token> {
    match token
    case Ref(_) => [token]
    case Literal(text) => Tokens(g.definitions.Keys, Replaced(g.aliases, text), 0, 0)
  }

  lemma ExpandAt(g: Registry, tokens: seq<Token>, i: nat, body: seq<Token>)
    requires i < |tokens| && body + Expand(g, tokens[i..]) == Expand(g, tokens)
    ensures body + ExpandToken(g, tokens[i]) + Expand(g, tokens[i + 1..]) == Expand(g, tokens)
  {
    var part, rest := ExpandToken(g, tokens[i]), Expand(g, tokens[i + 1..]);
    assert tokens[i..][1..] == tokens[i + 1..];
    assert body + (part + rest) == (body + part) + rest;
  }

  /** The definition of a reference as literal text and references. */
  function Body(g: Registry, reference: string): seq<Token>
    requires reference in g.definitions
  {
    Expand(g, Tokens(g.definitions.Keys, g.definitions[reference], 0, 0))
  }

  ghost predicate DependsOn(g: Registry, a: string, b: string) {
    a in g.definitions && Ref(b) in Body(g, a)
  }

  lemma {:induction false} TokensKnown(known: set<string>, value: string, from: nat, at: nat)
    requires from <= at <= |value|
    ensures forall r :: Ref(r) in Tokens(known, value, from, at) ==> r in known
    decreases |value| - at
  {
    if at < |value| {
      if !PendingAt(value, at) {
        TokensKnown(known, value, from, at + 1);
      } else {
        var next := at + REFERENCE_LENGTH;
        TokensKnown(known, value, from, next);
        TokensKnown(known, value, next, next);
      }
    }
  }

  lemma {:induction false} ExpandKnown(g: Registry, tokens: seq<Token>)
    requires forall r :: Ref(r) in tokens ==> r in g.definitions
    ensures forall r :: Ref(r) in Expand(g, tokens) ==> r in g.definitions
  {
    if tokens != [] {
      assert tokens[0] in tokens;
      ExpandKnown(g, tokens[1..]);
      if tokens[0].Literal? {
        TokensKnown(g.definitions.Keys, Replaced(g.aliases, tokens[0].text), 0, 0);
      }
    }
  }

  /** A dependency is always defined: the pattern only counts known references. */
  lemma DependenciesDefined(g: Registry, a: string, b: string)
    requires DependsOn(g, a, b)
    ensures b in g.definitions
  {
    TokensKnown(g.definitions.Keys, g.definitions[a], 0, 0);
    ExpandKnown(g, Tokens(g.definitions.Keys, g.definitions[a], 0, 0));
  }

  // ----- the resolved dictionary -----

  const ALIAS := "@alias:"

  function Compact(hash: string -> string, semantic: string): string {
    ALIAS + hash(semantic)
  }

  /** The text of one token: a reference that is resolved is written as its alias. */
  function TextOf(token: Token, resolved: map<string, string>): string {
    match token
    case Literal(text) => text
    case Ref(r) => if r in resolved then resolved[r] else r
  }

  /** The text of a body once its references are resolved. */
  function Render(tokens: seq<Token>, resolved: map<string, string>): string {
    if tokens == [] then ""
    else
      Render(tokens[..|tokens| - 1], resolved) + TextOf(tokens[|tokens| - 1], resolved)
  }

  lemma {:induction false} RenderAgrees(tokens: seq<Token>, a: map<string, string>, b: map<string, string>, n: nat)
    requires n <= |tokens|
    requires forall i :: 0 <= i < n && tokens[i].Ref? ==>
               var r := tokens[i].reference; r in a && r in b && a[r] == b[r]
    ensures Render(tokens[..n], a) == Render(tokens[..n], b)
  {
    if n > 0 {
      assert tokens[..n][..n - 1] == tokens[..n - 1];
      RenderAgrees(tokens, a, b, n - 1);
    }
  }

  lemma RenderStable(tokens: seq<Token>, a: map<string, string>, b: map<string, string>)
    requires forall r :: Ref(r) in tokens ==> r in a && r in b && a[r] == b[r]
    ensures Render(tokens, a) == Render(tokens, b)
  {
    forall i | 0 <= i < |tokens| && tokens[i].Ref?
      ensures var r := tokens[i].reference; r in a && r in b && a[r] == b[r]
    {
      assert Ref(tokens[i].reference) in tokens;
    }
    RenderAgrees(tokens, a, b, |tokens|);
    assert tokens[..|tokens|] == tokens;
  }

  ghost predicate Extends(before: map<string, string>, after: map<string, string>) {
    forall k :: k in before ==> k in after && after[k] == before[k]
  }

  /** The first `i` tokens are resolved and read `text`. */
  ghost predicate Rendered(tokens: seq<Token>, i: nat, resolved: map<string, string>, text: string) {
    && i <= |tokens|
    && (forall r :: Ref(r) in tokens[..i] ==> r in resolved)
    && text == Render(tokens[..i], resolved)
  }

  lemma RenderNext(tokens: seq<Token>, i: nat, before: map<string, string>, after: map<string, string>, text: string)
    requires Rendered(tokens, i, before, text) && i < |tokens| && Extends(before, after)
    requires tokens[i].Ref? ==> tokens[i].reference in after
    ensures Rendered(tokens, i + 1, after,
                     text + match tokens[i] case Literal(t) => t case Ref(r) => after[r])
  {
    assert tokens[..i + 1][..i] == tokens[..i];
    assert tokens[..i + 1] == tokens[..i] + [tokens[i]];
    RenderStable(tokens[..i], before, after);
  }

  /** The maps the search fills: reference to alias, alias to meaning, meaning to raw ID. */
  datatype Dictionary = Dictionary(
    resolved: map<string, string>,
    semantics: map<string, string>,
    owners: map<string, string>)

  const NOTHING := Dictionary(map[], map[], map[])

  function Meaning(g: Registry, resolved: map<string, string>, reference: string): string
    requires reference in g.definitions
  {
    Render(Body(g, reference), resolved)
  }

  /** One resolved reference satisfies its defining equation and passed every check. */
  ghost predicate Resolved(hash: string -> string, g: Registry, ownerOf: map<string, string>, d: Dictionary,
                           r: string) {
    && r in g.definitions && r in d.resolved
    && (forall b :: DependsOn(g, r, b) ==> b in d.resolved)
    && var meaning := Meaning(g, d.resolved, r);
       && d.resolved[r] == Compact(hash, meaning)
       && d.resolved[r] in d.semantics && d.semantics[d.resolved[r]] == meaning
       && r in ownerOf && meaning in d.owners && d.owners[meaning] == ownerOf[r]
  }

  /** `finished` lists the resolved references, dependencies first. */
  ghost predicate Sound(hash: string -> string, g: Registry, ownerOf: map<string, string>, d: Dictionary,
                        finished: seq<string>) {
    && (forall r :: r in d.resolved <==> r in finished)
    && (forall r :: r in d.resolved ==> Resolved(hash, g, ownerOf, d, r))
    && Layered(g, finished)
  }

  ghost predicate Layered(g: Registry, finished: seq<string>) {
    forall i, b :: 0 <= i < |finished| && DependsOn(g, finished[i], b) ==> b in finished[..i]
  }

  /** The owner map inverts the alias map. */
  ghost predicate Owns(g: Registry, ownerOf: map<string, string>) {
    forall r :: r in ownerOf ==> ownerOf[r] in g.aliases && g.aliases[ownerOf[r]] == r
  }

  /** Different references never share a compact alias. */
  lemma ResolvedInjective(hash: string -> string, g: Registry, ownerOf: map<string, string>, d: Dictionary,
                          finished: seq<string>)
    requires Sound(hash, g, ownerOf, d, finished) && Owns(g, ownerOf)
    ensures Injective(d.resolved)
  {
    forall a, b | a in d.resolved && b in d.resolved && d.resolved[a] == d.resolved[b] ensures a == b {
      assert Resolved(hash, g, ownerOf, d, a) && Resolved(hash, g, ownerOf, d, b);
      assert g.aliases[ownerOf[a]] == a && g.aliases[ownerOf[b]] == b;
    }
  }

  lemma ResolvedNotEmpty(hash: string -> string, g: Registry, ownerOf: map<string, string>, d: Dictionary, r: string)
    requires r in d.resolved ==> Resolved(hash, g, ownerOf, d, r)
    ensures r in d.resolved ==> d.resolved[r] != ""
  {
  }

  /** The checks at the end of `resolveReference`, on values. */
  function Settle(hash: string -> string, ownerOf: map<string, string>, d: Dictionary, r: string,
                  semantic: string): Result<Dictionary, Error> {
    var compact := Compact(hash, semantic);
    if compact in d.semantics && d.semantics[compact] != semantic then Failure(AliasCollision)
    else if r !in ownerOf then Failure(MissingOwner)
    else if semantic in d.owners && d.owners[semantic] != ownerOf[r] then Failure(AmbiguousResolved)
    else Success(Dictionary(d.resolved[r := compact], d.semantics[compact := semantic], d.owners[semantic := ownerOf[r]]))
  }

  lemma SettleSound(hash: string -> string, g: Registry, ownerOf: map<string, string>, d: Dictionary,
                    finished: seq<string>, r: string)
    requires Sound(hash, g, ownerOf, d, finished)
    requires r in g.definitions && r !in d.resolved
    requires forall b :: DependsOn(g, r, b) ==> b in d.resolved
    requires Settle(hash, ownerOf, d, r, Meaning(g, d.resolved, r)).Success?
    ensures Sound(hash, g, ownerOf, Settle(hash, ownerOf, d, r, Meaning(g, d.resolved, r)).value, finished + [r])
  {
    var next := Settle(hash, ownerOf, d, r, Meaning(g, d.resolved, r)).value;
    var longer := finished + [r];
    assert forall x :: x in longer <==> x in finished || x == r;
    forall i, b | 0 <= i < |longer| && DependsOn(g, longer[i], b) ensures b in longer[..i] {
      if i < |finished| { assert longer[..i] == finished[..i]; } else { assert longer[..i] == finished; }
    }
    forall x | x in next.resolved ensures Resolved(hash, g, ownerOf, next, x) {
      SettleKeeps(hash, g, ownerOf, d, r, x);
    }
  }

  lemma SettleKeeps(hash: string -> string, g: Registry, ownerOf: map<string, string>, d: Dictionary, r: string,
                    x: string)
    requires r in g.definitions && r !in d.resolved && (x == r || Resolved(hash, g, ownerOf, d, x))
    requires forall b :: DependsOn(g, r, b) ==> b in d.resolved
    requires Settle(hash, ownerOf, d, r, Meaning(g, d.resolved, r)).Success?
    ensures Resolved(hash, g, ownerOf, Settle(hash, ownerOf, d, r, Meaning(g, d.resolved, r)).value, x)
  {
    var next := Settle(hash, ownerOf, d, r, Meaning(g, d.resolved, r)).value;
    forall b | Ref(b) in Body(g, x) ensures b in d.resolved && b in next.resolved && d.resolved[b] == next.resolved[b] {
      assert DependsOn(g, x, b);
    }
    RenderStable(Body(g, x), d.resolved, next.resolved);
  }

  // ----- cycles -----

  ghost predicate IsPath(g: Registry, path: seq<string>) {
    forall i :: 0 <= i < |path| - 1 ==> DependsOn(g, path[i], path[i + 1])
  }

  ghost predicate HasCycle(g: Registry) {
    exists path: seq<string> :: |path| >= 2 && IsPath(g, path) && path[0] == path[|path| - 1]
  }

  function Position(s: seq<string>, x: string): (i: nat)
    requires x in s
    ensures i < |s| && s[i] == x && x !in s[..i]
  {
    if s[0] == x then 0 else 1 + Position(s[1..], x)
  }

  /** Along a path the position in a layered order only goes down. */
  lemma {:induction false} PathDescends(g: Registry, order: seq<string>, path: seq<string>, n: nat)
    requires Layered(g, order) && IsPath(g, path) && 0 < n < |path|
    requires path[0] in order
    ensures path[n] in order && Position(order, path[n]) < Position(order, path[0])
  {
    if n > 1 { PathDescends(g, order, path, n - 1); }
    var i := Position(order, path[n - 1]);
    assert DependsOn(g, order[i], path[n]);
    assert path[n] in order[..i];
    var j :| 0 <= j < i && order[j] == path[n];
    PositionFirst(order, path[n], j);
  }

  lemma {:induction false} PositionFirst(s: seq<string>, x: string, j: nat)
    requires j < |s| && s[j] == x
    ensures x in s && Position(s, x) <= j
  {
    if s[0] != x { PositionFirst(s[1..], x, j - 1); }
  }

  /** A graph whose references can all be layered has no cycle. */
  lemma LayeredAcyclic(g: Registry, order: seq<string>)
    requires Layered(g, order) && forall r :: r in g.definitions ==> r in order
    ensures !HasCycle(g)
  {
    forall path: seq<string> | |path| >= 2 && IsPath(g, path) && path[0] == path[|path| - 1] ensures false {
      assert DependsOn(g, path[0], path[1]);
      PathDescends(g, order, path, |path| - 1);
    }
  }

  // ----- solutions -----

  /** `resolved` gives each reference of `order` the alias of its meaning, dependencies first. */
  ghost predicate Solves(hash: string -> string, g: Registry, resolved: map<string, string>, order: seq<string>) {
    && (forall r :: r in resolved <==> r in order)
    && (forall r :: r in resolved ==> SolvedAt(hash, g, resolved, r))
    && Layered(g, order)
  }

  ghost predicate SolvedAt(hash: string -> string, g: Registry, resolved: map<string, string>, r: string) {
    && r in g.definitions && r in resolved
    && (forall b :: DependsOn(g, r, b) ==> b in resolved)
    && resolved[r] == Compact(hash, Meaning(g, resolved, r))
  }

  lemma SoundSolves(hash: string -> string, g: Registry, ownerOf: map<string, string>, d: Dictionary,
                    finished: seq<string>)
    requires Sound(hash, g, ownerOf, d, finished)
    ensures Solves(hash, g, d.resolved, finished)
  {
    forall r | r in d.resolved ensures SolvedAt(hash, g, d.resolved, r) { assert Resolved(hash, g, ownerOf, d, r); }
  }

  lemma SameMeaning(g: Registry, a: map<string, string>, b: map<string, string>, r: string)
    requires r in g.definitions
    requires forall d :: DependsOn(g, r, d) ==> d in a && d in b && a[d] == b[d]
    ensures Meaning(g, a, r) == Meaning(g, b, r)
  {
    forall d | Ref(d) in Body(g, r) ensures d in a && d in b && a[d] == b[d] { assert DependsOn(g, r, d); }
    RenderStable(Body(g, r), a, b);
  }

  lemma DependsEarlier(g: Registry, order: seq<string>, r: string, d: string)
    requires Layered(g, order) && r in order && DependsOn(g, r, d)
    ensures d in order
  {
    var i :| 0 <= i < |order| && order[i] == r;
    assert DependsOn(g, order[i], d);
  }

  /** Two solutions agree on a reference when they agree on what it depends on. */
  lemma NextAgrees(hash: string -> string, g: Registry, a: map<string, string>, orderA: seq<string>,
                   b: map<string, string>, orderB: seq<string>, n: nat)
    requires Solves(hash, g, a, orderA) && Solves(hash, g, b, orderB) && n < |orderA| && orderA[n] in b
    requires forall d :: d in orderA[..n] && d in b ==> d in a && a[d] == b[d]
    ensures var r := orderA[n]; r in a && a[r] == b[r] && r in g.definitions && Meaning(g, a, r) == Meaning(g, b, r)
  {
    var r := orderA[n];
    assert SolvedAt(hash, g, a, r) && SolvedAt(hash, g, b, r);
    forall d | DependsOn(g, r, d) ensures d in a && d in b && a[d] == b[d] {
      assert DependsOn(g, orderA[n], d);
      DependsEarlier(g, orderB, r, d);
    }
    SameMeaning(g, a, b, r);
  }

  /** Where two solutions both resolve a reference they agree, in whatever order they visit. */
  lemma {:induction false} ResolutionUnique(hash: string -> string, g: Registry, a: map<string, string>,
                                            orderA: seq<string>,
                                            b: map<string, string>, orderB: seq<string>, n: nat)
    requires Solves(hash, g, a, orderA) && Solves(hash, g, b, orderB) && n <= |orderA|
    ensures forall r :: r in orderA[..n] && r in b ==> r in a && a[r] == b[r]
    ensures forall r :: r in orderA[..n] && r in b ==> Meaning(g, a, r) == Meaning(g, b, r)
  {
    forall i | 0 <= i < n && orderA[i] in b
      ensures var r := orderA[i]; r in a && a[r] == b[r] && Meaning(g, a, r) == Meaning(g, b, r)
    {
      AgreeBefore(hash, g, a, orderA, b, orderB, i);
      NextAgrees(hash, g, a, orderA, b, orderB, i);
    }
  }

  lemma {:induction false} AgreeBefore(hash: string -> string, g: Registry, a: map<string, string>,
                                       orderA: seq<string>, b: map<string, string>, orderB: seq<string>, n: nat)
    requires Solves(hash, g, a, orderA) && Solves(hash, g, b, orderB) && n <= |orderA|
    ensures forall r :: r in orderA[..n] && r in b ==> r in a && a[r] == b[r]
  {
    if n > 0 {
      AgreeBefore(hash, g, a, orderA, b, orderB, n - 1);
      assert orderA[..n] == orderA[..n - 1] + [orderA[n - 1]];
      if orderA[n - 1] in b { NextAgrees(hash, g, a, orderA, b, orderB, n - 1); }
    }
  }

  lemma SolutionsAgree(hash: string -> string, g: Registry, a: map<string, string>, orderA: seq<string>,
                       b: map<string, string>, orderB: seq<string>, r: string)
    requires Solves(hash, g, a, orderA) && Solves(hash, g, b, orderB) && r in a && r in b
    ensures r in g.definitions && a[r] == b[r] && Meaning(g, a, r) == Meaning(g, b, r)
  {
    assert SolvedAt(hash, g, a, r);
    assert orderA[..|orderA|] == orderA;
    ResolutionUnique(hash, g, a, orderA, b, orderB, |orderA|);
  }

  /** Two references with one alias for different meanings: the hash collides on them. */
  ghost predicate CollisionIn(hash: string -> string, g: Registry, resolved: map<string, string>, order: seq<string>,
                              r: string, q: string) {
    && Solves(hash, g, resolved, order) && r in resolved && q in resolved && r in g.definitions && q in g.definitions
    && resolved[r] == resolved[q] && Meaning(g, resolved, r) != Meaning(g, resolved, q)
  }

  ghost predicate Collides(hash: string -> string, g: Registry) {
    exists resolved, order, r, q :: CollisionIn(hash, g, resolved, order, r, q)
  }

  /** Two references with the same meaning. */
  ghost predicate AmbiguityIn(hash: string -> string, g: Registry, resolved: map<string, string>, order: seq<string>,
                              r: string, q: string) {
    && Solves(hash, g, resolved, order) && r in resolved && q in resolved && r in g.definitions && q in g.definitions
    && r != q && Meaning(g, resolved, r) == Meaning(g, resolved, q)
  }

  ghost predicate Ambiguous(hash: string -> string, g: Registry) {
    exists resolved, order, r, q :: AmbiguityIn(hash, g, resolved, order, r, q)
  }

  /** A collision of references is a collision of the hash. */
  lemma CollisionIsOfHash(hash: string -> string, g: Registry)
    requires Collides(hash, g)
    ensures exists s, t :: s != t && hash(s) == hash(t)
  {
    var resolved, order, r, q :| CollisionIn(hash, g, resolved, order, r, q);
    assert SolvedAt(hash, g, resolved, r) && SolvedAt(hash, g, resolved, q);
    var s, t := Meaning(g, resolved, r), Meaning(g, resolved, q);
    assert Compact(hash, s)[|ALIAS|..] == hash(s) && Compact(hash, t)[|ALIAS|..] == hash(t);
  }

  /** A reference whose dependencies are solved can be added to a solution. */
  lemma SolvesNext(hash: string -> string, g: Registry, resolved: map<string, string>, order: seq<string>, r: string)
    requires Solves(hash, g, resolved, order) && r in g.definitions && r !in resolved
    requires forall b :: DependsOn(g, r, b) ==> b in resolved
    ensures var next := resolved[r := Compact(hash, Meaning(g, resolved, r))];
            && Solves(hash, g, next, order + [r]) && Meaning(g, next, r) == Meaning(g, resolved, r)
            && forall x :: x in resolved ==> Meaning(g, next, x) == Meaning(g, resolved, x)
  {
    var next, longer := resolved[r := Compact(hash, Meaning(g, resolved, r))], order + [r];
    SameMeaning(g, resolved, next, r);
    forall x | x in resolved ensures SolvedAt(hash, g, next, x) && Meaning(g, next, x) == Meaning(g, resolved, x) {
      assert SolvedAt(hash, g, resolved, x);
      SameMeaning(g, resolved, next, x);
    }
    assert forall x :: x in longer <==> x in order || x == r;
    LayeredNext(g, order, r);
  }

  lemma LayeredNext(g: Registry, order: seq<string>, r: string)
    requires Layered(g, order) && forall b :: DependsOn(g, r, b) ==> b in order
    ensures Layered(g, order + [r])
  {
    var longer := order + [r];
    forall i, b | 0 <= i < |longer| && DependsOn(g, longer[i], b) ensures b in longer[..i] {
      if i < |order| { assert longer[..i] == order[..i]; } else { assert longer[..i] == order; }
    }
  }

  // ----- why a check fails -----

  /** Every entry of the two lookup tables was made for a resolved reference. */
  ghost predicate Traced(g: Registry, ownerOf: map<string, string>, d: Dictionary) {
    && (forall c :: c in d.semantics ==> exists r :: MadeAlias(g, d, c, r))
    && (forall m :: m in d.owners ==> exists r :: MadeOwner(g, ownerOf, d, m, r))
  }

  ghost predicate MadeAlias(g: Registry, d: Dictionary, c: string, r: string) {
    && r in g.definitions && r in d.resolved && d.resolved[r] == c
    && c in d.semantics && d.semantics[c] == Meaning(g, d.resolved, r)
  }

  ghost predicate MadeOwner(g: Registry, ownerOf: map<string, string>, d: Dictionary, m: string, r: string) {
    && r in g.definitions && r in d.resolved && Meaning(g, d.resolved, r) == m
    && r in ownerOf && m in d.owners && d.owners[m] == ownerOf[r]
  }

  lemma AliasKept(g: Registry, d: Dictionary, next: Dictionary, c: string, q: string)
    requires MadeAlias(g, d, c, q) && Extends(d.resolved, next.resolved)
             && Meaning(g, next.resolved, q) == Meaning(g, d.resolved, q)
    requires c in next.semantics && next.semantics[c] == d.semantics[c]
    ensures MadeAlias(g, next, c, q)
  {
  }

  lemma OwnerKept(g: Registry, ownerOf: map<string, string>, d: Dictionary, next: Dictionary, m: string, q: string)
    requires MadeOwner(g, ownerOf, d, m, q) && Extends(d.resolved, next.resolved)
    requires Meaning(g, next.resolved, q) == Meaning(g, d.resolved, q) && m in next.owners
             && next.owners[m] == d.owners[m]
    ensures MadeOwner(g, ownerOf, next, m, q)
  {
  }

  /** Extending a traced dictionary by one reference keeps it traced. */
  lemma TracedNext(g: Registry, ownerOf: map<string, string>, d: Dictionary, next: Dictionary, r: string, c: string,
                   m: string)
    requires Traced(g, ownerOf, d) && Extends(d.resolved, next.resolved)
    requires forall q :: q in d.resolved && q in g.definitions ==>
               Meaning(g, next.resolved, q) == Meaning(g, d.resolved, q)
    requires next.semantics == d.semantics[c := m] && r in ownerOf && next.owners == d.owners[m := ownerOf[r]]
    requires r in g.definitions && r in next.resolved && next.resolved[r] == c && Meaning(g, next.resolved, r) == m
    ensures Traced(g, ownerOf, next)
  {
    forall k | k in next.semantics ensures exists q :: MadeAlias(g, next, k, q) {
      if k == c {
        assert MadeAlias(g, next, c, r);
      } else {
        var q :| MadeAlias(g, d, k, q);
        AliasKept(g, d, next, k, q);
      }
    }
    forall k | k in next.owners ensures exists q :: MadeOwner(g, ownerOf, next, k, q) {
      if k == m {
        assert MadeOwner(g, ownerOf, next, m, r);
      } else {
        var q :| MadeOwner(g, ownerOf, d, k, q);
        OwnerKept(g, ownerOf, d, next, k, q);
      }
    }
  }

  lemma SettleTraced(hash: string -> string, g: Registry, ownerOf: map<string, string>, d: Dictionary,
                     finished: seq<string>, r: string)
    requires Sound(hash, g, ownerOf, d, finished) && Traced(g, ownerOf, d)
    requires r in g.definitions && r !in d.resolved && forall b :: DependsOn(g, r, b) ==> b in d.resolved
    requires Settle(hash, ownerOf, d, r, Meaning(g, d.resolved, r)).Success?
    ensures Traced(g, ownerOf, Settle(hash, ownerOf, d, r, Meaning(g, d.resolved, r)).value)
  {
    var meaning := Meaning(g, d.resolved, r);
    SoundSolves(hash, g, ownerOf, d, finished);
    SolvesNext(hash, g, d.resolved, finished, r);
    TracedNext(g, ownerOf, d, Settle(hash, ownerOf, d, r, meaning).value, r, Compact(hash, meaning), meaning);
  }

  lemma NextSolution(hash: string -> string, g: Registry, ownerOf: map<string, string>, d: Dictionary,
                     finished: seq<string>, r: string)
      returns (next: map<string, string>, order: seq<string>)
    requires Sound(hash, g, ownerOf, d, finished)
    requires r in g.definitions && r !in d.resolved && forall b :: DependsOn(g, r, b) ==> b in d.resolved
    ensures Solves(hash, g, next, order) && r in next && next[r] == Compact(hash, Meaning(g, d.resolved, r))
    ensures Meaning(g, next, r) == Meaning(g, d.resolved, r)
    ensures forall q :: q in d.resolved && q in g.definitions ==>
              q in next && next[q] == d.resolved[q] && Meaning(g, next, q) == Meaning(g, d.resolved, q)
  {
    next, order := d.resolved[r := Compact(hash, Meaning(g, d.resolved, r))], finished + [r];
    SoundSolves(hash, g, ownerOf, d, finished);
    SolvesNext(hash, g, d.resolved, finished, r);
  }

  lemma CollisionShown(hash: string -> string, g: Registry, resolved: map<string, string>, order: seq<string>,
                       r: string, q: string)
    requires CollisionIn(hash, g, resolved, order, r, q)
    ensures Collides(hash, g)
  {
  }

  lemma AmbiguityShown(hash: string -> string, g: Registry, resolved: map<string, string>, order: seq<string>,
                       r: string, q: string)
    requires AmbiguityIn(hash, g, resolved, order, r, q)
    ensures Ambiguous(hash, g)
  {
  }

  lemma AliasMaker(g: Registry, ownerOf: map<string, string>, d: Dictionary, c: string) returns (q: string)
    requires Traced(g, ownerOf, d) && c in d.semantics
    ensures MadeAlias(g, d, c, q)
  {
    q :| MadeAlias(g, d, c, q);
  }

  lemma OwnerMaker(g: Registry, ownerOf: map<string, string>, d: Dictionary, m: string) returns (q: string)
    requires Traced(g, ownerOf, d) && m in d.owners
    ensures MadeOwner(g, ownerOf, d, m, q)
  {
    q :| MadeOwner(g, ownerOf, d, m, q);
  }

  /** A failed collision check shows two references on which the hash collides. */
  lemma CollisionExplained(hash: string -> string, g: Registry, ownerOf: map<string, string>, d: Dictionary,
                           finished: seq<string>, r: string)
    requires Sound(hash, g, ownerOf, d, finished) && Traced(g, ownerOf, d)
    requires r in g.definitions && r !in d.resolved && forall b :: DependsOn(g, r, b) ==> b in d.resolved
    requires var c := Compact(hash, Meaning(g, d.resolved, r));
             c in d.semantics && d.semantics[c] != Meaning(g, d.resolved, r)
    ensures Collides(hash, g)
  {
    var q := AliasMaker(g, ownerOf, d, Compact(hash, Meaning(g, d.resolved, r)));
    var next, order := NextSolution(hash, g, ownerOf, d, finished, r);
    CollisionShown(hash, g, next, order, r, q);
  }

  /** A failed owner check shows two references with the same meaning. */
  lemma AmbiguityExplained(hash: string -> string, g: Registry, ownerOf: map<string, string>, d: Dictionary,
                           finished: seq<string>, r: string)
    requires Sound(hash, g, ownerOf, d, finished) && Traced(g, ownerOf, d)
    requires r in g.definitions && r !in d.resolved && forall b :: DependsOn(g, r, b) ==> b in d.resolved
    requires var m := Meaning(g, d.resolved, r); r in ownerOf && m in d.owners && d.owners[m] != ownerOf[r]
    ensures Ambiguous(hash, g)
  {
    var q := OwnerMaker(g, ownerOf, d, Meaning(g, d.resolved, r));
    var next, order := NextSolution(hash, g, ownerOf, d, finished, r);
    AmbiguityShown(hash, g, next, order, r, q);
  }

  /** A dictionary that passed every check for every reference excludes both. */
  lemma SoundIsUnambiguous(hash: string -> string, g: Registry, ownerOf: map<string, string>, d: Dictionary,
                           finished: seq<string>)
    requires Sound(hash, g, ownerOf, d, finished) && Owns(g, ownerOf)
    requires forall r :: r in g.definitions ==> r in d.resolved
    ensures !Collides(hash, g) && !Ambiguous(hash, g)
  {
    SoundSolves(hash, g, ownerOf, d, finished);
    forall resolved, order, r, q | CollisionIn(hash, g, resolved, order, r, q) ensures false {
      BothResolved(hash, g, ownerOf, d, finished, resolved, order, r, q);
    }
    forall resolved, order, r, q | AmbiguityIn(hash, g, resolved, order, r, q) ensures false {
      BothResolved(hash, g, ownerOf, d, finished, resolved, order, r, q);
    }
  }

  lemma BothResolved(hash: string -> string, g: Registry, ownerOf: map<string, string>, d: Dictionary,
                     finished: seq<string>,
                     resolved: map<string, string>, order: seq<string>, r: string, q: string)
    requires Sound(hash, g, ownerOf, d, finished) && Owns(g, ownerOf) && Solves(hash, g, d.resolved, finished)
    requires forall x :: x in g.definitions ==> x in d.resolved
    requires Solves(hash, g, resolved, order) && r in resolved && q in resolved && r in g.definitions
             && q in g.definitions
    ensures resolved[r] == resolved[q] ==> Meaning(g, resolved, r) == Meaning(g, resolved, q)
    ensures Meaning(g, resolved, r) == Meaning(g, resolved, q) ==> r == q
  {
    SolutionsAgree(hash, g, resolved, order, d.resolved, finished, r);
    SolutionsAgree(hash, g, resolved, order, d.resolved, finished, q);
    assert Resolved(hash, g, ownerOf, d, r) && Resolved(hash, g, ownerOf, d, q);
  }

  /** The raw IDs under the aliases their references resolve to. */
  ghost function FinalAliases(raw: Aliases, resolved: map<string, string>): Aliases {
    map id | id in raw :: if raw[id] in resolved then resolved[raw[id]] else raw[id]
  }

  /** The final aliases would still rewrite the meaning of reference `r`. */
  ghost predicate RewrittenIn(hash: string -> string, g: Registry, resolved: map<string, string>, order: seq<string>,
                              r: string) {
    && Solves(hash, g, resolved, order) && (forall x :: x in g.definitions ==> x in resolved) && r in g.definitions
    && Replaced(FinalAliases(g.aliases, resolved), Meaning(g, resolved, r)) != Meaning(g, resolved, r)
  }

  ghost predicate Unsettled(hash: string -> string, g: Registry) {
    exists resolved, order, r :: RewrittenIn(hash, g, resolved, order, r)
  }

  /** No cycle, no hash collision among meanings, no meaning shared. */
  ghost predicate Resolvable(hash: string -> string, g: Registry) {
    !HasCycle(g) && !Collides(hash, g) && !Ambiguous(hash, g)
  }

  /** Each error is the fault it names. */
  ghost predicate Explains(hash: string -> string, g: Registry, error: Error) {
    match error
    case Cyclic => HasCycle(g)
    case AliasCollision => Collides(hash, g)
    case AmbiguousResolved => Ambiguous(hash, g)
    case UnresolvedGenerated => Unsettled(hash, g)
    case _ => false
  }

  /** The complete solution is unique. */
  lemma OneSolution(hash: string -> string, g: Registry, a: map<string, string>, orderA: seq<string>,
                    b: map<string, string>, orderB: seq<string>)
    requires Solves(hash, g, a, orderA) && Solves(hash, g, b, orderB)
    requires forall x :: x in g.definitions ==> x in a && x in b
    ensures a == b
  {
    forall r ensures r in a <==> r in b {
      if r in a { assert SolvedAt(hash, g, a, r); }
      if r in b { assert SolvedAt(hash, g, b, r); }
    }
    forall r | r in a ensures a[r] == b[r] { SolutionsAgree(hash, g, a, orderA, b, orderB, r); }
  }

  lemma MeaningStored(hash: string -> string, g: Registry, ownerOf: map<string, string>, d: Dictionary,
                      finished: seq<string>, r: string)
    requires Sound(hash, g, ownerOf, d, finished) && r in d.resolved
    ensures r in g.definitions && Meaning(g, d.resolved, r) in d.semantics.Values
  {
    assert Resolved(hash, g, ownerOf, d, r);
    assert d.semantics[d.resolved[r]] in d.semantics.Values;
  }

  /** The final check passes exactly if no meaning is rewritten any more. */
  lemma FinalCheckExact(hash: string -> string, g: Registry, ownerOf: map<string, string>, d: Dictionary,
                        finished: seq<string>)
    requires Sound(hash, g, ownerOf, d, finished) && Traced(g, ownerOf, d) && d.resolved.Keys == g.definitions.Keys
    ensures (forall m :: m in d.semantics.Values ==> Replaced(FinalAliases(g.aliases, d.resolved), m) == m)
            <==> !Unsettled(hash, g)
  {
    SoundSolves(hash, g, ownerOf, d, finished);
    if m :| m in d.semantics.Values && Replaced(FinalAliases(g.aliases, d.resolved), m) != m {
      var c :| c in d.semantics && d.semantics[c] == m;
      var r := AliasMaker(g, ownerOf, d, c);
      assert RewrittenIn(hash, g, d.resolved, finished, r);
    } else {
      forall resolved, order, r ensures !RewrittenIn(hash, g, resolved, order, r) {
        if RewrittenIn(hash, g, resolved, order, r) {
          MeaningStored(hash, g, ownerOf, d, finished, r);
          OneSolution(hash, g, resolved, order, d.resolved, finished);
        }
      }
    }
  }

  // ----- the search -----

  /** A point of the depth-first search: the references on `stack` are being resolved, each
      because the one before it depends on it. */
  ghost predicate Searching(hash: string -> string, g: Registry, ownerOf: map<string, string>, d: Dictionary,
                            resolving: set<string>, stack: seq<string>, finished: seq<string>)
  {
    && Sound(hash, g, ownerOf, d, finished) && Traced(g, ownerOf, d)
    && IsPath(g, stack)
    && (forall r :: r in resolving <==> r in stack)
    && (forall r :: r in resolving ==> r in g.definitions && r !in d.resolved)
  }

  lemma CycleFound(g: Registry, stack: seq<string>, reference: string)
    requires IsPath(g, stack) && reference in stack
    requires DependsOn(g, stack[|stack| - 1], reference)
    ensures HasCycle(g)
  {
    var i :| 0 <= i < |stack| && stack[i] == reference;
    var path := stack[i..] + [reference];
    forall j | 0 <= j < |path| - 1 ensures DependsOn(g, path[j], path[j + 1]) {
      assert path[j] == stack[i + j];
      if j < |path| - 2 { assert path[j + 1] == stack[i + j + 1]; }
    }
    assert path[0] == path[|path| - 1];
  }

  /** Entering a reference. */
  lemma SearchEnters(hash: string -> string, g: Registry, ownerOf: map<string, string>, d: Dictionary,
                     resolving: set<string>, stack: seq<string>, finished: seq<string>, reference: string)
    requires Searching(hash, g, ownerOf, d, resolving, stack, finished)
    requires stack != [] ==> DependsOn(g, stack[|stack| - 1], reference)
    requires reference in g.definitions && reference !in d.resolved
    ensures Searching(hash, g, ownerOf, d, resolving + {reference}, stack + [reference], finished)
  {
    var path := stack + [reference];
    assert forall r :: r in path <==> r in stack || r == reference;
  }

  /** Leaving a reference whose checks passed. */
  lemma SearchLeaves(hash: string -> string, g: Registry, ownerOf: map<string, string>, d: Dictionary,
                     resolving: set<string>, stack: seq<string>, finished: seq<string>, reference: string)
    requires Searching(hash, g, ownerOf, d, resolving, stack + [reference], finished) && reference !in stack
    requires forall b :: DependsOn(g, reference, b) ==> b in d.resolved
    requires reference in g.definitions
    requires Settle(hash, ownerOf, d, reference, Meaning(g, d.resolved, reference)).Success?
    ensures Searching(hash, g, ownerOf, Settle(hash, ownerOf, d, reference, Meaning(g, d.resolved, reference)).value,
                      resolving - {reference}, stack, finished + [reference])
  {
    var path := stack + [reference];
    assert path[|stack|] == reference;
    assert forall r :: r in path <==> r in stack || r == reference;
    SettleSound(hash, g, ownerOf, d, finished, reference);
    SettleTraced(hash, g, ownerOf, d, finished, reference);
    forall i | 0 <= i < |stack| - 1 ensures DependsOn(g, stack[i], stack[i + 1]) {
      assert path[i] == stack[i] && path[i + 1] == stack[i + 1];
    }
  }
}
