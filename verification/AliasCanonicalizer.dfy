/** The mutable side of alias construction (`canonicalizeParity` in
    scripts/scheduling-profile/parity.ts): registration, the depth-first resolution, and
    the final update of the rewriter. */
module AliasCanonicalizer {
  import opened AliasRewriter
  import opened AliasRegistry
  import opened AliasResolution
  import opened Wrappers

  class Canonicalizer {
    const hash: string -> string
    const rewriter: Rewriter
    var semanticIds: map<string, string>
    var semanticDefinitions: map<string, string>
    var rawAliases: Aliases

    function Model(): Registry
      reads this
    {
      Registry(semanticIds, semanticDefinitions, rawAliases)
    }

    /** Before the final update the rewriter maps raw IDs to their references. */
    ghost predicate Valid()
      reads this, rewriter, rewriter.Repr
    {
      rewriter.Valid() && rewriter.aliases == rawAliases
    }

    constructor (hash: string -> string)
      ensures Valid() && this.hash == hash && Model() == EMPTY
      ensures fresh(rewriter) && fresh(rewriter.Repr)
    {
      this.hash := hash;
      rewriter := new Rewriter();
      semanticIds, semanticDefinitions, rawAliases := map[], map[], map[];
    }

    /** Registers one raw ID under its semantic key, or reports the check that failed. */
    method AddAlias(raw: string, key: string) returns (error: Option<Error>)
      requires Valid()
      modifies this`semanticIds, this`semanticDefinitions, this`rawAliases, rewriter, rewriter.Repr
      ensures Valid() && fresh(rewriter.Repr - old(rewriter.Repr))
      ensures match Register(hash, old(Model()), raw, key)
              case Success(next) => error == None && Model() == next
              case Failure(e) => error == Some(e) && Model() == old(Model())
    {
      var reference := Reference(hash, key);
      var previous := rewriter.Get(raw);
      if previous.Some? && previous.value != "" && previous.value != reference { return Some(ConflictingAlias); }
      if Truthy(semanticIds, key) && semanticIds[key] != raw { return Some(AmbiguousIdentity); }
      if reference in semanticDefinitions && semanticDefinitions[reference] != key { return Some(ReferenceCollision); }
      rewriter.Add(raw, reference);
      semanticIds := semanticIds[key := raw];
      semanticDefinitions := semanticDefinitions[reference := key];
      rawAliases := rawAliases[raw := reference];
      error := None;
    }

    /** Inverts the alias map; when raw IDs share a reference, whichever comes last owns it. */
    method InvertAliases() returns (owners: map<string, string>)
      ensures Owns(Model(), owners)
      ensures forall id :: id in rawAliases ==> rawAliases[id] in owners
    {
      owners := map[];
      var rest := rawAliases.Keys;
      while rest != {}
        invariant rest <= rawAliases.Keys && Owns(Model(), owners)
        invariant forall id :: id in rawAliases && id !in rest ==> rawAliases[id] in owners
      {
        var id :| id in rest;
        owners := owners[rawAliases[id] := id];
        rest := rest - {id};
      }
    }

    /** What a completed search found: the dictionary solves its defining equations. */
    ghost predicate Complete(d: Dictionary)
      reads this
    {
      && d.resolved.Keys == semanticDefinitions.Keys
      && exists owners, order ::
           Owns(Model(), owners) && Sound(hash, Model(), owners, d, order) && Traced(Model(), owners, d)
    }

    lemma SearchCompletes(search: Search, owners: map<string, string>, order: seq<string>)
      requires search.At([], order) && search.hash == hash && search.g == Model() && search.ownerByReference == owners
      requires Owns(Model(), owners) && search.resolvedReferences.Keys == semanticDefinitions.Keys
      ensures Complete(search.Found())
    {
    }

    lemma CompleteFacts(d: Dictionary)
      requires Complete(d) && Consistent(hash, Model())
      ensures Resolvable(hash, Model()) && Injective(d.resolved)
      ensures Injective(FinalAliases(rawAliases, d.resolved)) <==> Injective(rawAliases)
      ensures forall x :: x in semanticDefinitions ==> d.resolved[x] == Compact(hash, Meaning(Model(), d.resolved, x))
    {
      var owners, order :|
        Owns(Model(), owners) && Sound(hash, Model(), owners, d, order) && Traced(Model(), owners, d);
      LayeredAcyclic(Model(), order);
      SoundIsUnambiguous(hash, Model(), owners, d, order);
      ResolvedInjective(hash, Model(), owners, d, order);
      FinalInjective(rawAliases, d.resolved);
      forall x | x in semanticDefinitions ensures d.resolved[x] == Compact(hash, Meaning(Model(), d.resolved, x)) {
        assert Resolved(hash, Model(), owners, d, x);
      }
    }

    lemma FinalCheck(d: Dictionary, final: Aliases, clean: bool)
      requires Complete(d) && Consistent(hash, Model()) && final == FinalAliases(rawAliases, d.resolved)
      requires clean <==> forall m :: m in d.semantics.Values ==> Replaced(final, m) == m
      ensures clean <==> !Unsettled(hash, Model())
    {
      var owners, order :|
        Owns(Model(), owners) && Sound(hash, Model(), owners, d, order) && Traced(Model(), owners, d);
      FinalCheckExact(hash, Model(), owners, d, order);
    }

    /** Builds the owner map and searches from every definition. */
    method SearchGraph() returns (r: Result<Dictionary, Error>)
      requires Valid() && Consistent(hash, Model())
      ensures r.Success? ==> Complete(r.value)
      ensures r.Failure? ==> r.error in {Cyclic, AliasCollision, AmbiguousResolved} && Explains(hash, Model(), r.error)
    {
      var owners := InvertAliases();
      DefinitionsOwned(Model(), owners);
      var search := new Search(hash, rewriter, Model(), owners);
      var failed;
      ghost var order;
      failed, order := VisitAll(search);
      if failed.Some? { return Failure(failed.value); }
      r := Success(Dictionary(search.resolvedReferences, search.semanticAliases, search.resolvedOwners));
      SearchCompletes(search, owners, order);
    }

    /** Resolves every reference, in any order; succeeds exactly on an acyclic graph in which the
        hash does not collide and no two references mean the same. */
    method ResolveGraph() returns (r: Result<Dictionary, Error>)
      requires Valid() && Consistent(hash, Model())
      ensures r.Success? ==> Complete(r.value)
      ensures r.Success? <==> Resolvable(hash, Model())
      ensures r.Failure? ==> r.error in {Cyclic, AliasCollision, AmbiguousResolved} && Explains(hash, Model(), r.error)
    {
      r := SearchGraph();
      if r.Success? { CompleteFacts(r.value); }
    }

    /** Resolves the graph and then redirects the raw IDs to their aliases. */
    method ResolveAll() returns (r: Result<Dictionary, Error>)
      requires Valid() && Consistent(hash, Model())
      modifies rewriter, rewriter.Repr
      ensures rewriter.Valid() && fresh(rewriter.Repr - old(rewriter.Repr))
      ensures r.Success? ==>
                && Complete(r.value)
                && rewriter.aliases == FinalAliases(rawAliases, r.value.resolved)
                && forall m :: m in r.value.semantics.Values ==> Replaced(rewriter.aliases, m) == m
      ensures r.Success? <==> Resolvable(hash, Model()) && !Unsettled(hash, Model())
      ensures r.Failure? ==> Explains(hash, Model(), r.error)
    {
      r := ResolveGraph();
      if r.Failure? { return; }
      ReferencesResolved(r.value);
      var clean := RedirectAndCheck(r.value);
      FinalCheck(r.value, rewriter.aliases, clean);
      if !clean { r := Failure(UnresolvedGenerated); }
    }

    /** Points every raw ID at its alias, then looks for a meaning that still changes. */
    method RedirectAndCheck(d: Dictionary) returns (clean: bool)
      requires Valid() && forall id :: id in rawAliases ==> rawAliases[id] in d.resolved
      modifies rewriter, rewriter.Repr
      ensures rewriter.Valid() && fresh(rewriter.Repr - old(rewriter.Repr))
      ensures forall node :: node in rewriter.Repr ==> node in old(rewriter.Repr) || fresh(node)
      ensures rewriter.aliases == FinalAliases(rawAliases, d.resolved)
      ensures clean <==> forall m :: m in d.semantics.Values ==> Replaced(rewriter.aliases, m) == m
    {
      Redirect(d.resolved);
      clean := CheckMeanings(d.semantics);
    }

    lemma ReferencesResolved(d: Dictionary)
      requires Consistent(hash, Model()) && d.resolved.Keys == semanticDefinitions.Keys
      ensures forall id :: id in rawAliases ==> rawAliases[id] in d.resolved
    {
      assert forall id :: id in rawAliases ==> rawAliases[id] in semanticDefinitions;
    }

    /** Every definition belongs to some raw ID. */
    lemma DefinitionsOwned(g: Registry, owners: map<string, string>)
      requires Consistent(hash, g) && forall id :: id in g.aliases ==> g.aliases[id] in owners
      ensures forall x :: x in g.definitions ==> x in owners
    {
      forall x | x in g.definitions ensures x in owners {
        assert g.aliases[g.ids[g.definitions[x]]] == x;
      }
    }

    method VisitAll(search: Search) returns (failed: Option<Error>, ghost order: seq<string>)
      requires Valid() && search.Ready() && search.hash == hash && search.g == Model()
      requires search.Found() == NOTHING && search.resolving == {}
      requires forall x :: x in semanticDefinitions ==> x in search.ownerByReference
      modifies search
      ensures failed == None ==> search.At([], order) && search.resolvedReferences.Keys == semanticDefinitions.Keys
      ensures failed.Some? ==>
                failed.value in {Cyclic, AliasCollision, AmbiguousResolved} && Explains(hash, Model(), failed.value)
    {
      order := [];
      NothingFound(search);
      var rest := semanticDefinitions.Keys;
      while rest != {}
        invariant search.At([], order) && rest <= semanticDefinitions.Keys
        invariant forall x :: x in semanticDefinitions && x !in rest ==> x in search.resolvedReferences
        invariant search.resolving == {}
      {
        var reference :| reference in rest;
        failed, order := VisitOne(search, reference, order);
        if failed.Some? { return; }
        rest := rest - {reference};
      }
      failed := None;
      OnlyDefined(search, order);
    }

    method VisitOne(search: Search, reference: string, ghost finished: seq<string>)
        returns (failed: Option<Error>, ghost done: seq<string>)
      requires Valid() && search.Ready() && search.hash == hash && search.g == Model()
      requires search.At([], finished) && reference in semanticDefinitions
      requires forall x :: x in semanticDefinitions ==> x in search.ownerByReference
      modifies search
      ensures failed == None ==>
                && search.At([], done) && search.resolving == old(search.resolving) && reference in search.resolvedReferences
                && Extends(old(search.resolvedReferences), search.resolvedReferences)
      ensures failed.Some? ==>
                failed.value in {Cyclic, AliasCollision, AmbiguousResolved} && Explains(hash, Model(), failed.value)
    {
      var alias;
      alias, done := search.ResolveReference(reference, [], finished);
      if alias.Success? { return None, done; }
      NothingMissing(search, alias.error, reference);
      failed := Some(alias.error);
    }

    lemma NothingFound(search: Search)
      requires search.Found() == NOTHING && search.resolving == {}
      ensures search.At([], [])
    {
    }

    lemma OnlyDefined(search: Search, order: seq<string>)
      requires search.At([], order) && forall x :: x in search.g.definitions ==> x in search.resolvedReferences
      ensures search.resolvedReferences.Keys == search.g.definitions.Keys
    {
      forall x | x in search.resolvedReferences ensures x in search.g.definitions {
        assert Resolved(search.hash, search.g, search.ownerByReference, search.Found(), x);
      }
    }

    /** Over a graph whose references are all defined and owned only the other errors remain. */
    lemma NothingMissing(search: Search, error: Error, reference: string)
      requires search.FailureExplained(error, reference) && reference in search.g.definitions
      requires forall x :: x in search.g.definitions ==> x in search.ownerByReference
      ensures error in {Cyclic, AliasCollision, AmbiguousResolved} && Explains(search.hash, search.g, error)
    {
    }

    lemma FinalInjective(raw: Aliases, resolved: map<string, string>)
      requires Injective(resolved) && forall id :: id in raw ==> raw[id] in resolved
      ensures Injective(FinalAliases(raw, resolved)) <==> Injective(raw)
    {
      var final := FinalAliases(raw, resolved);
      if Injective(final) {
        forall a, b | a in raw && b in raw && raw[a] == raw[b] ensures a == b { assert final[a] == final[b]; }
      } else {
        var a, b :| a in final && b in final && final[a] == final[b] && a != b;
        assert raw[a] == raw[b];
      }
    }

    /** Points every raw ID at its resolved alias. */
    method Redirect(resolved: map<string, string>)
      requires Valid() && forall id :: id in rawAliases ==> rawAliases[id] in resolved
      modifies rewriter, rewriter.Repr
      ensures rewriter.Valid() && fresh(rewriter.Repr - old(rewriter.Repr))
      ensures rewriter.aliases == FinalAliases(rawAliases, resolved)
    {
      var rest := rawAliases.Keys;
      while rest != {}
        invariant rewriter.Valid() && fresh(rewriter.Repr - old(rewriter.Repr))
        invariant rest <= rawAliases.Keys == rewriter.aliases.Keys
        invariant forall id :: id in rawAliases ==>
                    rewriter.aliases[id] == if id in rest then rawAliases[id] else resolved[rawAliases[id]]
      {
        var id :| id in rest;
        rewriter.Add(id, resolved[rawAliases[id]]);
        rest := rest - {id};
      }
    }

    /** No meaning in the dictionary still contains a raw ID. */
    method CheckMeanings(semantics: map<string, string>) returns (clean: bool)
      requires rewriter.Valid()
      ensures clean <==> forall m :: m in semantics.Values ==> Replaced(rewriter.aliases, m) == m
    {
      var rest := semantics.Values;
      while rest != {}
        invariant forall m :: m in semantics.Values && m !in rest ==> Replaced(rewriter.aliases, m) == m
        invariant rest <= semantics.Values
      {
        var m :| m in rest;
        var replaced := rewriter.Replace(m);
        if replaced != m { return false; }
        rest := rest - {m};
      }
      clean := true;
    }
  }

  lemma RegisterNext(hash: string -> string, history: seq<(string, string)>, i: nat)
    requires i < |history| && RegisterAll(hash, history[..i]).Success?
    ensures RegisterAll(hash, history[..i + 1])
            == Register(hash, RegisterAll(hash, history[..i]).value, history[i].0, history[i].1)
  {
    assert history[..i + 1][..i] == history[..i];
  }

  /** Registers a history. */
  method RegisterHistory(hash: string -> string, history: seq<(string, string)>)
      returns (error: Option<Error>, canonicalizer: Canonicalizer)
    ensures fresh(canonicalizer) && fresh(canonicalizer.rewriter) && fresh(canonicalizer.rewriter.Repr)
    ensures canonicalizer.Valid() && canonicalizer.hash == hash
    ensures match error
            case None => RegisterAll(hash, history) == Success(canonicalizer.Model())
            case Some(e) => RegisterAll(hash, history) == Failure(e)
  {
    canonicalizer := new Canonicalizer(hash);
    for i := 0 to |history|
      invariant fresh(canonicalizer) && fresh(canonicalizer.rewriter) && fresh(canonicalizer.rewriter.Repr)
      invariant canonicalizer.Valid() && canonicalizer.hash == hash
      invariant RegisterAll(hash, history[..i]) == Success(canonicalizer.Model())
    {
      RegisterNext(hash, history, i);
      error := canonicalizer.AddAlias(history[i].0, history[i].1);
      if error.Some? {
        RegisterFailureStays(hash, history, i + 1);
        return;
      }
    }
    assert history[..|history|] == history;
    error := None;
  }

  /** What a successful canonicalization of a history leaves behind: the graph is resolvable, every
      alias is the hash of its resolved definition, and distinct raw IDs have distinct aliases
      unless the empty raw ID was displaced. */
  ghost predicate Canonical(hash: string -> string, history: seq<(string, string)>, g: Registry, d: Dictionary,
                            final: Aliases) {
    && RegisterAll(hash, history) == Success(g)
    && Resolvable(hash, g)
    && d.resolved.Keys == g.definitions.Keys
    && (forall x :: x in g.definitions ==> d.resolved[x] == Compact(hash, Meaning(g, d.resolved, x)))
    && final == FinalAliases(g.aliases, d.resolved)
    && NamesEveryRow(hash, history, g, d.resolved, final)
    && (Injective(final) <==> !EmptyIdDisplaced(history))
  }

  /** Every registered raw ID, and no other, has the digest of the meaning of its key for an alias. */
  ghost predicate NamesEveryRow(hash: string -> string, history: seq<(string, string)>, g: Registry,
                                resolved: map<string, string>, final: Aliases) {
    && (forall id :: id in final ==> exists e :: e in history && e.0 == id)
    && (forall e :: e in history ==> NamesRow(hash, e, g, resolved, final))
  }

  ghost predicate NamesRow(hash: string -> string, e: (string, string), g: Registry, resolved: map<string, string>,
                           final: Aliases) {
    var reference := "@pending:" + hash(e.1);
    && reference in g.definitions && g.definitions[reference] == e.1
    && e.0 in final && final[e.0] == "@alias:" + hash(Meaning(g, resolved, reference))
  }

  lemma EveryRowIsNamed(hash: string -> string, history: seq<(string, string)>, g: Registry, d: Dictionary)
    requires Consistent(hash, g) && Records(hash, g, history) && d.resolved.Keys == g.definitions.Keys
    requires forall x :: x in g.definitions ==> d.resolved[x] == Compact(hash, Meaning(g, d.resolved, x))
    ensures NamesEveryRow(hash, history, g, d.resolved, FinalAliases(g.aliases, d.resolved))
  {
    forall e | e in history ensures NamesRow(hash, e, g, d.resolved, FinalAliases(g.aliases, d.resolved)) {
      assert g.aliases[e.0] == Reference(hash, e.1) && e.1 in g.ids;
    }
  }

  lemma CompleteIsCanonical(c: Canonicalizer, history: seq<(string, string)>, d: Dictionary)
    requires RegisterAll(c.hash, history) == Success(c.Model())
    requires c.Complete(d)
    ensures Canonical(c.hash, history, c.Model(), d, FinalAliases(c.rawAliases, d.resolved))
  {
    RegisterAllConsistent(c.hash, history);
    DistinctReferences(c.hash, history);
    c.CompleteFacts(d);
    EveryRowIsNamed(c.hash, history, c.Model(), d);
  }

  /** Registers a history and resolves it; the failed check is reported otherwise. It succeeds
      exactly when every registration does, the graph is resolvable and the final aliases rewrite
      no meaning. */
  method Canonicalize(hash: string -> string, history: seq<(string, string)>)
      returns (r: Result<Dictionary, Error>, canonicalizer: Canonicalizer)
    ensures r.Success? ==>
              Canonical(hash, history, canonicalizer.Model(), r.value, canonicalizer.rewriter.aliases)
    ensures match RegisterAll(hash, history)
            case Failure(e) => r == Failure(e)
            case Success(g) =>
              && (r.Success? <==> Resolvable(hash, g) && !Unsettled(hash, g))
              && (r.Failure? ==> Explains(hash, g, r.error))
  {
    var error;
    error, canonicalizer := RegisterHistory(hash, history);
    if error.Some? { return Failure(error.value), canonicalizer; }
    assert Consistent(hash, canonicalizer.Model()) by { RegisterAllConsistent(hash, history); }
    r := canonicalizer.ResolveAll();
    if r.Success? { CompleteIsCanonical(canonicalizer, history, r.value); }
  }

  /** A failed check aborts the whole history. */
  lemma {:induction false} RegisterFailureStays(hash: string -> string, history: seq<(string, string)>, n: nat)
    requires n <= |history| && RegisterAll(hash, history[..n]).Failure?
    ensures RegisterAll(hash, history) == RegisterAll(hash, history[..n])
  {
    if n == |history| {
      assert history[..n] == history;
    } else {
      var front := history[..|history| - 1];
      assert front[..n] == history[..n];
      RegisterFailureStays(hash, front, n);
    }
  }

  /** The state of the depth-first search over a fixed dictionary of definitions. */
  class Search {
    const hash: string -> string
    const rewriter: Rewriter
    const g: Registry
    const ownerByReference: map<string, string>
    var semanticAliases: map<string, string>
    var resolvedReferences: map<string, string>
    var resolvedOwners: map<string, string>
    var resolving: set<string>

    constructor (hash: string -> string, rewriter: Rewriter, g: Registry, ownerByReference: map<string, string>)
      ensures this.hash == hash && this.rewriter == rewriter && this.g == g && this.ownerByReference == ownerByReference
      ensures Found() == NOTHING && resolving == {}
    {
      this.hash, this.rewriter, this.g, this.ownerByReference := hash, rewriter, g, ownerByReference;
      semanticAliases, resolvedReferences, resolvedOwners, resolving := map[], map[], map[], {};
    }

    ghost function Found(): Dictionary
      reads this
    {
      Dictionary(resolvedReferences, semanticAliases, resolvedOwners)
    }

    /** The rewriter maps raw IDs to their references. */
    ghost predicate Ready()
      reads rewriter, rewriter.Repr
    {
      rewriter.Valid() && rewriter.aliases == g.aliases
    }

    ghost predicate At(stack: seq<string>, finished: seq<string>)
      reads this
    {
      Searching(hash, g, ownerByReference, Found(), resolving, stack, finished)
    }

    /** Every error of the search is the fault it names. */
    ghost predicate FailureExplained(error: Error, reference: string) {
      match error
      case MissingDefinition => reference !in g.definitions
      case MissingOwner => exists x :: x in g.definitions && x !in ownerByReference
      case UnresolvedGenerated => false
      case _ => Explains(hash, g, error)
    }

    /** Splits a text at its known references. */
    method Split(value: string) returns (tokens: seq<Token>)
      ensures tokens == Tokens(g.definitions.Keys, value, 0, 0)
    {
      tokens := [];
      var from: nat, at: nat := 0, 0;
      while at < |value|
        invariant from <= at <= |value|
        invariant tokens + Tokens(g.definitions.Keys, value, from, at) == Tokens(g.definitions.Keys, value, 0, 0)
        decreases |value| - at
      {
        if !PendingAt(value, at) {
          at := at + 1;
        } else {
          var next := at + REFERENCE_LENGTH;
          if value[at..next] in g.definitions {
            ghost var rest := Tokens(g.definitions.Keys, value, next, next);
            var found := [Literal(value[from..at]), Ref(value[at..next])];
            assert tokens + (found + rest) == (tokens + found) + rest;
            tokens := tokens + found;
            from := next;
          }
          at := next;
        }
      }
      tokens := tokens + [Literal(value[from..])];
    }

    /** A definition with the raw IDs of its literal segments replaced. */
    method ExpandDefinition(reference: string) returns (body: seq<Token>)
      requires Ready() && reference in g.definitions
      ensures body == Body(g, reference)
    {
      var tokens := Split(g.definitions[reference]);
      body := [];
      for i := 0 to |tokens|
        invariant body + Expand(g, tokens[i..]) == Expand(g, tokens)
      {
        ExpandAt(g, tokens, i, body);
        var part := [tokens[i]];
        if tokens[i].Literal? {
          var replaced := rewriter.Replace(tokens[i].text);
          part := Split(replaced);
        }
        assert part == ExpandToken(g, tokens[i]);
        body := body + part;
      }
      assert tokens[|tokens|..] == [];
    }

    /** Resolves one reference and everything it depends on. */
    method ResolveReference(reference: string, ghost stack: seq<string>, ghost finished: seq<string>)
        returns (r: Result<string, Error>, ghost done: seq<string>)
      requires Ready() && At(stack, finished)
      requires stack != [] ==> DependsOn(g, stack[|stack| - 1], reference)
      modifies this
      ensures r.Success? ==>
                && At(stack, done) && resolving == old(resolving)
                && Extends(old(resolvedReferences), resolvedReferences)
                && reference in resolvedReferences && resolvedReferences[reference] == r.value
      ensures r.Failure? ==> FailureExplained(r.error, reference)
      decreases g.definitions.Keys - resolving, 0
    {
      done := finished;
      if Truthy(resolvedReferences, reference) { return Success(resolvedReferences[reference]), done; }
      if reference in resolving {
        CycleFound(g, stack, reference);
        return Failure(Cyclic), done;
      }
      if reference !in g.definitions { return Failure(MissingDefinition), done; }
      ResolvedNotEmpty(hash, g, ownerByReference, Found(), reference);
      SearchEnters(hash, g, ownerByReference, Found(), resolving, stack, finished, reference);
      resolving := resolving + {reference};
      var semantic;
      semantic, done := ResolveDefinition(reference, stack, finished);
      if semantic.Failure? { return Failure(semantic.error), done; }
      r, done := SettleReference(reference, semantic.value, stack, done);
    }

    /** The meaning of a definition, resolving its references from left to right. */
    method ResolveDefinition(reference: string, ghost stack: seq<string>, ghost finished: seq<string>)
        returns (r: Result<string, Error>, ghost done: seq<string>)
      requires Ready() && At(stack + [reference], finished) && reference in g.definitions
      modifies this
      ensures r.Success? ==>
                && At(stack + [reference], done) && resolving == old(resolving)
                && Extends(old(resolvedReferences), resolvedReferences)
                && (forall b :: DependsOn(g, reference, b) ==> b in resolvedReferences)
                && r.value == Meaning(g, resolvedReferences, reference)
      ensures r.Failure? ==> FailureExplained(r.error, reference)
      decreases g.definitions.Keys - resolving, 2
    {
      done := finished;
      var body := ExpandDefinition(reference);
      var semantic := "";
      for i := 0 to |body|
        invariant At(stack + [reference], done) && resolving == old(resolving)
        invariant Extends(old(resolvedReferences), resolvedReferences)
        invariant Rendered(body, i, resolvedReferences, semantic)
      {
        assert body[i] in body;
        ghost var before := resolvedReferences;
        var text;
        text, done := ResolveToken(body[i], reference, stack, done);
        if text.Failure? { return Failure(text.error), done; }
        RenderNext(body, i, before, resolvedReferences, semantic);
        semantic := semantic + text.value;
      }
      assert body[..|body|] == body;
      r := Success(semantic);
    }

    /** One token of the definition of `reference`. */
    method ResolveToken(token: Token, reference: string, ghost stack: seq<string>, ghost finished: seq<string>)
        returns (r: Result<string, Error>, ghost done: seq<string>)
      requires Ready() && At(stack + [reference], finished) && reference in g.definitions
      requires token in Body(g, reference)
      modifies this
      ensures r.Success? ==>
                && At(stack + [reference], done) && resolving == old(resolving)
                && Extends(old(resolvedReferences), resolvedReferences)
                && match token
                   case Literal(t) => r.value == t
                   case Ref(b) => b in resolvedReferences && r.value == resolvedReferences[b]
      ensures r.Failure? ==> FailureExplained(r.error, reference)
      decreases g.definitions.Keys - resolving, 1
    {
      match token {
        case Literal(text) =>
          r, done := Success(text), finished;
        case Ref(b) =>
          DependenciesDefined(g, reference, b);
          r, done := ResolveReference(b, stack + [reference], finished);
      }
    }

    /** The collision and owner checks. */
    method CheckReference(reference: string, semantic: string, ghost stack: seq<string>, ghost finished: seq<string>)
        returns (error: Option<Error>)
      requires At(stack + [reference], finished) && reference in resolving
      requires forall b :: DependsOn(g, reference, b) ==> b in resolvedReferences
      requires reference in g.definitions && semantic == Meaning(g, resolvedReferences, reference)
      ensures error == None ==> Settle(hash, ownerByReference, Found(), reference, semantic).Success?
      ensures error.Some? ==> FailureExplained(error.value, reference)
    {
      var compact := Compact(hash, semantic);
      if compact in semanticAliases && semanticAliases[compact] != semantic {
        CollisionExplained(hash, g, ownerByReference, Found(), finished, reference);
        error := Some(AliasCollision);
        assert Explains(hash, g, AliasCollision);
        return;
      }
      if reference !in ownerByReference { return Some(MissingOwner); }
      var raw := ownerByReference[reference];
      if semantic in resolvedOwners && resolvedOwners[semantic] != raw {
        AmbiguityExplained(hash, g, ownerByReference, Found(), finished, reference);
        error := Some(AmbiguousResolved);
        assert Explains(hash, g, AmbiguousResolved);
        return;
      }
      error := None;
    }

    /** The updates after both checks. */
    method Store(reference: string, semantic: string) returns (compact: string)
      requires Settle(hash, ownerByReference, Found(), reference, semantic).Success?
      modifies this
      ensures Found() == Settle(hash, ownerByReference, old(Found()), reference, semantic).value
      ensures compact == Compact(hash, semantic) && resolving == old(resolving) - {reference}
      ensures resolvedReferences == old(resolvedReferences)[reference := compact]
    {
      compact := Compact(hash, semantic);
      resolvedOwners := resolvedOwners[semantic := ownerByReference[reference]];
      semanticAliases := semanticAliases[compact := semantic];
      resolvedReferences := resolvedReferences[reference := compact];
      resolving := resolving - {reference};
    }

    /** The checks, and the recording of a resolved reference. */
    method SettleReference(reference: string, semantic: string, ghost stack: seq<string>, ghost finished: seq<string>)
        returns (r: Result<string, Error>, ghost done: seq<string>)
      requires At(stack + [reference], finished) && reference !in stack
      requires forall b :: DependsOn(g, reference, b) ==> b in resolvedReferences
      requires reference in g.definitions && semantic == Meaning(g, resolvedReferences, reference)
      modifies this
      ensures r.Success? ==>
                && At(stack, done) && resolving == old(resolving) - {reference}
                && Extends(old(resolvedReferences), resolvedReferences)
                && reference in resolvedReferences && resolvedReferences[reference] == r.value
      ensures r.Failure? ==> FailureExplained(r.error, reference)
    {
      done := finished + [reference];
      LastInList(stack, reference);
      var error := CheckReference(reference, semantic, stack, finished);
      if error.Some? { return Failure(error.value), done; }
      ghost var next := Settle(hash, ownerByReference, Found(), reference, semantic).value;
      ghost var open := resolving - {reference};
      SearchLeaves(hash, g, ownerByReference, Found(), resolving, stack, finished, reference);
      SettleExtends(reference, semantic);
      var compact := Store(reference, semantic);
      Arrived(next, open, stack, done);
      r := Success(compact);
    }

    lemma Arrived(d: Dictionary, open: set<string>, stack: seq<string>, finished: seq<string>)
      requires Searching(hash, g, ownerByReference, d, open, stack, finished) && Found() == d && resolving == open
      ensures At(stack, finished)
    {
    }

    lemma SettleExtends(reference: string, semantic: string)
      requires Settle(hash, ownerByReference, Found(), reference, semantic).Success? && reference !in resolvedReferences
      ensures Extends(resolvedReferences, resolvedReferences[reference := Compact(hash, semantic)])
    {
    }

    static lemma LastInList(stack: seq<string>, reference: string)
      ensures reference in stack + [reference]
    {
      assert (stack + [reference])[|stack|] == reference;
    }
  }
}
