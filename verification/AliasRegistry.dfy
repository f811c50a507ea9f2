/** Registration of generated identities (`addAlias` in scripts/scheduling-profile/parity.ts):
    which rows keep separate references, whatever the hash function does. */
module AliasRegistry {
  import opened AliasRewriter
  import opened Wrappers

  const PENDING := "@pending:"

  datatype Error =
    | ConflictingAlias | AmbiguousIdentity | ReferenceCollision
    | Cyclic | MissingDefinition | AliasCollision | MissingOwner | AmbiguousResolved | UnresolvedGenerated

  function Reference(hash: string -> string, key: string): string {
    PENDING + hash(key)
  }

  /** The three maps that registration fills: key to raw ID, reference to key, raw ID to reference. */
  datatype Registry = Registry(ids: map<string, string>, definitions: map<string, string>, aliases: Aliases)

  const EMPTY := Registry(map[], map[], map[])

  /** A lookup that JavaScript's truthiness test treats as present. */
  predicate Truthy(m: map<string, string>, k: string) {
    k in m && m[k] != ""
  }

  /** One call of `addAlias`. */
  function Register(hash: string -> string, reg: Registry, raw: string, key: string): Result<Registry, Error> {
    var reference := Reference(hash, key);
    if Truthy(reg.aliases, raw) && reg.aliases[raw] != reference then Failure(ConflictingAlias)
    else if Truthy(reg.ids, key) && reg.ids[key] != raw then Failure(AmbiguousIdentity)
    else if reference in reg.definitions && reg.definitions[reference] != key then Failure(ReferenceCollision)
    else Success(Registry(reg.ids[key := raw], reg.definitions[reference := key], reg.aliases[raw := reference]))
  }

  /** A whole history of `(raw ID, key)` registrations; the first failing check aborts it. */
  function RegisterAll(hash: string -> string, history: seq<(string, string)>): Result<Registry, Error> {
    if history == [] then Success(EMPTY)
    else
      match RegisterAll(hash, history[..|history| - 1])
      case Failure(e) => Failure(e)
      case Success(reg) =>
        var (raw, key) := history[|history| - 1];
        Register(hash, reg, raw, key)
  }

  /** What every successful registration keeps. */
  ghost predicate Consistent(hash: string -> string, reg: Registry) {
    && (forall r :: r in reg.definitions ==> Reference(hash, reg.definitions[r]) == r)
    && (forall r :: r in reg.definitions ==> reg.definitions[r] in reg.ids)
    && (forall k :: k in reg.ids ==> Reference(hash, k) in reg.definitions && reg.definitions[Reference(hash, k)] == k)
    && (forall k :: k in reg.ids ==> reg.ids[k] in reg.aliases && reg.aliases[reg.ids[k]] == Reference(hash, k))
    && (forall id :: id in reg.aliases ==> reg.aliases[id] in reg.definitions)
    // only the empty raw ID can be displaced as the owner of its key
    && (forall id :: id in reg.aliases && id != "" ==> reg.ids[reg.definitions[reg.aliases[id]]] == id)
  }

  lemma RegisterConsistent(hash: string -> string, reg: Registry, raw: string, key: string)
    requires Consistent(hash, reg) && Register(hash, reg, raw, key).Success?
    ensures Consistent(hash, Register(hash, reg, raw, key).value)
    ensures raw in reg.aliases ==> reg.aliases[raw] == Reference(hash, key)
  {
  }

  /** The alias map holds exactly the registered raw IDs, each under the reference of its keys. */
  ghost predicate Records(hash: string -> string, reg: Registry, history: seq<(string, string)>) {
    && (forall e :: e in history ==> e.0 in reg.aliases && reg.aliases[e.0] == Reference(hash, e.1) && e.1 in reg.ids)
    && (forall id :: id in reg.aliases ==> exists e :: e in history && e.0 == id)
  }

  lemma RegisterRecords(hash: string -> string, reg: Registry, history: seq<(string, string)>, entry: (string, string))
    requires Consistent(hash, reg) && Records(hash, reg, history)
    requires Register(hash, reg, entry.0, entry.1).Success?
    ensures Records(hash, Register(hash, reg, entry.0, entry.1).value, history + [entry])
  {
    assert entry.0 in reg.aliases ==> reg.aliases[entry.0] == Reference(hash, entry.1);
    RecordsGrow(hash, reg, Register(hash, reg, entry.0, entry.1).value, history, entry);
  }

  lemma RecordsGrow(hash: string -> string, reg: Registry, next: Registry, history: seq<(string, string)>,
                    entry: (string, string))
    requires Records(hash, reg, history)
    requires next.aliases == reg.aliases[entry.0 := Reference(hash, entry.1)]
    requires next.ids.Keys == reg.ids.Keys + {entry.1}
    requires entry.0 in reg.aliases ==> reg.aliases[entry.0] == Reference(hash, entry.1)
    ensures Records(hash, next, history + [entry])
  {
    var longer := history + [entry];
    forall e | e in longer ensures e.0 in next.aliases && next.aliases[e.0] == Reference(hash, e.1) && e.1 in next.ids {
      assert e in history || e == entry;
      assert e.1 in next.ids.Keys;
    }
    forall id | id in next.aliases ensures exists e :: e in longer && e.0 == id {
      if id == entry.0 {
        assert longer[|history|] == entry;
      } else {
        var e :| e in history && e.0 == id;
        assert e in longer;
      }
    }
  }

  lemma {:induction false} RegisterAllConsistent(hash: string -> string, history: seq<(string, string)>)
    requires RegisterAll(hash, history).Success?
    ensures Consistent(hash, RegisterAll(hash, history).value)
    ensures Records(hash, RegisterAll(hash, history).value, history)
  {
    if history != [] {
      var front, entry := history[..|history| - 1], history[|history| - 1];
      assert history == front + [entry];
      RegisterAllConsistent(hash, front);
      RegisterConsistent(hash, RegisterAll(hash, front).value, entry.0, entry.1);
      RegisterRecords(hash, RegisterAll(hash, front).value, front, entry);
    }
  }

  ghost predicate Injective(m: Aliases) {
    forall a, b :: a in m && b in m && m[a] == m[b] ==> a == b
  }

  /** The empty raw ID registered a key before another raw ID did. */
  ghost predicate EmptyIdDisplaced(history: seq<(string, string)>) {
    exists i, j :: 0 <= i < j < |history| && history[i].0 == "" && history[j].0 != "" && history[i].1 == history[j].1
  }

  lemma DisplacedLater(history: seq<(string, string)>, entry: (string, string))
    requires EmptyIdDisplaced(history)
    ensures EmptyIdDisplaced(history + [entry])
  {
    var i, j :| 0 <= i < j < |history| && history[i].0 == "" && history[j].0 != "" && history[i].1 == history[j].1;
    var longer := history + [entry];
    assert longer[i] == history[i] && longer[j] == history[j];
  }

  /** A registration that makes a raw ID share the reference of the empty raw ID displaces it. */
  lemma SharingDisplaces(hash: string -> string, reg: Registry, history: seq<(string, string)>,
                         entry: (string, string), id: string)
    requires Consistent(hash, reg) && Records(hash, reg, history) && id != ""
    requires Register(hash, reg, entry.0, entry.1).Success?
    requires !(id in reg.aliases && "" in reg.aliases && reg.aliases[id] == reg.aliases[""])
    requires var m := Register(hash, reg, entry.0, entry.1).value.aliases; id in m && "" in m && m[id] == m[""]
    ensures EmptyIdDisplaced(history + [entry])
  {
    RegisterConsistent(hash, reg, entry.0, entry.1);
    assert entry.0 == id && "" in reg.aliases;
    var e :| e in history && e.0 == "";
    var i :| 0 <= i < |history| && history[i] == e;
    assert reg.definitions[Reference(hash, history[i].1)] == history[i].1;
    LastDisplaces(history, entry, i);
  }

  lemma LastDisplaces(history: seq<(string, string)>, entry: (string, string), i: nat)
    requires i < |history| && history[i].0 == "" && entry.0 != "" && history[i].1 == entry.1
    ensures EmptyIdDisplaced(history + [entry])
  {
    var longer := history + [entry];
    assert longer[i] == history[i] && longer[|history|] == entry;
  }

  /** Two raw IDs share a reference in no other way. */
  lemma {:induction false} SharedReference(hash: string -> string, history: seq<(string, string)>, id: string)
    requires RegisterAll(hash, history).Success? && id != ""
    requires var m := RegisterAll(hash, history).value.aliases; id in m && "" in m && m[id] == m[""]
    ensures EmptyIdDisplaced(history)
    decreases |history|
  {
    var n := |history| - 1;
    var front, entry := history[..n], history[n];
    assert history == front + [entry];
    RegisterAllConsistent(hash, front);
    var reg := RegisterAll(hash, front).value;
    if id in reg.aliases && "" in reg.aliases && reg.aliases[id] == reg.aliases[""] {
      SharedReference(hash, front, id);
      DisplacedLater(front, entry);
    } else {
      SharingDisplaces(hash, reg, front, entry, id);
    }
  }

  /** Distinct raw IDs keep distinct references exactly when the empty raw ID was not displaced
      from its key: the owner check reads an empty owner as no owner. */
  lemma DistinctReferences(hash: string -> string, history: seq<(string, string)>)
    requires RegisterAll(hash, history).Success?
    ensures Injective(RegisterAll(hash, history).value.aliases) <==> !EmptyIdDisplaced(history)
  {
    RegisterAllConsistent(hash, history);
    var reg := RegisterAll(hash, history).value;
    if EmptyIdDisplaced(history) {
      var i, j :| 0 <= i < j < |history| && history[i].0 == "" && history[j].0 != "" && history[i].1 == history[j].1;
      assert history[i] in history && history[j] in history;
      assert reg.aliases[""] == reg.aliases[history[j].0];
    } else {
      forall a, b | a in reg.aliases && b in reg.aliases && reg.aliases[a] == reg.aliases[b] ensures a == b {
        if a != b {
          if a == "" { SharedReference(hash, history, b); }
          if b == "" { SharedReference(hash, history, a); }
        }
      }
    }
  }

  /** The failing case is real: two rows end up with one reference. */
  lemma EmptyIdMerges(hash: string -> string)
    ensures var history := [("", "Pairing:1"), ("p1", "Pairing:1")];
            && RegisterAll(hash, history).Success?
            && RegisterAll(hash, history).value.aliases[""] == RegisterAll(hash, history).value.aliases["p1"]
  {
    var history := [("", "Pairing:1"), ("p1", "Pairing:1")];
    assert history[..1] == [("", "Pairing:1")] && history[..1][..0] == [];
    assert RegisterAll(hash, history[..1]).Success?;
  }

  // ----- when registration fails -----

  /** One raw ID with two references. */
  predicate Conflicts(hash: string -> string, earlier: (string, string), later: (string, string)) {
    earlier.0 == later.0 && hash(earlier.1) != hash(later.1)
  }

  /** One key with two raw IDs, the earlier not empty. */
  predicate Shares(earlier: (string, string), later: (string, string)) {
    earlier.1 == later.1 && earlier.0 != "" && earlier.0 != later.0
  }

  /** Two keys with one hash. */
  predicate KeysCollide(hash: string -> string, earlier: (string, string), later: (string, string)) {
    earlier.1 != later.1 && hash(earlier.1) == hash(later.1)
  }

  ghost predicate SomeConflict(hash: string -> string, before: seq<(string, string)>, entry: (string, string)) {
    exists e :: e in before && Conflicts(hash, e, entry)
  }

  ghost predicate SomeShare(before: seq<(string, string)>, entry: (string, string)) {
    exists e :: e in before && Shares(e, entry)
  }

  ghost predicate SomeCollision(hash: string -> string, before: seq<(string, string)>, entry: (string, string)) {
    exists e :: e in before && KeysCollide(hash, e, entry)
  }

  lemma ReferencesDiffer(hash: string -> string, k: string, l: string)
    ensures Reference(hash, k) == Reference(hash, l) <==> hash(k) == hash(l)
  {
    assert Reference(hash, k)[|PENDING|..] == hash(k) && Reference(hash, l)[|PENDING|..] == hash(l);
  }

  lemma ConflictSeen(hash: string -> string, reg: Registry, before: seq<(string, string)>, entry: (string, string))
    requires Records(hash, reg, before)
    ensures Truthy(reg.aliases, entry.0) && reg.aliases[entry.0] != Reference(hash, entry.1)
            <==> SomeConflict(hash, before, entry)
  {
    if e :| e in before && e.0 == entry.0 { ReferencesDiffer(hash, e.1, entry.1); }
    forall e | e in before && Conflicts(hash, e, entry) ensures Reference(hash, e.1) != Reference(hash, entry.1) {
      ReferencesDiffer(hash, e.1, entry.1);
    }
  }

  /** The recorded owner of a key registered it. */
  lemma OwnerRegistered(hash: string -> string, reg: Registry, before: seq<(string, string)>, key: string)
    requires Consistent(hash, reg) && Records(hash, reg, before) && key in reg.ids
    ensures (reg.ids[key], key) in before
  {
    var e :| e in before && e.0 == reg.ids[key];
    assert reg.definitions[Reference(hash, e.1)] == e.1;
  }

  lemma ShareSeen(hash: string -> string, reg: Registry, before: seq<(string, string)>, entry: (string, string))
    requires Consistent(hash, reg) && Records(hash, reg, before)
    ensures Truthy(reg.ids, entry.1) && reg.ids[entry.1] != entry.0 <==> SomeShare(before, entry)
  {
    if entry.1 in reg.ids { OwnerRegistered(hash, reg, before, entry.1); }
    if Truthy(reg.ids, entry.1) && reg.ids[entry.1] != entry.0 {
      assert Shares((reg.ids[entry.1], entry.1), entry);
    }
    forall e | e in before && Shares(e, entry) ensures reg.ids[entry.1] == e.0 { }
  }

  lemma CollisionSeen(hash: string -> string, reg: Registry, before: seq<(string, string)>, entry: (string, string))
    requires Consistent(hash, reg) && Records(hash, reg, before)
    ensures var r := Reference(hash, entry.1);
            r in reg.definitions && reg.definitions[r] != entry.1 <==> SomeCollision(hash, before, entry)
  {
    var r := Reference(hash, entry.1);
    if r in reg.definitions && reg.definitions[r] != entry.1 {
      var k := reg.definitions[r];
      OwnerRegistered(hash, reg, before, k);
      ReferencesDiffer(hash, k, entry.1);
      assert KeysCollide(hash, (reg.ids[k], k), entry);
    }
    forall e | e in before && KeysCollide(hash, e, entry) ensures reg.definitions[r] == e.1 {
      ReferencesDiffer(hash, e.1, entry.1);
    }
  }

  /** The first check that the entry fails after `before`, if any. */
  ghost predicate FailsWith(hash: string -> string, before: seq<(string, string)>, entry: (string, string),
                            failed: Option<Error>) {
    if SomeConflict(hash, before, entry) then failed == Some(ConflictingAlias)
    else if SomeShare(before, entry) then failed == Some(AmbiguousIdentity)
    else if SomeCollision(hash, before, entry) then failed == Some(ReferenceCollision)
    else failed == None
  }

  lemma RegisterExact(hash: string -> string, reg: Registry, before: seq<(string, string)>, entry: (string, string))
    requires Consistent(hash, reg) && Records(hash, reg, before)
    ensures FailsWith(hash, before, entry, Failed(Register(hash, reg, entry.0, entry.1)))
  {
    ConflictSeen(hash, reg, before, entry);
    ShareSeen(hash, reg, before, entry);
    CollisionSeen(hash, reg, before, entry);
  }

  ghost predicate FailsAt(hash: string -> string, history: seq<(string, string)>, j: nat, failed: Option<Error>)
    requires j < |history|
  {
    FailsWith(hash, history[..j], history[j], failed)
  }

  /** A history is registered exactly when every entry agrees with all earlier ones; otherwise the
      first that does not is reported, with the first check it fails. */
  ghost predicate RegistersLike(hash: string -> string, history: seq<(string, string)>, failed: Option<Error>) {
    match failed
    case None => forall j :: 0 <= j < |history| ==> FailsAt(hash, history, j, None)
    case Some(_) =>
      exists j :: 0 <= j < |history| && FailsAt(hash, history, j, failed)
                  && forall k :: 0 <= k < j ==> FailsAt(hash, history, k, None)
  }

  lemma FailsAtFront(hash: string -> string, history: seq<(string, string)>, n: nat, j: nat, failed: Option<Error>)
    requires j < n <= |history|
    ensures FailsAt(hash, history[..n], j, failed) <==> FailsAt(hash, history, j, failed)
  {
    assert history[..n][..j] == history[..j];
  }

  lemma LikeFront(hash: string -> string, history: seq<(string, string)>, n: nat, failed: Option<Error>)
    requires n < |history| && RegistersLike(hash, history[..n], failed)
    ensures failed == None ==> forall j :: 0 <= j < n ==> FailsAt(hash, history, j, None)
    ensures failed.Some? ==> RegistersLike(hash, history, failed)
  {
    forall j, f | 0 <= j < n ensures FailsAt(hash, history[..n], j, f) <==> FailsAt(hash, history, j, f) {
      FailsAtFront(hash, history, n, j, f);
    }
  }

  lemma LikeLast(hash: string -> string, history: seq<(string, string)>, n: nat, failed: Option<Error>)
    requires n + 1 == |history| && forall j :: 0 <= j < n ==> FailsAt(hash, history, j, None)
    requires FailsWith(hash, history[..n], history[n], failed)
    ensures RegistersLike(hash, history, failed)
  {
    assert FailsAt(hash, history, n, failed);
  }

  lemma RegisterAllStep(hash: string -> string, history: seq<(string, string)>, n: nat)
    requires n + 1 == |history|
    ensures RegisterAll(hash, history)
            == match RegisterAll(hash, history[..n])
               case Failure(e) => Failure(e)
               case Success(reg) => Register(hash, reg, history[n].0, history[n].1)
  {
  }

  function Failed(r: Result<Registry, Error>): Option<Error> {
    if r.Failure? then Some(r.error) else None
  }

  lemma {:induction false} RegisterAllExact(hash: string -> string, history: seq<(string, string)>)
    ensures RegistersLike(hash, history, Failed(RegisterAll(hash, history)))
  {
    if history != [] {
      var n := |history| - 1;
      var front := RegisterAll(hash, history[..n]);
      RegisterAllStep(hash, history, n);
      RegisterAllExact(hash, history[..n]);
      LikeFront(hash, history, n, Failed(front));
      if front.Success? {
        RegisterAllConsistent(hash, history[..n]);
        RegisterExact(hash, front.value, history[..n], history[n]);
        LikeLast(hash, history, n, Failed(RegisterAll(hash, history)));
      }
    }
  }
}
