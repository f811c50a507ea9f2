/** The literal alias matcher (scripts/scheduling-profile/parity.ts): an incremental trie
    whose replacement must agree with the longest-first regular expression it replaces.
    Characters stand for UTF-16 code units. */
module AliasRewriter {
  import opened Wrappers

  type Aliases = map<string, string>

  /** Shorter identities are only replaced when they are the whole string. */
  const MIN_KEY: nat := 8

  // ----- the replacement rule -----

  predicate Key(aliases: Aliases, s: string) {
    |s| >= MIN_KEY && s in aliases
  }

  /** A key of `n` characters starts at `position`. */
  predicate KeyAt(aliases: Aliases, value: string, position: nat, n: nat) {
    position + n <= |value| && Key(aliases, value[position..position + n])
  }

  /** The length of the longest key of at most `n` characters at `position`; 0 if there is none. */
  function Longest(aliases: Aliases, value: string, position: nat, n: nat): (r: nat)
    ensures r <= n
    ensures r == 0 || KeyAt(aliases, value, position, r)
    ensures forall k :: r < k <= n ==> !KeyAt(aliases, value, position, k)
  {
    if n == 0 || KeyAt(aliases, value, position, n) then n
    else Longest(aliases, value, position, n - 1)
  }

  /** The length of the key to replace at `position`; 0 if no key starts there. */
  function MatchLength(aliases: Aliases, value: string, position: nat): (r: nat)
    requires position <= |value|
    ensures position + r <= |value|
    ensures r == 0 || KeyAt(aliases, value, position, r)
    ensures forall k :: k > r ==> !KeyAt(aliases, value, position, k)
  {
    Longest(aliases, value, position, |value| - position)
  }

  /** Left to right, longest key first, never rescanning a replacement. */
  function Rewrite(aliases: Aliases, value: string, position: nat): string
    requires position <= |value|
    decreases |value| - position
  {
    if position == |value| then ""
    else
      var n := MatchLength(aliases, value, position);
      if n > 0 then aliases[value[position..position + n]] + Rewrite(aliases, value, position + n)
      else [value[position]] + Rewrite(aliases, value, position + 1)
  }

  /** What one step of the rewriting appends, and where it continues. */
  function Step(aliases: Aliases, value: string, position: nat): (string, nat)
    requires position < |value|
  {
    var n := MatchLength(aliases, value, position);
    if n > 0 then (aliases[value[position..position + n]], position + n) else ([value[position]], position + 1)
  }

  lemma StepExtends(aliases: Aliases, value: string, position: nat, done: string)
    requires position < |value|
    ensures position < Step(aliases, value, position).1 <= |value|
    ensures done + Rewrite(aliases, value, position)
            == (done + Step(aliases, value, position).0) + Rewrite(aliases, value, Step(aliases, value, position).1)
  {
    var (appended, next) := Step(aliases, value, position);
    var rest := Rewrite(aliases, value, next);
    assert Rewrite(aliases, value, position) == appended + rest;
    assert done + (appended + rest) == (done + appended) + rest;
  }

  /** An exact match wins unless its alias is empty, which the source takes for a miss. */
  function Replaced(aliases: Aliases, value: string): string {
    if value in aliases && aliases[value] != "" then aliases[value] else Rewrite(aliases, value, 0)
  }

  // ----- what the replacement rule says -----

  /** One step of a left-to-right reading of a string. */
  datatype Piece = Copy(c: char) | Hit(key: string)

  predicate StandsAt(text: string, value: string, position: nat) {
    position + |text| <= |value| && value[position..position + |text|] == text
  }

  /** `key` is an alias key of at least eight characters that stands in `value` at `position`. */
  predicate Occurs(aliases: Aliases, value: string, position: nat, key: string) {
    |key| >= 8 && key in aliases && StandsAt(key, value, position)
  }

  /** `pieces` reads `value` from `position` to its end, leftmost and longest: a hit takes the
      longest key that occurs there, and a character is copied only where none does. */
  ghost predicate Reads(aliases: Aliases, value: string, position: nat, pieces: seq<Piece>)
    requires position <= |value|
    decreases pieces
  {
    if pieces == [] then position == |value|
    else
      match pieces[0]
      case Copy(c) =>
        && position < |value| && value[position] == c
        && (forall key :: !Occurs(aliases, value, position, key))
        && Reads(aliases, value, position + 1, pieces[1..])
      case Hit(key) =>
        && Occurs(aliases, value, position, key)
        && (forall other :: Occurs(aliases, value, position, other) ==> |other| <= |key|)
        && Reads(aliases, value, position + |key|, pieces[1..])
  }

  /** What a reading puts out: the alias of every hit, and the copied characters. */
  function OutputOf(aliases: Aliases, pieces: seq<Piece>): string {
    if pieces == [] then ""
    else
      (match pieces[0]
       case Copy(c) => [c]
       case Hit(key) => if key in aliases then aliases[key] else key) + OutputOf(aliases, pieces[1..])
  }

  lemma KeyOccurs(aliases: Aliases, value: string, position: nat, n: nat)
    requires position + n <= |value|
    ensures KeyAt(aliases, value, position, n) <==> Occurs(aliases, value, position, value[position..position + n])
  {
  }

  lemma NoKeyHere(aliases: Aliases, value: string, position: nat)
    requires position <= |value|
    ensures MatchLength(aliases, value, position) == 0 <==> forall key :: !Occurs(aliases, value, position, key)
  {
    var n := MatchLength(aliases, value, position);
    if n > 0 { KeyOccurs(aliases, value, position, n); }
    forall key | Occurs(aliases, value, position, key) ensures n > 0 { KeyOccurs(aliases, value, position, |key|); }
  }

  lemma LongestKeyHere(aliases: Aliases, value: string, position: nat, key: string)
    requires position <= |value| && Occurs(aliases, value, position, key)
    requires forall other :: Occurs(aliases, value, position, other) ==> |other| <= |key|
    ensures MatchLength(aliases, value, position) == |key|
  {
    var n := MatchLength(aliases, value, position);
    KeyOccurs(aliases, value, position, |key|);
    KeyOccurs(aliases, value, position, n);
  }

  lemma MatchIsLongest(aliases: Aliases, value: string, position: nat)
    requires position <= |value| && MatchLength(aliases, value, position) > 0
    ensures var key := value[position..position + MatchLength(aliases, value, position)];
            && Occurs(aliases, value, position, key)
            && forall other :: Occurs(aliases, value, position, other) ==> |other| <= |key|
  {
    KeyOccurs(aliases, value, position, MatchLength(aliases, value, position));
    forall other | Occurs(aliases, value, position, other) ensures |other| <= MatchLength(aliases, value, position) {
      KeyOccurs(aliases, value, position, |other|);
    }
  }

  /** The piece at the front of a reading is the next step of the rewriting. */
  lemma FirstPiece(aliases: Aliases, value: string, position: nat, pieces: seq<Piece>)
    requires position <= |value| && Reads(aliases, value, position, pieces) && pieces != []
    ensures position < |value|
    ensures Step(aliases, value, position)
            == match pieces[0]
               case Copy(c) => ([c], position + 1)
               case Hit(key) => (if key in aliases then aliases[key] else key, position + |key|)
  {
    match pieces[0]
    case Copy(c) => NoKeyHere(aliases, value, position);
    case Hit(key) => LongestKeyHere(aliases, value, position, key);
  }

  lemma RewriteUnfolds(aliases: Aliases, value: string, position: nat)
    requires position < |value|
    ensures var (appended, next) := Step(aliases, value, position);
            next <= |value| && Rewrite(aliases, value, position) == appended + Rewrite(aliases, value, next)
  {
  }

  lemma RestIsRead(aliases: Aliases, value: string, position: nat, pieces: seq<Piece>)
    requires position < |value| && Reads(aliases, value, position, pieces) && pieces != []
    ensures var next := match pieces[0] case Copy(_) => position + 1 case Hit(key) => position + |key|;
            next <= |value| && Reads(aliases, value, next, pieces[1..])
  {
  }

  /** Every leftmost-longest reading of a string yields the same replacement. */
  lemma {:induction false} RewriteFollowsRule(aliases: Aliases, value: string, position: nat, pieces: seq<Piece>)
    requires position <= |value| && Reads(aliases, value, position, pieces)
    ensures Rewrite(aliases, value, position) == OutputOf(aliases, pieces)
    decreases pieces
  {
    if pieces != [] {
      FirstPiece(aliases, value, position, pieces);
      RewriteUnfolds(aliases, value, position);
      RestIsRead(aliases, value, position, pieces);
      RewriteFollowsRule(aliases, value, Step(aliases, value, position).1, pieces[1..]);
    }
  }

  /** And there is such a reading. */
  lemma {:induction false} ReadingExists(aliases: Aliases, value: string, position: nat) returns (pieces: seq<Piece>)
    requires position <= |value|
    ensures Reads(aliases, value, position, pieces)
    decreases |value| - position
  {
    if position == |value| { return []; }
    var n := MatchLength(aliases, value, position);
    if n > 0 {
      MatchIsLongest(aliases, value, position);
      var rest := ReadingExists(aliases, value, position + n);
      pieces := [Hit(value[position..position + n])] + rest;
    } else {
      NoKeyHere(aliases, value, position);
      var rest := ReadingExists(aliases, value, position + 1);
      pieces := [Copy(value[position])] + rest;
    }
  }

  /** What a replacement answers: the alias of an exact match, whatever its length, and
      otherwise the output of the readings of the value. */
  ghost predicate Replaces(aliases: Aliases, value: string, r: string) {
    if value in aliases && aliases[value] != "" then r == aliases[value]
    else forall pieces :: Reads(aliases, value, 0, pieces) ==> r == OutputOf(aliases, pieces)
  }

  lemma ReplacedReplaces(aliases: Aliases, value: string)
    ensures Replaces(aliases, value, Replaced(aliases, value))
  {
    forall pieces | Reads(aliases, value, 0, pieces) ensures Rewrite(aliases, value, 0) == OutputOf(aliases, pieces) {
      RewriteFollowsRule(aliases, value, 0, pieces);
    }
  }

  lemma {:induction false} CopiesOnly(aliases: Aliases, value: string, position: nat, pieces: seq<Piece>)
    requires position <= |value| && Reads(aliases, value, position, pieces)
    requires forall p: nat, key :: !Occurs(aliases, value, p, key)
    ensures OutputOf(aliases, pieces) == value[position..]
    decreases pieces
  {
    if pieces != [] && pieces[0].Copy? {
      CopiesOnly(aliases, value, position + 1, pieces[1..]);
    }
  }

  /** Identities of fewer than eight characters are only replaced when they are the whole string:
      a string in which no longer identity occurs stays as it is. */
  lemma ShortIdentitiesStay(aliases: Aliases, value: string, r: string)
    requires value !in aliases || aliases[value] == ""
    requires forall p: nat, key :: key in aliases && |key| >= 8 ==> !StandsAt(key, value, p)
    requires Replaces(aliases, value, r)
    ensures r == value
  {
    assert forall p: nat, key :: !Occurs(aliases, value, p, key);
    var pieces := ReadingExists(aliases, value, 0);
    CopiesOnly(aliases, value, 0, pieces);
  }

  // ----- the trie -----

  ghost function Indexed(aliases: Aliases): set<string> {
    set k | k in aliases && Key(aliases, k)
  }

  function Extend(p: string, c: char): string { p + [c] }

  lemma ExtendInjective(p: string, c: char)
    ensures forall q, d :: Extend(q, d) == Extend(p, c) ==> q == p && d == c
  {
    forall q, d | Extend(q, d) == Extend(p, c) ensures q == p && d == c {
      assert Extend(q, d)[..|q|] == q && Extend(p, c)[..|p|] == p;
      assert Extend(q, d)[|q|] == d && Extend(p, c)[|p|] == c;
    }
  }

  class TrieNode {
    var children: map<char, TrieNode>
    var rawId: Option<string>

    constructor ()
      ensures children == map[] && rawId == None
    {
      children, rawId := map[], None;
    }
  }

  class Rewriter {
    var aliases: Aliases
    const root: TrieNode
    /** Every node of the trie under the string that leads to it. */
    ghost var nodes: map<string, TrieNode>
    ghost var Repr: set<TrieNode>

    ghost predicate Linked()
      reads this`nodes, this`Repr, Repr
    {
      && "" in nodes && nodes[""] == root
      && (forall p :: p in nodes ==> nodes[p] in Repr)
      && (forall p, q :: p in nodes && q in nodes && p != q ==> nodes[p] != nodes[q])
      && Edges()
    }

    /** The children of a node are the nodes of the strings that are one character longer. */
    ghost predicate Edges()
      requires forall p :: p in nodes ==> nodes[p] in Repr
      reads this`nodes, this`Repr, Repr
    {
      && (forall p, c :: Extend(p, c) in nodes ==> p in nodes && c in nodes[p].children)
      && (forall p, c :: p in nodes && c in nodes[p].children ==>
            Extend(p, c) in nodes && nodes[p].children[c] == nodes[Extend(p, c)])
    }

    ghost predicate Terminals(keys: set<string>)
      reads this`nodes, this`Repr, Repr
    {
      && (forall p :: p in nodes ==> nodes[p] in Repr && nodes[p].rawId == if p in keys then Some(p) else None)
      && keys <= nodes.Keys
    }

    ghost predicate Valid()
      reads this, Repr
    {
      Linked() && Terminals(Indexed(aliases))
    }

    constructor ()
      ensures Valid() && fresh(Repr) && aliases == map[]
    {
      aliases := map[];
      var node := new TrieNode();
      root := node;
      nodes, Repr := map["" := node], {node};
    }

    function Get(rawId: string): Option<string>
      reads this
    {
      if rawId in aliases then Some(aliases[rawId]) else None
    }

    /** Makes the path of a raw ID and marks its end. */
    method MarkPath(path: string, ghost keys: set<string>)
      requires Linked() && Terminals(keys)
      modifies this`nodes, this`Repr, Repr
      ensures Linked() && Terminals(keys + {path}) && fresh(Repr - old(Repr))
    {
      var node := MakePath(path, keys);
      node.rawId := Some(path);
    }

    /** Adds or overwrites one alias. */
    method Add(rawId: string, alias: string)
      requires Valid()
      modifies this, Repr
      ensures Valid() && fresh(Repr - old(Repr))
      ensures aliases == old(aliases)[rawId := alias]
    {
      var existed := rawId in aliases;
      ghost var keys := Indexed(aliases);
      aliases := aliases[rawId := alias];
      IndexedGrows(old(aliases), rawId, alias);
      if existed || |rawId| < MIN_KEY { return; }
      MarkPath(rawId, keys);
    }

    static lemma IndexedGrows(aliases: Aliases, rawId: string, alias: string)
      ensures Indexed(aliases[rawId := alias])
              == if rawId in aliases || |rawId| < MIN_KEY then Indexed(aliases) else Indexed(aliases) + {rawId}
    {
    }

    /** Walks the trie along `path`, creating the nodes that are missing. */
    method MakePath(path: string, ghost keys: set<string>) returns (node: TrieNode)
      requires Linked() && Terminals(keys)
      modifies this`nodes, this`Repr, Repr
      ensures Linked() && Terminals(keys) && fresh(Repr - old(Repr))
      ensures path in nodes && nodes[path] == node
    {
      node := root;
      assert path[..0] == "";
      for index := 0 to |path|
        invariant Linked() && Terminals(keys) && fresh(Repr - old(Repr))
        invariant path[..index] in nodes && nodes[path[..index]] == node
      {
        assert path[..index + 1] == Extend(path[..index], path[index]);
        node := Child(path[..index], path[index], node, keys);
      }
      assert path[..|path|] == path;
    }

    method Child(ghost p: string, c: char, node: TrieNode, ghost keys: set<string>) returns (child: TrieNode)
      requires Linked() && Terminals(keys)
      requires p in nodes && nodes[p] == node
      modifies this`nodes, this`Repr, node
      ensures Linked() && Terminals(keys)
      ensures fresh(Repr - old(Repr))
      ensures Extend(p, c) in nodes && nodes[Extend(p, c)] == child
    {
      if c in node.children {
        child := node.children[c];
      } else {
        child := Grow(p, c, node, keys);
      }
    }

    /** Adds the child that is missing. */
    method Grow(ghost p: string, c: char, node: TrieNode, ghost keys: set<string>) returns (child: TrieNode)
      requires Linked() && Terminals(keys)
      requires p in nodes && nodes[p] == node && c !in node.children
      modifies this`nodes, this`Repr, node
      ensures Linked() && Terminals(keys)
      ensures fresh(Repr - old(Repr))
      ensures Extend(p, c) in nodes && nodes[Extend(p, c)] == child
    {
      ghost var longer, before := Extend(p, c), nodes;
      ExtendInjective(p, c);
      NotYet(p, c);
      child := new TrieNode();
      node.children := node.children[c := child];
      nodes, Repr := nodes[longer := child], Repr + {child};
      forall q, d | Extend(q, d) in nodes ensures q in nodes && d in nodes[q].children {
        if Extend(q, d) != longer { assert q in before && d in old(before[q].children); }
      }
      forall q, d | q in nodes && d in nodes[q].children
        ensures Extend(q, d) in nodes && nodes[q].children[d] == nodes[Extend(q, d)]
      {
        if q in before && (q != p || d != c) { assert d in old(before[q].children); }
      }
    }

    lemma NotYet(p: string, c: char)
      requires Linked() && p in nodes && c !in nodes[p].children
      ensures Extend(p, c) !in nodes && forall d :: Extend(Extend(p, c), d) !in nodes
    {
      forall d ensures Extend(Extend(p, c), d) !in nodes {
        assert Extend(Extend(p, c), d) in nodes ==> Extend(p, c) in nodes;
      }
    }

    lemma {:induction false} PrefixInTrie(p: string, q: string)
      requires Linked() && q in nodes && p <= q
      ensures p in nodes
      decreases |q|
    {
      if p != q {
        var front := q[..|q| - 1];
        assert q == Extend(front, q[|q| - 1]);
        PrefixInTrie(p, front);
      }
    }

    /** A walk that falls off the trie after `n` characters has seen every key. */
    lemma WalkIsComplete(value: string, position: nat, n: nat, matched: nat)
      requires Valid() && position + n <= |value| && matched <= n
      requires matched == Longest(aliases, value, position, n)
      requires position + n == |value| || value[position..position + n + 1] !in nodes
      ensures matched == MatchLength(aliases, value, position)
    {
      var r := MatchLength(aliases, value, position);
      if r > n {
        assert Key(aliases, value[position..position + r]);
        PrefixInTrie(value[position..position + n + 1], value[position..position + r]);
      }
    }

    /** The inner scan: follows the trie from `position` and remembers the deepest terminal. */
    method Scan(value: string, position: nat) returns (matchedId: Option<string>, matchedEnd: nat)
      requires Valid() && position < |value|
      ensures matchedEnd == position + MatchLength(aliases, value, position)
      ensures matchedId == if matchedEnd == position then None else Some(value[position..matchedEnd])
    {
      var node, cursor := root, position;
      matchedId, matchedEnd := None, position;
      assert value[position..position] == "";
      while cursor < |value|
        invariant position <= matchedEnd <= cursor <= |value|
        invariant value[position..cursor] in nodes && nodes[value[position..cursor]] == node
        invariant matchedEnd - position == Longest(aliases, value, position, cursor - position)
        invariant matchedId == if matchedEnd == position then None else Some(value[position..matchedEnd])
      {
        assert value[position..cursor + 1] == Extend(value[position..cursor], value[cursor]);
        if value[cursor] !in node.children { break; }
        node := node.children[value[cursor]];
        cursor := cursor + 1;
        if node.rawId != None {
          matchedId, matchedEnd := node.rawId, cursor;
        }
      }
      WalkIsComplete(value, position, cursor - position, matchedEnd - position);
    }

    /** `output` and the uncopied text from `copiedThrough` make up the result so far. */
    static ghost predicate Progress(aliases: Aliases, value: string, output: string, copiedThrough: nat, position: nat) {
      && copiedThrough <= position <= |value|
      && (copiedThrough == 0 ==> output == "")
      && (output + value[copiedThrough..position]) + Rewrite(aliases, value, position) == Rewrite(aliases, value, 0)
    }

    static lemma ProgressStart(aliases: Aliases, value: string)
      ensures Progress(aliases, value, "", 0, 0)
    {
      assert "" + value[0..0] == "";
    }

    static lemma ProgressHit(aliases: Aliases, value: string, output: string, copiedThrough: nat, position: nat,
                             next: nat)
      requires Progress(aliases, value, output, copiedThrough, position) && position < |value|
      requires next == position + MatchLength(aliases, value, position) && next > position
      ensures value[position..next] in aliases
      ensures Progress(aliases, value, output + value[copiedThrough..position] + aliases[value[position..next]],
                       next, next)
    {
      var alias := aliases[value[position..next]];
      var done := output + value[copiedThrough..position];
      StepExtends(aliases, value, position, done);
      assert (done + alias) + value[next..next] == done + alias;
    }

    static lemma ProgressCopy(aliases: Aliases, value: string, output: string, copiedThrough: nat, position: nat)
      requires Progress(aliases, value, output, copiedThrough, position) && position < |value|
      requires MatchLength(aliases, value, position) == 0
      ensures Progress(aliases, value, output, copiedThrough, position + 1)
    {
      var done := output + value[copiedThrough..position];
      StepExtends(aliases, value, position, done);
      assert done + [value[position]] == output + value[copiedThrough..position + 1];
    }

    static lemma ProgressDone(aliases: Aliases, value: string, output: string, copiedThrough: nat)
      requires Progress(aliases, value, output, copiedThrough, |value|)
      ensures Rewrite(aliases, value, 0) == if copiedThrough > 0 then output + value[copiedThrough..] else value
    {
      assert value[copiedThrough..|value|] == value[copiedThrough..];
      assert (output + value[copiedThrough..]) + "" == output + value[copiedThrough..];
    }

    /** The trie's replacement is the naive one. */
    method Replace(value: string) returns (r: string)
      requires Valid()
      ensures Replaces(aliases, value, r)
      ensures r == Replaced(aliases, value)
    {
      ReplacedReplaces(aliases, value);
      var table := aliases;
      if value in table && table[value] != "" { return table[value]; }
      var output := "";
      var copiedThrough: nat, position: nat := 0, 0;
      ProgressStart(table, value);
      while position < |value|
        invariant copiedThrough <= position <= |value|
        invariant Progress(table, value, output, copiedThrough, position)
        decreases |value| - position
      {
        var matchedId, matchedEnd := Scan(value, position);
        if matchedId != None {
          ProgressHit(table, value, output, copiedThrough, position, matchedEnd);
          output := output + value[copiedThrough..position] + table[matchedId.value];
          position := matchedEnd;
          copiedThrough := position;
        } else {
          ProgressCopy(table, value, output, copiedThrough, position);
          position := position + 1;
        }
      }
      ProgressDone(table, value, output, copiedThrough);
      r := if copiedThrough > 0 then output + value[copiedThrough..] else value;
    }
  }

  // ----- histories -----

  /** The map that a sequence of additions leaves behind. */
  function After(history: seq<(string, string)>): Aliases {
    if history == [] then map[]
    else
      var (rawId, alias) := history[|history| - 1];
      After(history[..|history| - 1])[rawId := alias]
  }

  method AddAll(history: seq<(string, string)>) returns (rewriter: Rewriter)
    ensures fresh(rewriter) && rewriter.Valid() && rewriter.aliases == After(history)
  {
    rewriter := new Rewriter();
    for i := 0 to |history|
      invariant fresh(rewriter) && rewriter.Valid() && fresh(rewriter.Repr)
      invariant rewriter.aliases == After(history[..i])
    {
      rewriter.Add(history[i].0, history[i].1);
      assert history[..i + 1][..i] == history[..i];
    }
    assert history[..|history|] == history;
  }

  lemma {:induction false} AfterLooksUp(history: seq<(string, string)>, rawId: string)
    requires forall i, j :: 0 <= i < j < |history| ==> history[i].0 != history[j].0
    ensures rawId in After(history) <==> exists alias :: (rawId, alias) in history
    ensures forall alias :: (rawId, alias) in history ==> rawId in After(history) && After(history)[rawId] == alias
  {
    if history != [] {
      var n := |history| - 1;
      AfterLooksUp(history[..n], rawId);
      assert history == history[..n] + [history[n]];
      if rawId == history[n].0 {
        assert (rawId, history[n].1) in history;
        forall alias | (rawId, alias) in history ensures alias == history[n].1 {
          var i :| 0 <= i < |history| && history[i] == (rawId, alias);
        }
      }
    }
  }

  /** The insertion order of distinct identities does not matter. */
  lemma InsertionOrderIrrelevant(a: seq<(string, string)>, b: seq<(string, string)>, value: string)
    requires multiset(a) == multiset(b)
    requires forall i, j :: 0 <= i < j < |a| ==> a[i].0 != a[j].0
    requires forall i, j :: 0 <= i < j < |b| ==> b[i].0 != b[j].0
    ensures Replaced(After(a), value) == Replaced(After(b), value)
  {
    forall rawId, alias ensures (rawId, alias) in a <==> (rawId, alias) in b {
      assert (rawId, alias) in multiset(a) <==> (rawId, alias) in multiset(b);
    }
    forall rawId
      ensures rawId in After(a) <==> rawId in After(b)
      ensures rawId in After(a) ==> After(a)[rawId] == After(b)[rawId]
    {
      AfterLooksUp(a, rawId);
      AfterLooksUp(b, rawId);
    }
    assert After(a) == After(b);
  }
}
