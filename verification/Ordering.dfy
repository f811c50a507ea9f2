/** String comparison by code unit and stable sorting by a comparator, as the
    JavaScript `<` operator and `Array.prototype.sort` provide them. */
module Ordering {

  /** `a < b` on strings: the first differing code unit decides, a proper prefix is smaller. */
  predicate Below(a: string, b: string) {
    if b == [] then false
    else if a == [] then true
    else if a[0] != b[0] then a[0] < b[0]
    else Below(a[1..], b[1..])
  }

  lemma {:induction false} BelowTrichotomy(a: string, b: string)
    ensures a == b || Below(a, b) || Below(b, a)
    ensures !(Below(a, b) && Below(b, a))
    ensures a == b ==> !Below(a, b)
  {
    if a != [] && b != [] {
      BelowTrichotomy(a[1..], b[1..]);
      assert a == [a[0]] + a[1..] && b == [b[0]] + b[1..];
    }
  }

  lemma {:induction false} BelowTransitive(a: string, b: string, c: string)
    requires Below(a, b) && Below(b, c)
    ensures Below(a, c)
  {
    if a != [] && a[0] == b[0] == c[0] {
      BelowTransitive(a[1..], b[1..], c[1..]);
    }
  }

  /** The strings agree on `n` characters, where the first ends or has the smaller character. */
  ghost predicate DecidedAt(a: string, b: string, n: int) {
    0 <= n <= |a| && n < |b| && a[..n] == b[..n] && (n == |a| || a[n] < b[n])
  }

  /** Below is the order of a dictionary. */
  lemma {:induction false} BelowIsLexicographic(a: string, b: string)
    ensures Below(a, b) <==> exists n :: DecidedAt(a, b, n)
  {
    if a == [] || b == [] {
      if b != [] { assert DecidedAt(a, b, 0); }
    } else if a[0] != b[0] {
      if a[0] < b[0] { assert DecidedAt(a, b, 0); }
      forall n | DecidedAt(a, b, n) ensures n == 0 { LongerDecision(a, b, n); }
    } else {
      BelowIsLexicographic(a[1..], b[1..]);
      if n :| DecidedAt(a[1..], b[1..], n) {
        assert a[..n + 1] == [a[0]] + a[1..][..n] && b[..n + 1] == [b[0]] + b[1..][..n];
        assert DecidedAt(a, b, n + 1);
      }
      forall n | DecidedAt(a, b, n) ensures n > 0 && DecidedAt(a[1..], b[1..], n - 1) { LongerDecision(a, b, n); }
    }
  }

  lemma LongerDecision(a: string, b: string, n: int)
    requires DecidedAt(a, b, n) && a != []
    ensures n > 0 ==> a[0] == b[0] && DecidedAt(a[1..], b[1..], n - 1)
  {
    if n > 0 {
      assert a[0] == a[..n][0] && b[0] == b[..n][0];
      assert a[1..][..n - 1] == a[..n][1..] && b[1..][..n - 1] == b[..n][1..];
    }
  }

  /** `filter`: the elements that satisfy `p`, in their order. */
  function Keep<T(!new)>(s: seq<T>, p: T -> bool): (r: seq<T>)
    ensures forall x :: x in r <==> x in s && p(x)
  {
    if s == [] then [] else (if p(s[0]) then [s[0]] else []) + Keep(s[1..], p)
  }

  ghost predicate TotalPreorder<T(!new)>(le: (T, T) -> bool) {
    && (forall a, b :: le(a, b) || le(b, a))
    && (forall a, b, c :: le(a, b) && le(b, c) ==> le(a, c))
  }

  ghost predicate SortedBy<T>(le: (T, T) -> bool, s: seq<T>) {
    forall i, j :: 0 <= i < j < |s| ==> le(s[i], s[j])
  }

  /** Puts `x` before the first element it may precede. */
  function Insert<T>(le: (T, T) -> bool, x: T, s: seq<T>): (r: seq<T>)
    ensures multiset(r) == multiset(s) + multiset{x}
    ensures |r| == |s| + 1
  {
    if s == [] then [x]
    else if le(x, s[0]) then [x] + s
    else
      assert s == [s[0]] + s[1..];
      [s[0]] + Insert(le, x, s[1..])
  }

  /** The stable sort of `s`: equal elements keep their order. */
  function SortBy<T>(le: (T, T) -> bool, s: seq<T>): (r: seq<T>)
    ensures multiset(r) == multiset(s)
    ensures |r| == |s|
  {
    if s == [] then []
    else
      assert s == [s[0]] + s[1..];
      Insert(le, s[0], SortBy(le, s[1..]))
  }

  lemma {:induction false} InsertSorted<T(!new)>(le: (T, T) -> bool, x: T, s: seq<T>)
    requires TotalPreorder(le) && SortedBy(le, s)
    ensures SortedBy(le, Insert(le, x, s))
  {
    if s != [] && !le(x, s[0]) {
      InsertSorted(le, x, s[1..]);
      var r := Insert(le, x, s[1..]);
      forall j | 0 <= j < |r| ensures le(s[0], r[j]) {
        assert r[j] in multiset(r);
        assert r[j] in multiset(s[1..]) + multiset{x};
        assert r[j] == x || r[j] in s[1..];
      }
    }
  }

  lemma {:induction false} SortBySorted<T(!new)>(le: (T, T) -> bool, s: seq<T>)
    requires TotalPreorder(le)
    ensures SortedBy(le, SortBy(le, s))
  {
    if s != [] {
      SortBySorted(le, s[1..]);
      InsertSorted(le, s[0], SortBy(le, s[1..]));
    }
  }

  lemma {:induction false} KeepAppend<T(!new)>(a: seq<T>, b: seq<T>, p: T -> bool)
    ensures Keep(a + b, p) == Keep(a, p) + Keep(b, p)
  {
    if a == [] {
      assert a + b == b;
    } else {
      assert (a + b)[1..] == a[1..] + b;
      KeepAppend(a[1..], b, p);
    }
  }

  /** `x` ties with `e`. */
  function Ties<T(!new)>(le: (T, T) -> bool, e: T): T -> bool {
    x => le(x, e) && le(e, x)
  }

  lemma KeepFirst<T(!new)>(x: T, s: seq<T>, p: T -> bool)
    ensures Keep([x] + s, p) == if p(x) then [x] + Keep(s, p) else Keep(s, p)
  {
    assert ([x] + s)[1..] == s;
  }

  /** A first element that is not kept together with `x` may change places with it. */
  lemma KeepSwapped<T(!new)>(x: T, y: T, s: seq<T>, p: T -> bool)
    requires !p(x) || !p(y)
    ensures Keep([x] + ([y] + s), p) == (if p(y) then [y] else []) + Keep([x] + s, p)
  {
    KeepFirst(x, [y] + s, p);
    KeepFirst(y, s, p);
    KeepFirst(x, s, p);
  }

  lemma {:induction false} InsertStable<T(!new)>(le: (T, T) -> bool, x: T, s: seq<T>, p: T -> bool)
    requires forall y :: y in s && !le(x, y) ==> !p(x) || !p(y)
    ensures Keep(Insert(le, x, s), p) == Keep([x] + s, p)
  {
    if s != [] && !le(x, s[0]) {
      var rest := s[1..];
      InsertStable(le, x, rest, p);
      KeepFirst(s[0], Insert(le, x, rest), p);
      KeepSwapped(x, s[0], rest, p);
      assert s == [s[0]] + rest;
    }
  }

  lemma TiesAreNotSwapped<T(!new)>(le: (T, T) -> bool, x: T, s: seq<T>, e: T)
    requires TotalPreorder(le)
    ensures forall y :: y in s && !le(x, y) ==> !Ties(le, e)(x) || !Ties(le, e)(y)
  {
    forall y | y in s && Ties(le, e)(x) && Ties(le, e)(y) ensures le(x, y) {
      assert le(x, e) && le(e, y);
    }
  }

  /** The sort is stable: elements that tie keep the order they came in. */
  lemma {:induction false} SortStable<T(!new)>(le: (T, T) -> bool, s: seq<T>, e: T)
    requires TotalPreorder(le)
    ensures Keep(SortBy(le, s), Ties(le, e)) == Keep(s, Ties(le, e))
  {
    if s != [] {
      var rest := SortBy(le, s[1..]);
      SortStable(le, s[1..], e);
      TiesAreNotSwapped(le, s[0], rest, e);
      InsertStable(le, s[0], rest, Ties(le, e));
      KeepAppend([s[0]], rest, Ties(le, e));
      KeepAppend([s[0]], s[1..], Ties(le, e));
      assert s == [s[0]] + s[1..];
    }
  }

  lemma TailSorted<T(!new)>(le: (T, T) -> bool, s: seq<T>)
    requires SortedBy(le, s) && s != []
    ensures SortedBy(le, s[1..]) && forall a :: a in s[1..] ==> a in s
  {
  }

  lemma TailsAgree<T(!new)>(le: (T, T) -> bool, s: seq<T>, t: seq<T>)
    requires SortedBy(le, s) && SortedBy(le, t) && multiset(s) == multiset(t) && s != [] && t != [] && s[0] == t[0]
    ensures SortedBy(le, s[1..]) && SortedBy(le, t[1..]) && multiset(s[1..]) == multiset(t[1..])
    ensures forall a :: a in s[1..] ==> a in s
  {
    TailSorted(le, s);
    TailSorted(le, t);
    TailMultiset(s);
    TailMultiset(t);
  }

  /** A sorted arrangement is determined by its elements when no two different elements tie. */
  lemma {:induction false} SortedUnique<T(!new)>(le: (T, T) -> bool, s: seq<T>, t: seq<T>)
    requires SortedBy(le, s) && SortedBy(le, t) && multiset(s) == multiset(t)
    requires forall a, b :: a in s && b in s && le(a, b) && le(b, a) ==> a == b
    ensures s == t
  {
    SameLength(s, t);
    if s != [] {
      HeadsAgree(le, s, t);
      TailsAgree(le, s, t);
      SortedUnique(le, s[1..], t[1..]);
      assert s == [s[0]] + s[1..] && t == [t[0]] + t[1..];
    }
  }

  lemma SameLength<T>(s: seq<T>, t: seq<T>)
    requires multiset(s) == multiset(t)
    ensures |s| == |t|
  {
    assert |s| == |multiset(s)| == |multiset(t)| == |t|;
  }

  lemma TailMultiset<T>(s: seq<T>)
    requires s != []
    ensures multiset(s[1..]) == multiset(s) - multiset{s[0]}
  {
    assert s == [s[0]] + s[1..];
  }

  lemma HeadsAgree<T(!new)>(le: (T, T) -> bool, s: seq<T>, t: seq<T>)
    requires SortedBy(le, s) && SortedBy(le, t) && multiset(s) == multiset(t) && s != [] && t != []
    requires forall a, b :: a in s && b in s && le(a, b) && le(b, a) ==> a == b
    ensures s[0] == t[0]
  {
    assert s[0] in multiset(t) && t[0] in multiset(s);
    var i :| 0 <= i < |t| && t[i] == s[0];
    var j :| 0 <= j < |s| && s[j] == t[0];
  }

  /** Two different elements that tie come out in the order they went in. */
  lemma {:induction false} InsertTied<T(!new)>(le: (T, T) -> bool, x: T, y: T, s: seq<T>)
    requires TotalPreorder(le) && le(x, y) && le(y, x) && x != y
    ensures Insert(le, x, Insert(le, y, s)) != Insert(le, y, Insert(le, x, s))
  {
    var xy, yx := Insert(le, x, Insert(le, y, s)), Insert(le, y, Insert(le, x, s));
    if s == [] || le(x, s[0]) {
      assert xy[0] == x && yx[0] == y;
    } else {
      InsertTied(le, x, y, s[1..]);
      assert xy[1..] == Insert(le, x, Insert(le, y, s[1..]));
      assert yx[1..] == Insert(le, y, Insert(le, x, s[1..]));
    }
  }

  lemma SortTied<T(!new)>(le: (T, T) -> bool, x: T, y: T, s: seq<T>)
    requires TotalPreorder(le) && le(x, y) && le(y, x) && x != y
    ensures SortBy(le, [x, y] + s) != SortBy(le, [y, x] + s)
  {
    assert ([x, y] + s)[1..] == [y] + s && ([y, x] + s)[1..] == [x] + s;
    assert ([x] + s)[1..] == s && ([y] + s)[1..] == s;
    InsertTied(le, x, y, SortBy(le, s));
  }

  // ----- permutations -----

  function Without<T>(s: seq<T>, i: nat): (r: seq<T>)
    requires i < |s|
    ensures |r| == |s| - 1
  {
    s[..i] + s[i + 1..]
  }

  lemma WithoutOne<T>(s: seq<T>, i: nat)
    requires i < |s|
    ensures multiset(s) == multiset(Without(s, i)) + multiset{s[i]}
  {
    assert s == s[..i] + [s[i]] + s[i + 1..];
  }

  /** Where the first element of `s` sits in a permutation of `s`. */
  lemma Locate<T>(s: seq<T>, t: seq<T>) returns (i: nat)
    requires multiset(s) == multiset(t) && s != []
    ensures i < |t| && t[i] == s[0]
    ensures multiset(s[1..]) == multiset(Without(t, i))
  {
    assert s == [s[0]] + s[1..];
    assert s[0] in multiset(t);
    i :| 0 <= i < |t| && t[i] == s[0];
    WithoutOne(t, i);
    assert multiset(s[1..]) == multiset(s) - multiset{s[0]};
  }

  lemma TwiceCounted<T>(s: seq<T>, i: nat, j: nat)
    requires i < j < |s| && s[i] == s[j]
    ensures multiset(s)[s[i]] >= 2
  {
    assert s == s[..i] + [s[i]] + s[i + 1..j] + [s[j]] + s[j + 1..];
  }

  function Map<A, B>(f: A -> B, s: seq<A>): (r: seq<B>)
    ensures |r| == |s|
    ensures forall i :: 0 <= i < |s| ==> r[i] == f(s[i])
  {
    seq(|s|, i requires 0 <= i < |s| => f(s[i]))
  }

  lemma {:induction false} MapPermutation<A, B>(f: A -> B, s: seq<A>, t: seq<A>)
    requires multiset(s) == multiset(t)
    ensures multiset(Map(f, s)) == multiset(Map(f, t))
  {
    SameLength(s, t);
    if s != [] {
      var i := Locate(s, t);
      MapPermutation(f, s[1..], Without(t, i));
      assert Map(f, s) == [f(s[0])] + Map(f, s[1..]);
      assert Map(f, Without(t, i)) == Without(Map(f, t), i);
      WithoutOne(Map(f, t), i);
    }
  }
}
