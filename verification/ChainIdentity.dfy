/** When chain identities do not collide (scripts/image_storage_metrics.py): what the layer
    sharing identity asks of the hash. */
module ChainIdentity {
  import opened LayerSharing

  /** The assumption on the hash: it is injective, and no diff ID is the digest of a chain text. */
  ghost predicate IdealFor(hash: string -> string, diffId: string) {
    ' ' !in diffId && forall text :: ' ' in text ==> diffId != "sha256:" + hash(text)
  }

  ghost predicate Ideal(hash: string -> string, diffIds: seq<string>) {
    && (forall s, t :: hash(s) == hash(t) ==> s == t)
    && forall d :: d in diffIds ==> IdealFor(hash, d)
  }

  lemma DigestInjective(s: string, t: string)
    requires "sha256:" + s == "sha256:" + t
    ensures s == t
  {
    assert ("sha256:" + s)[7..] == s && ("sha256:" + t)[7..] == t;
  }

  lemma LastSpace(text: string, i: nat, j: nat, tail: string)
    requires i < |text| && j < |text| && text[j] == ' ' && text[i + 1..] == tail && ' ' !in tail
    ensures j <= i
  {
    assert forall k :: i < k < |text| ==> text[k] == tail[k - i - 1];
  }

  /** A chain text splits at its last space. */
  lemma ChainTextInjective(p: string, d: string, q: string, e: string)
    requires p + " " + d == q + " " + e && ' ' !in d && ' ' !in e
    ensures p == q && d == e
  {
    var text := p + " " + d;
    assert text[|p|] == ' ' && text[|q|] == ' ';
    assert text[|p| + 1..] == d && text[|q| + 1..] == e;
    LastSpace(text, |p|, |q|, d);
    LastSpace(text, |q|, |p|, e);
    assert text[..|p|] == p && text[..|q|] == q;
  }

  lemma ChainIdLonger(hash: string -> string, p: seq<string>)
    requires |p| > 1
    ensures ChainId(hash, p) == "sha256:" + hash(ChainId(hash, p[..|p| - 1]) + " " + p[|p| - 1])
    ensures ' ' in ChainId(hash, p[..|p| - 1]) + " " + p[|p| - 1]
  {
    var parent := ChainId(hash, p[..|p| - 1]);
    assert (parent + " " + p[|p| - 1])[|parent|] == ' ';
  }

  /** Equal digests of chain texts come from equal parents and equal diff IDs. */
  lemma TextsAgree(hash: string -> string, p: string, d: string, q: string, e: string)
    requires forall s, t :: hash(s) == hash(t) ==> s == t
    requires "sha256:" + hash(p + " " + d) == "sha256:" + hash(q + " " + e) && ' ' !in d && ' ' !in e
    ensures p == q && d == e
  {
    DigestInjective(hash(p + " " + d), hash(q + " " + e));
    ChainTextInjective(p, d, q, e);
  }

  lemma IdealPrefix(hash: string -> string, p: seq<string>, n: nat)
    requires Ideal(hash, p) && n <= |p|
    ensures Ideal(hash, p[..n])
  {
    forall d | d in p[..n] ensures IdealFor(hash, d) { assert d in p; }
  }

  lemma IdealAt(hash: string -> string, p: seq<string>, i: nat)
    requires Ideal(hash, p) && i < |p|
    ensures IdealFor(hash, p[i])
  {
  }

  lemma SingleId(hash: string -> string, p: seq<string>)
    requires |p| == 1
    ensures ChainId(hash, p) == p[0]
  {
  }

  /** A diff ID is not the chain ID of a longer list. */
  lemma SingleIsNotLonger(hash: string -> string, p: seq<string>, q: seq<string>)
    requires |p| == 1 && |q| > 1 && Ideal(hash, p)
    ensures ChainId(hash, p) != ChainId(hash, q)
  {
    SingleId(hash, p);
    ChainIdLonger(hash, q);
    IdealAt(hash, p, 0);
  }

  lemma LongerAgree(hash: string -> string, p: seq<string>, q: seq<string>)
    requires |p| > 1 && |q| > 1 && Ideal(hash, p) && Ideal(hash, q)
    requires ChainId(hash, p) == ChainId(hash, q)
    ensures p[|p| - 1] == q[|q| - 1] && ChainId(hash, p[..|p| - 1]) == ChainId(hash, q[..|q| - 1])
  {
    ChainIdLonger(hash, p);
    ChainIdLonger(hash, q);
    IdealAt(hash, p, |p| - 1);
    IdealAt(hash, q, |q| - 1);
    TextsAgree(hash, ChainId(hash, p[..|p| - 1]), p[|p| - 1], ChainId(hash, q[..|q| - 1]), q[|q| - 1]);
  }

  /** Under it, a chain ID identifies the whole list of diff IDs, not just the last one. */
  lemma {:induction false} ChainIdInjective(hash: string -> string, p: seq<string>, q: seq<string>)
    requires p != [] && q != [] && Ideal(hash, p) && Ideal(hash, q)
    requires ChainId(hash, p) == ChainId(hash, q)
    ensures p == q
    decreases |p|
  {
    if |p| == 1 && |q| == 1 {
      SingleId(hash, p);
      SingleId(hash, q);
    } else if |p| == 1 {
      SingleIsNotLonger(hash, p, q);
    } else if |q| == 1 {
      SingleIsNotLonger(hash, q, p);
    } else {
      var front, back := p[..|p| - 1], q[..|q| - 1];
      LongerAgree(hash, p, q);
      IdealPrefix(hash, p, |p| - 1);
      IdealPrefix(hash, q, |q| - 1);
      ChainIdInjective(hash, front, back);
      PrefixNext(p, |p| - 1);
      PrefixNext(q, |q| - 1);
    }
  }

  lemma IdAtInjective(hash: string -> string, a: seq<string>, b: seq<string>, i: nat, j: nat)
    requires Ideal(hash, a) && Ideal(hash, b) && i < |a| && j < |b| && IdAt(hash, a, i) == IdAt(hash, b, j)
    ensures i == j && a[..i + 1] == b[..j + 1]
  {
    IdealPrefix(hash, a, i + 1);
    IdealPrefix(hash, b, j + 1);
    ChainIdInjective(hash, a[..i + 1], b[..j + 1]);
    assert |a[..i + 1]| == i + 1 && |b[..j + 1]| == j + 1;
  }

  /** So an ideal hash is collision-free on every pair of images. */
  lemma IdealIsCollisionFree(hash: string -> string, a: seq<string>, b: seq<string>)
    requires Ideal(hash, a) && Ideal(hash, b)
    ensures CollisionFree(hash, a, b)
  {
    forall i, j | 0 <= i < j < |a| ensures IdAt(hash, a, i) != IdAt(hash, a, j) {
      if IdAt(hash, a, i) == IdAt(hash, a, j) { IdAtInjective(hash, a, a, i, j); }
    }
    forall i, j | 0 <= i < j < |b| ensures IdAt(hash, b, i) != IdAt(hash, b, j) {
      if IdAt(hash, b, i) == IdAt(hash, b, j) { IdAtInjective(hash, b, b, i, j); }
    }
    forall i, j | 0 <= i < |a| && 0 <= j < |b| && IdAt(hash, a, i) == IdAt(hash, b, j)
      ensures i == j && a[..i + 1] == b[..i + 1]
    {
      IdAtInjective(hash, a, b, i, j);
    }
  }
}
