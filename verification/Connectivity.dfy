/** Chains of links, read in either direction. */
module Connectivity {

  type Edges = set<(int, int)>

  ghost predicate Linked(e: Edges, a: int, b: int) {
    (a, b) in e || (b, a) in e
  }

  ghost predicate IsChain(e: Edges, path: seq<int>) {
    path != [] && forall i :: 0 <= i < |path| - 1 ==> Linked(e, path[i], path[i + 1])
  }

  ghost predicate ChainFrom(e: Edges, path: seq<int>, a: int, b: int) {
    IsChain(e, path) && path[0] == a && path[|path| - 1] == b
  }

  /** `a` and `b` are joined by a chain of links. */
  ghost predicate Connected(e: Edges, a: int, b: int) {
    exists path :: ChainFrom(e, path, a, b)
  }

  lemma ConnectedSelf(e: Edges, a: int)
    ensures Connected(e, a, a)
  {
    assert ChainFrom(e, [a], a, a);
  }

  lemma ConnectedLink(e: Edges, a: int, b: int)
    requires Linked(e, a, b)
    ensures Connected(e, a, b)
  {
    assert ChainFrom(e, [a, b], a, b);
  }

  lemma ConnectedTransitive(e: Edges, a: int, b: int, c: int)
    requires Connected(e, a, b) && Connected(e, b, c)
    ensures Connected(e, a, c)
  {
    var p :| ChainFrom(e, p, a, b);
    var q :| ChainFrom(e, q, b, c);
    var r := p + q[1..];
    forall i | 0 <= i < |r| - 1 ensures Linked(e, r[i], r[i + 1]) {
      if i >= |p| - 1 { assert r[i] == q[i - (|p| - 1)] && r[i + 1] == q[i + 1 - (|p| - 1)]; }
    }
    assert ChainFrom(e, r, a, c);
  }

  lemma ConnectedSymmetric(e: Edges, a: int, b: int)
    requires Connected(e, a, b)
    ensures Connected(e, b, a)
  {
    var p :| ChainFrom(e, p, a, b);
    var r := seq(|p|, i requires 0 <= i < |p| => p[|p| - 1 - i]);
    forall i | 0 <= i < |r| - 1 ensures Linked(e, r[i], r[i + 1]) {
      assert Linked(e, p[|p| - 2 - i], p[|p| - 2 - i + 1]);
    }
    assert ChainFrom(e, r, b, a);
  }

  lemma ConnectedGrows(e: Edges, f: Edges, a: int, b: int)
    requires e <= f && Connected(e, a, b)
    ensures Connected(f, a, b)
  {
    var p :| ChainFrom(e, p, a, b);
    assert ChainFrom(f, p, a, b);
  }

  /** A value that agrees across every link agrees across every chain. */
  lemma {:induction false} SameAlongChain(e: Edges, value: map<int, int>, path: seq<int>)
    requires IsChain(e, path) && forall i :: 0 <= i < |path| ==> path[i] in value
    requires forall a, b :: (a, b) in e && a in value && b in value ==> value[a] == value[b]
    ensures value[path[0]] == value[path[|path| - 1]]
  {
    if |path| > 1 {
      var tail := path[1..];
      forall i | 0 <= i < |tail| - 1 ensures Linked(e, tail[i], tail[i + 1]) {
        assert Linked(e, path[i + 1], path[i + 1 + 1]);
      }
      assert Linked(e, path[0], path[0 + 1]);
      SameAlongChain(e, value, tail);
    }
  }
}
