/** Clustering of text pixels: a union-find forest over pixel indices with path
    compression, and the labelling of its trees. */
module LinkClustering {
  import opened Connectivity

  /** One pixel of a forest: its rank is below `top` and below its parent's, and it
      has its parent's root, or is a root itself. */
  ghost predicate Node(parent: map<int, int>, rank: map<int, nat>, top: nat, roots: map<int, int>, k: int)
    requires k in parent && k in rank && k in roots
  {
    && k >= 0 && rank[k] < top
    && roots[k] in parent && parent[roots[k]] == -1 && (k != roots[k] ==> roots[k] in rank && rank[k] < rank[roots[k]])
    && (if parent[k] == -1 then roots[k] == k
        else parent[k] in parent && parent[k] in rank && parent[k] in roots
             && rank[k] < rank[parent[k]] && roots[k] == roots[parent[k]])
  }

  /** Following parents from any pixel climbs in rank and ends at its root. */
  ghost predicate Forest(parent: map<int, int>, rank: map<int, nat>, top: nat, roots: map<int, int>) {
    && parent.Keys == rank.Keys && parent.Keys == roots.Keys
    && forall k {:trigger Node(parent, rank, top, roots, k)} :: k in parent ==> Node(parent, rank, top, roots, k)
  }

  /** The pixels met when parents are followed, up to and including the first without one. */
  ghost function Climb(parent: map<int, int>, rank: map<int, nat>, top: nat, roots: map<int, int>, k: int)
      : (path: seq<int>)
    requires Forest(parent, rank, top, roots) && k in parent
    decreases top - (if k in rank then rank[k] else 0)
  {
    assert Node(parent, rank, top, roots, k);
    if parent[k] == -1 then [k]
    else
      assert Node(parent, rank, top, roots, parent[k]);
      [k] + Climb(parent, rank, top, roots, parent[k])
  }

  /** The recorded root is where climbing really ends. */
  lemma {:induction false} ClimbEndsAtRoot(parent: map<int, int>, rank: map<int, nat>, top: nat, roots: map<int, int>,
                                           k: int)
    requires Forest(parent, rank, top, roots) && k in parent
    ensures var path := Climb(parent, rank, top, roots, k);
            path != [] && path[|path| - 1] == roots[k] && roots[k] in parent && parent[roots[k]] == -1
    decreases top - (if k in rank then rank[k] else 0)
  {
    assert Node(parent, rank, top, roots, k);
    if parent[k] != -1 {
      assert Node(parent, rank, top, roots, parent[k]);
      ClimbEndsAtRoot(parent, rank, top, roots, parent[k]);
    }
  }

  /** Pointing a pixel straight at its root keeps every root. */
  lemma CompressionKeepsForest(parent: map<int, int>, rank: map<int, nat>, top: nat, roots: map<int, int>, p: int,
                               parent': map<int, int>)
    requires Forest(parent, rank, top, roots) && p in parent && parent[p] != -1
    requires parent' == parent[p := roots[p]]
    ensures Forest(parent', rank, top, roots)
  {
    assert Node(parent, rank, top, roots, p);
    assert Node(parent, rank, top, roots, roots[p]);
    forall k | k in parent' ensures Node(parent', rank, top, roots, k) {
      assert Node(parent, rank, top, roots, k);
    }
  }

  /** Hanging root `r1` under root `r2` moves exactly the pixels of `r1`. */
  lemma HangingKeepsForest(parent: map<int, int>, rank: map<int, nat>, top: nat, roots: map<int, int>, r1: int, r2: int,
                           parent': map<int, int>, rank': map<int, nat>, roots': map<int, int>)
    requires Forest(parent, rank, top, roots)
    requires r1 in parent && r2 in parent && parent[r1] == parent[r2] == -1 && r1 != r2
    requires parent' == parent[r1 := r2] && rank' == rank[r2 := top] && Merges(roots, roots', r1, r2)
    ensures Forest(parent', rank', top + 1, roots')
  {
    assert Node(parent, rank, top, roots, r1) && Node(parent, rank, top, roots, r2);
    forall k | k in parent' ensures Node(parent', rank', top + 1, roots', k) {
      assert Node(parent, rank, top, roots, k);
    }
  }

  /** The pixels rooted at `r1` are now rooted at `r2`; nothing else moved. */
  ghost predicate Merges(before: map<int, int>, after: map<int, int>, r1: int, r2: int) {
    && after.Keys == before.Keys
    && forall k {:trigger after[k]} :: k in after ==> after[k] == if before[k] == r1 then r2 else before[k]
  }

  /** Two pixels share a root exactly when a chain of links joins them. */
  ghost predicate Partitions(roots: map<int, int>, e: Edges) {
    && (forall a, b :: (a, b) in e ==> a in roots && b in roots)
    && (forall a, b :: a in roots && b in roots ==> (roots[a] == roots[b] <==> Connected(e, a, b)))
  }

  lemma SeparatePixels(roots: map<int, int>)
    requires forall k :: k in roots ==> roots[k] == k
    ensures Partitions(roots, {})
  {
    forall a, b | a in roots && b in roots ensures roots[a] == roots[b] <==> Connected({}, a, b) {
      if a == b { ConnectedSelf({}, a); }
      if Connected({}, a, b) {
        var p :| ChainFrom({}, p, a, b);
        if |p| > 1 { assert Linked({}, p[0], p[0 + 1]); }
      }
    }
  }

  lemma ChainStaysInside(roots: map<int, int>, e: Edges, path: seq<int>)
    requires forall a, b :: (a, b) in e ==> a in roots && b in roots
    requires IsChain(e, path) && path[0] in roots
    ensures forall i :: 0 <= i < |path| ==> path[i] in roots
  {
    forall i | 0 <= i < |path| ensures path[i] in roots {
      if i > 0 { assert Linked(e, path[i - 1], path[i - 1 + 1]); }
    }
  }

  /** Merging the trees of two linked pixels keeps roots and chains in step. */
  lemma MergePartitions(roots: map<int, int>, roots': map<int, int>, e: Edges, p: int, q: int)
    requires Partitions(roots, e) && p in roots && q in roots
    requires Merges(roots, roots', roots[p], roots[q])
    ensures Partitions(roots', e + {(p, q)})
  {
    var e' := e + {(p, q)};
    forall a, b | a in roots && b in roots ensures roots'[a] == roots'[b] <==> Connected(e', a, b) {
      if roots'[a] == roots'[b] { MergedAreConnected(roots, e, p, q, a, b); }
      if Connected(e', a, b) {
        var path :| ChainFrom(e', path, a, b);
        ChainStaysInside(roots, e', path);
        forall x, y | (x, y) in e' && x in roots' && y in roots' ensures roots'[x] == roots'[y] {
          if (x, y) in e { ConnectedLink(e, x, y); }
        }
        SameAlongChain(e', roots', path);
      }
    }
  }

  lemma MergedAreConnected(roots: map<int, int>, e: Edges, p: int, q: int, a: int, b: int)
    requires Partitions(roots, e) && p in roots && q in roots && a in roots && b in roots
    requires (if roots[a] == roots[p] then roots[q] else roots[a])
          == (if roots[b] == roots[p] then roots[q] else roots[b])
    ensures Connected(e + {(p, q)}, a, b)
  {
    var e' := e + {(p, q)};
    if roots[a] == roots[b] {
      ConnectedGrows(e, e', a, b);
    } else {
      ConnectedLink(e', p, q);
      ConnectedSymmetric(e', p, q);
      if roots[a] == roots[p] {
        ConnectedGrows(e, e', a, p);
        ConnectedGrows(e, e', q, b);
        ConnectedTransitive(e', a, p, q);
        ConnectedTransitive(e', a, q, b);
      } else {
        ConnectedGrows(e, e', a, q);
        ConnectedGrows(e, e', p, b);
        ConnectedTransitive(e', a, q, p);
        ConnectedTransitive(e', a, p, b);
      }
    }
  }

  /** The parent map, with the ranks and roots that witness it is a forest. */
  class PixelForest {
    var parent: map<int, int>
    ghost var rank: map<int, nat>
    ghost var top: nat
    ghost var roots: map<int, int>

    ghost predicate Valid()
      reads this
    {
      Forest(parent, rank, top, roots)
    }

    constructor (pixels: seq<int>)
      requires forall i :: 0 <= i < |pixels| ==> pixels[i] >= 0
      ensures Valid()
      ensures forall k :: k in roots <==> k in pixels
      ensures forall k :: k in roots ==> roots[k] == k
    {
      parent := map k | k in pixels :: -1;
      rank := map k | k in pixels :: 0;
      top := 1;
      roots := map k | k in pixels :: k;
    }

    /** The root of `p`; a pixel below its root is pointed straight at it. */
    method FindRoot(p: int) returns (r: int)
      requires Valid() && p in roots
      modifies this
      ensures Valid() && roots == old(roots) && r == roots[p]
      ensures r in parent && parent[r] == -1
      ensures parent == if old(parent[p]) == -1 then old(parent) else old(parent)[p := r]
    {
      r := p;
      var update := false;
      while parent[r] != -1
        invariant r in parent && roots[r] == roots[p]
        invariant update <==> r != p
        invariant update ==> rank[p] < rank[r]
        invariant !update || parent[p] != -1
        decreases top - rank[r]
      {
        assert Node(parent, rank, top, roots, r);
        r := parent[r];
        assert Node(parent, rank, top, roots, r);
        update := true;
      }
      assert Node(parent, rank, top, roots, r);
      if update {
        ghost var before := parent;
        parent := parent[p := r];
        CompressionKeepsForest(before, rank, top, roots, p, parent);
      }
    }

    /** Merges the trees of two pixels. */
    method Join(p1: int, p2: int)
      requires Valid() && p1 in roots && p2 in roots
      modifies this
      ensures Valid() && Merges(old(roots), roots, old(roots)[p1], old(roots)[p2])
    {
      var r1 := FindRoot(p1);
      var r2 := FindRoot(p2);
      if r1 != r2 {
        Hang(r1, r2);
      } else {
        assert Merges(roots, roots, r1, r2);
      }
    }

    /** Makes one root the child of another. */
    method Hang(r1: int, r2: int)
      requires Valid() && r1 in parent && r2 in parent && parent[r1] == parent[r2] == -1 && r1 != r2
      modifies this
      ensures Valid() && Merges(old(roots), roots, r1, r2)
    {
      ghost var parent0, rank0, top0, roots0 := parent, rank, top, roots;
      parent := parent[r1 := r2];
      rank, top := rank[r2 := top], top + 1;
      roots := map k | k in roots :: if roots[k] == r1 then r2 else roots[k];
      HangingKeepsForest(parent0, rank0, top0, roots0, r1, r2, parent, rank, roots);
    }
  }
}
