/** Greedy non-maximum suppression of detection boxes. */
module Nms {
  import opened Arithmetic

  datatype Box = Box(xmin: real, ymin: real, xmax: real, ymax: real)

  predicate Positive(b: Box) {
    b.xmin < b.xmax && b.ymin < b.ymax
  }

  function Area(b: Box): real {
    (b.xmax - b.xmin) * (b.ymax - b.ymin)
  }

  function Intersection(a: Box, b: Box): real {
    MaxReal(MinReal(a.xmax, b.xmax) - MaxReal(a.xmin, b.xmin), 0.0)
    * MaxReal(MinReal(a.ymax, b.ymax) - MaxReal(a.ymin, b.ymin), 0.0)
  }

  function UnionArea(a: Box, b: Box): real {
    Area(b) + Area(a) - Intersection(a, b)
  }

  lemma ProductMonotone(x: real, y: real, u: real, v: real)
    requires 0.0 <= x <= u && 0.0 <= y <= v
    ensures 0.0 <= x * y <= u * v
  {
    assert u * v - x * y == (u - x) * v + x * (v - y);
  }

  /** The overlap is no larger than either box, so the union has positive area. */
  lemma UnionPositive(a: Box, b: Box)
    requires Positive(a) && Positive(b)
    ensures 0.0 <= Intersection(a, b) <= Area(b) && Intersection(a, b) <= Area(a)
    ensures UnionArea(a, b) > 0.0
  {
    var w, h := MaxReal(MinReal(a.xmax, b.xmax) - MaxReal(a.xmin, b.xmin), 0.0),
        MaxReal(MinReal(a.ymax, b.ymax) - MaxReal(a.ymin, b.ymin), 0.0);
    ProductMonotone(w, h, b.xmax - b.xmin, b.ymax - b.ymin);
    ProductMonotone(w, h, a.xmax - a.xmin, a.ymax - a.ymin);
    AreaPositive(a);
  }

  lemma AreaPositive(a: Box)
    requires Positive(a)
    ensures Area(a) > 0.0
  {
  }

  /** Intersection over union. */
  function Iou(a: Box, b: Box): real
    requires UnionArea(a, b) != 0.0
  {
    Intersection(a, b) / UnionArea(a, b)
  }

  /** A candidate stays beside a chosen box when their ratio is within the threshold. A union of no
      area makes the ratio infinite or no number, which is never within. */
  predicate Passes(a: Box, b: Box, thresh: real) {
    UnionArea(a, b) != 0.0 && Iou(a, b) <= thresh
  }

  predicate Inside(b: Box, x: real, y: real) {
    b.xmin <= x <= b.xmax && b.ymin <= y <= b.ymax
  }

  /** The box two boxes have in common. */
  ghost predicate IsOverlap(o: Box, a: Box, b: Box) {
    forall x, y :: Inside(o, x, y) <==> Inside(a, x, y) && Inside(b, x, y)
  }

  /** What is compared: the area of the common box, or 0 when there is none. */
  lemma IntersectionIsCommonArea(a: Box, b: Box, o: Box)
    requires IsOverlap(o, a, b)
    ensures Positive(o) ==> Intersection(a, b) == (o.xmax - o.xmin) * (o.ymax - o.ymin)
    ensures !(exists x, y :: Inside(a, x, y) && Inside(b, x, y)) ==> Intersection(a, b) == 0.0
  {
    var c := Common(a, b);
    assert IsOverlap(c, a, b);
    if Positive(o) {
      SameBox(o, c);
      assert Inside(c, c.xmin, c.ymin);
    } else if c.xmin <= c.xmax && c.ymin <= c.ymax {
      assert Inside(c, c.xmin, c.ymin);
    } else {
      NoArea(c.xmax - c.xmin, c.ymax - c.ymin);
    }
  }

  ghost function Common(a: Box, b: Box): Box {
    Box(if a.xmin < b.xmin then b.xmin else a.xmin, if a.ymin < b.ymin then b.ymin else a.ymin,
        if a.xmax < b.xmax then a.xmax else b.xmax, if a.ymax < b.ymax then a.ymax else b.ymax)
  }

  /** Boxes with the same points are the same. */
  lemma SameBox(o: Box, c: Box)
    requires Positive(o) && forall x, y :: Inside(o, x, y) <==> Inside(c, x, y)
    ensures o == c
  {
    assert Inside(o, o.xmin, o.ymin) && Inside(o, o.xmax, o.ymax);
    assert Inside(c, c.xmin, c.ymin) && Inside(c, c.xmax, c.ymax);
  }

  lemma NoArea(w: real, h: real)
    requires w < 0.0 || h < 0.0
    ensures MaxReal(w, 0.0) * MaxReal(h, 0.0) == 0.0
  {
  }

  /** A candidate stays when the common area is within its share of the area covered by both: the share is
      taken of areas, so it turns around when the sum of areas falls short of the common one. */
  lemma PassesIff(a: Box, b: Box, thresh: real, common: real, union: real)
    requires common == Intersection(a, b)
    requires union == (a.xmax - a.xmin) * (a.ymax - a.ymin) + (b.xmax - b.xmin) * (b.ymax - b.ymin) - common
    ensures Passes(a, b, thresh) <==>
              if union > 0.0 then common <= thresh * union else union < 0.0 && common >= thresh * union
  {
    UnionIs(a, b, common, union);
    PassesMeans(a, b, thresh);
  }

  lemma UnionIs(a: Box, b: Box, common: real, union: real)
    requires common == Intersection(a, b)
    requires union == (a.xmax - a.xmin) * (a.ymax - a.ymin) + (b.xmax - b.xmin) * (b.ymax - b.ymin) - common
    ensures UnionArea(a, b) == union
  {
  }

  lemma PassesMeans(a: Box, b: Box, thresh: real)
    ensures Passes(a, b, thresh) <==>
              if UnionArea(a, b) > 0.0 then Intersection(a, b) <= thresh * UnionArea(a, b)
              else UnionArea(a, b) < 0.0 && Intersection(a, b) >= thresh * UnionArea(a, b)
  {
    var x, y := Intersection(a, b), UnionArea(a, b);
    if y != 0.0 { QuotientAgainst(x, y, thresh); }
  }

  lemma QuotientAgainst(x: real, y: real, t: real)
    requires y != 0.0
    ensures x / y <= t <==> if y > 0.0 then x <= t * y else x >= t * y
  {
    var q := x / y;
    assert q * y == x;
    assert (t - q) * y == t * y - x;
    if q <= t {
      SignOfProduct(t - q, y);
    } else {
      SignOfProduct(q - t, y);
      assert (q - t) * y == x - t * y;
    }
  }

  lemma SignOfProduct(a: real, b: real)
    requires a >= 0.0 && b != 0.0
    ensures if b > 0.0 then a * b >= 0.0 else a * b <= 0.0
    ensures a > 0.0 ==> if b > 0.0 then a * b > 0.0 else a * b < 0.0
  {
  }

  lemma PassesSymmetric(a: Box, b: Box, thresh: real)
    ensures Passes(a, b, thresh) <==> Passes(b, a, thresh)
  {
    assert Intersection(a, b) == Intersection(b, a);
  }

  // ---------------------------------------------------------------------------
  // Sorting indices by score
  // ---------------------------------------------------------------------------

  /** `i` comes before `j` in a stable ascending sort. */
  predicate Before(scores: seq<real>, i: nat, j: nat)
    requires i < |scores| && j < |scores|
  {
    scores[i] < scores[j] || (scores[i] == scores[j] && i < j)
  }

  ghost predicate InBounds(s: seq<nat>, n: nat) {
    forall k :: 0 <= k < |s| ==> s[k] < n
  }

  ghost predicate Ascending(s: seq<nat>, scores: seq<real>)
    requires InBounds(s, |scores|)
  {
    forall a, b :: 0 <= a < b < |s| ==> Before(scores, s[a], s[b])
  }

  ghost predicate StablySorted(s: seq<nat>, scores: seq<real>) {
    && InBounds(s, |scores|) && Ascending(s, scores)
    && forall i: nat :: i < |scores| ==> i in s
  }

  method SortIndexes(scores: seq<real>) returns (indices: seq<nat>)
    ensures StablySorted(indices, scores) && |indices| == |scores|
  {
    indices := [];
    for i := 0 to |scores|
      invariant |indices| == i && InBounds(indices, i) && Ascending(indices, scores)
      invariant forall k: nat :: k < i ==> k in indices
    {
      var p := |indices|;
      while p > 0 && scores[i] < scores[indices[p - 1]]
        invariant 0 <= p <= |indices|
        invariant forall k :: p <= k < |indices| ==> scores[i] < scores[indices[k]]
      {
        p := p - 1;
      }
      InsertKeepsAscending(indices, scores, i, p);
      ghost var before := indices;
      indices := indices[..p] + [i] + indices[p..];
      InsertKeepsMembers(before, i, p);
    }
  }

  lemma InsertKeepsMembers(s: seq<nat>, i: nat, p: nat)
    requires p <= |s|
    ensures forall k :: k in s[..p] + [i] + s[p..] <==> k in s || k == i
  {
    assert s == s[..p] + s[p..];
  }

  lemma InsertKeepsAscending(s: seq<nat>, scores: seq<real>, i: nat, p: nat)
    requires i < |scores| && InBounds(s, i) && Ascending(s, scores) && p <= |s|
    requires forall k :: p <= k < |s| ==> scores[i] < scores[s[k]]
    requires p > 0 ==> scores[s[p - 1]] <= scores[i]
    ensures InBounds(s[..p] + [i] + s[p..], i + 1) && Ascending(s[..p] + [i] + s[p..], scores)
  {
    var t := s[..p] + [i] + s[p..];
    assert forall k :: 0 <= k < |t| ==> t[k] == if k < p then s[k] else if k == p then i else s[k - 1];
    forall a, b | 0 <= a < b < |t| ensures Before(scores, t[a], t[b]) {
      if b == p && a < p - 1 { assert Before(scores, s[a], s[p - 1]); }
    }
  }

  // ---------------------------------------------------------------------------
  // Greedy selection
  // ---------------------------------------------------------------------------

  /** The candidates that do not overlap box `cur` by more than the threshold. */
  ghost function Survivors(boxes: seq<Box>, cands: seq<nat>, cur: nat, thresh: real): (r: seq<nat>)
    requires InBounds(cands, |boxes|) && cur < |boxes|
    ensures |r| <= |cands| && InBounds(r, |boxes|)
  {
    if cands == [] then []
    else
      var last := cands[|cands| - 1];
      Survivors(boxes, cands[..|cands| - 1], cur, thresh)
      + if Passes(boxes[cur], boxes[last], thresh) then [last] else []
  }

  /** Take the best candidate, drop what it suppresses, go on. */
  ghost function Greedy(boxes: seq<Box>, cands: seq<nat>, thresh: real): (r: seq<nat>)
    requires InBounds(cands, |boxes|)
    ensures InBounds(r, |boxes|)
    decreases |cands|
  {
    if cands == [] then []
    else
      var cur := cands[|cands| - 1];
      [cur] + Greedy(boxes, Survivors(boxes, cands[..|cands| - 1], cur, thresh), thresh)
  }

  lemma {:induction false} SurvivorsAre(boxes: seq<Box>, scores: seq<real>, cands: seq<nat>, cur: nat, thresh: real)
    requires |scores| == |boxes| && InBounds(cands, |boxes|) && cur < |boxes|
    requires Ascending(cands, scores)
    ensures var r := Survivors(boxes, cands, cur, thresh);
            && Ascending(r, scores)
            && forall c :: c in r <==> c in cands && Passes(boxes[cur], boxes[c], thresh)
  {
    if cands != [] {
      var front, last := cands[..|cands| - 1], cands[|cands| - 1];
      SurvivorsAre(boxes, scores, front, cur, thresh);
      assert forall c :: c in cands <==> c in front || c == last;
      var r0, r := Survivors(boxes, front, cur, thresh), Survivors(boxes, cands, cur, thresh);
      forall a, b | 0 <= a < b < |r| ensures Before(scores, r[a], r[b]) {
        if b == |r0| {
          assert r[a] in front;
        }
      }
    }
  }

  /** What suppression guarantees about the kept boxes. */
  ghost predicate Suppressed(boxes: seq<Box>, scores: seq<real>, cands: seq<nat>, thresh: real, keep: seq<nat>)
    requires |scores| == |boxes| && InBounds(cands, |boxes|) && InBounds(keep, |boxes|)
  {
    && (forall k :: 0 <= k < |keep| ==> keep[k] in cands)
    && (forall a, b :: 0 <= a < b < |keep| ==> keep[a] != keep[b] && scores[keep[a]] >= scores[keep[b]])
    && NoneOverlap(boxes, thresh, keep)
    && (forall c :: c in cands ==> c in keep || Overlapped(boxes, scores, thresh, keep, c))
  }

  /** A kept box of at least the same score overlaps `c` by more than the threshold. */
  ghost predicate Overlapped(boxes: seq<Box>, scores: seq<real>, thresh: real, keep: seq<nat>, c: nat)
    requires |scores| == |boxes| && c < |boxes| && InBounds(keep, |boxes|)
  {
    exists k :: 0 <= k < |keep| && !Passes(boxes[keep[k]], boxes[c], thresh) && scores[keep[k]] >= scores[c]
  }

  lemma {:induction false} GreedySuppresses(boxes: seq<Box>, scores: seq<real>, cands: seq<nat>, thresh: real)
    requires |scores| == |boxes| && InBounds(cands, |boxes|) && Ascending(cands, scores)
    ensures Suppressed(boxes, scores, cands, thresh, Greedy(boxes, cands, thresh))
    decreases |cands|
  {
    if cands != [] {
      var front, cur := cands[..|cands| - 1], cands[|cands| - 1];
      var rest := Survivors(boxes, front, cur, thresh);
      SurvivorsAre(boxes, scores, front, cur, thresh);
      GreedySuppresses(boxes, scores, rest, thresh);
      BestFirst(boxes, scores, cands, thresh, rest, Greedy(boxes, rest, thresh));
    }
  }

  /** Putting the best candidate in front of what is kept of its survivors. */
  lemma BestFirst(boxes: seq<Box>, scores: seq<real>, cands: seq<nat>, thresh: real, rest: seq<nat>, kept: seq<nat>)
    requires |scores| == |boxes| && InBounds(cands, |boxes|) &&
             Ascending(cands, scores) && cands != []
    requires InBounds(rest, |boxes|) && InBounds(kept, |boxes|)
    requires var cur := cands[|cands| - 1];
             forall c :: c in rest <==> c in cands[..|cands| - 1] && Passes(boxes[cur], boxes[c], thresh)
    requires Suppressed(boxes, scores, rest, thresh, kept)
    ensures Suppressed(boxes, scores, cands, thresh, [cands[|cands| - 1]] + kept)
  {
    var front, cur := cands[..|cands| - 1], cands[|cands| - 1];
    var keep := [cur] + kept;
    assert cands == front + [cur];
    forall k | 0 <= k < |kept| ensures kept[k] in front && kept[k] != cur && scores[cur] >= scores[kept[k]] {
      var a :| 0 <= a < |front| && front[a] == kept[k];
      assert Before(scores, cands[a], cands[|cands| - 1]);
    }
    NoOverlapAdded(boxes, thresh, cur, kept);
    forall c | c in cands ensures c in keep || Overlapped(boxes, scores, thresh, keep, c) {
      if c != cur {
        var a :| 0 <= a < |front| && front[a] == c;
        assert Before(scores, cands[a], cands[|cands| - 1]);
        if c in rest {
          CoveredStays(boxes, scores, thresh, kept, cur, c);
        } else {
          assert !Passes(boxes[keep[0]], boxes[c], thresh);
        }
      }
    }
  }

  ghost predicate NoneOverlap(boxes: seq<Box>, thresh: real, keep: seq<nat>)
    requires InBounds(keep, |boxes|)
  {
    forall a, b :: 0 <= a < |keep| && 0 <= b < |keep| && a != b ==> Passes(boxes[keep[a]], boxes[keep[b]], thresh)
  }

  lemma NoOverlapAdded(boxes: seq<Box>, thresh: real, cur: nat, kept: seq<nat>)
    requires InBounds(kept, |boxes|) && cur < |boxes| && NoneOverlap(boxes, thresh, kept)
    requires forall k :: 0 <= k < |kept| ==> Passes(boxes[cur], boxes[kept[k]], thresh)
    ensures NoneOverlap(boxes, thresh, [cur] + kept)
  {
    var keep := [cur] + kept;
    forall a, b | 0 <= a < |keep| && 0 <= b < |keep| && a != b ensures Passes(boxes[keep[a]], boxes[keep[b]], thresh) {
      PassesSymmetric(boxes[keep[a]], boxes[keep[b]], thresh);
    }
  }

  lemma CoveredStays(boxes: seq<Box>, scores: seq<real>, thresh: real, kept: seq<nat>, cur: nat, c: nat)
    requires |scores| == |boxes| && InBounds(kept, |boxes|) && cur < |boxes| && c < |boxes|
    requires c in kept || Overlapped(boxes, scores, thresh, kept, c)
    ensures c in [cur] + kept || Overlapped(boxes, scores, thresh, [cur] + kept, c)
  {
    if c !in kept {
      var k :| 0 <= k < |kept| && !Passes(boxes[kept[k]], boxes[c], thresh) && scores[kept[k]] >= scores[c];
      assert ([cur] + kept)[k + 1] == kept[k];
    }
  }

  /** The candidates: the last realK of the ascending order. */
  function RealK(n: nat, topK: nat): (k: nat)
    requires n > 0
    ensures 1 <= k <= n && (k <= topK || topK == 0) && (k == n || k == topK || topK == 0) && (topK == 0 ==> k == 1)
  {
    var k := if n < topK then n else topK;
    if k < 1 then 1 else k
  }

  method FilterBy(boxes: seq<Box>, cands: seq<nat>, cur: nat, thresh: real) returns (r: seq<nat>)
    requires InBounds(cands, |boxes|) && cur < |boxes|
    ensures r == Survivors(boxes, cands, cur, thresh)
  {
    r := [];
    for k := 0 to |cands|
      invariant r == Survivors(boxes, cands[..k], cur, thresh)
    {
      assert cands[..k + 1][..k] == cands[..k];
      if Passes(boxes[cur], boxes[cands[k]], thresh) {
        r := r + [cands[k]];
      }
    }
    assert cands[..|cands|] == cands;
  }

  /** The choice made from the last `realK` indices of the order, and what it guarantees. */
  ghost predicate ChosenFrom(boxes: seq<Box>, scores: seq<real>, thresh: real, realK: nat, order: seq<nat>,
                             keep: seq<nat>)
    requires |scores| == |boxes|
  {
    && StablySorted(order, scores) && |order| == |scores| && realK <= |order|
    && keep == Greedy(boxes, order[|order| - realK..], thresh)
    && Suppressed(boxes, scores, order[|order| - realK..], thresh, keep)
  }

  /** There is one stable order only, hence one result only. */
  lemma OrderIsUnique(a: seq<nat>, b: seq<nat>, scores: seq<real>)
    requires StablySorted(a, scores) && StablySorted(b, scores) && |a| == |b| == |scores|
    ensures a == b
  {
    PrefixesAgree(a, b, scores, |a|);
    assert a[..|a|] == a && b[..|a|] == b;
  }

  lemma {:induction false} PrefixesAgree(a: seq<nat>, b: seq<nat>, scores: seq<real>, k: nat)
    requires StablySorted(a, scores) && StablySorted(b, scores) && |a| == |b| == |scores| && k <= |a|
    ensures a[..k] == b[..k]
  {
    if k > 0 {
      PrefixesAgree(a, b, scores, k - 1);
      NotLater(a, b, scores, k - 1);
      NotLater(b, a, scores, k - 1);
      assert a[..k] == a[..k - 1] + [a[k - 1]] && b[..k] == b[..k - 1] + [b[k - 1]];
    }
  }

  /** After equal beginnings neither order goes on with an index the other puts later. */
  lemma NotLater(a: seq<nat>, b: seq<nat>, scores: seq<real>, k: nat)
    requires StablySorted(a, scores) && StablySorted(b, scores) && |a| == |b| == |scores| && k < |a|
    requires a[..k] == b[..k]
    ensures a[k] == b[k] || Before(scores, b[k], a[k])
  {
    forall j | 0 <= j < k ensures b[j] != a[k] {
      assert a[..k][j] == b[..k][j];
      assert Before(scores, a[j], a[k]);
    }
    assert a[k] in b;
    var m :| 0 <= m < |b| && b[m] == a[k];
    if k < m {
      assert Before(scores, b[k], b[m]);
    }
  }

  /** The selecting loop: takes the last candidate, filters, goes on. */
  method Select(boxes: seq<Box>, cands: seq<nat>, thresh: real) returns (keepIndices: seq<nat>)
    requires InBounds(cands, |boxes|)
    ensures keepIndices == Greedy(boxes, cands, thresh)
  {
    var sortedIndices := cands;
    keepIndices := [];
    while sortedIndices != []
      invariant InBounds(sortedIndices, |boxes|)
      invariant keepIndices + Greedy(boxes, sortedIndices, thresh) == Greedy(boxes, cands, thresh)
      decreases |sortedIndices|
    {
      var cur := sortedIndices[|sortedIndices| - 1];
      ghost var kept := keepIndices;
      keepIndices := keepIndices + [cur];
      var front := sortedIndices[..|sortedIndices| - 1];
      if |sortedIndices| == 1 {
        assert Greedy(boxes, sortedIndices, thresh) == [cur];
        break;
      }
      sortedIndices := FilterBy(boxes, front, cur, thresh);
      assert keepIndices + Greedy(boxes, sortedIndices, thresh)
          == kept + ([cur] + Greedy(boxes, sortedIndices, thresh));
    }
  }

  method Suppress(boxes: seq<Box>, scores: seq<real>, thresh: real, topK: nat) returns (keepIndices: seq<nat>)
    requires |boxes| == |scores| > 0
    ensures exists order :: ChosenFrom(boxes, scores, thresh, RealK(|boxes|, topK), order, keepIndices)
  {
    var realK := RealK(|boxes|, topK);
    var sortedIndices := SortIndexes(scores);
    ghost var order := sortedIndices;
    for i := 0 to |boxes| - realK
      invariant sortedIndices == order[i..]
    {
      sortedIndices := sortedIndices[1..];
    }
    GreedySuppresses(boxes, scores, sortedIndices, thresh);
    keepIndices := Select(boxes, sortedIndices, thresh);
    assert ChosenFrom(boxes, scores, thresh, realK, order, keepIndices);
  }
}
