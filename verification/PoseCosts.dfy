/** What the costs of a pairing do: near in tag and place wins. */
module PoseCosts {
  import opened Assignment
  import opened PoseMatching
  import opened PoseGrouping
  import opened PoseBound

  // ---------------------------------------------------------------------------
  // One cost
  // ---------------------------------------------------------------------------

  /** A square root of the numbers that have one. */
  ghost predicate IsSqrt(sqrt: real -> real) {
    forall x :: sqrt(x) >= 0.0 && (x >= 0.0 ==> sqrt(x) * sqrt(x) == x)
  }

  /** The straight-line distance, which is never negative. */
  ghost predicate IsDistance(d: real, a: Vec, b: Vec) {
    d >= 0.0 && d * d == (a.x - b.x) * (a.x - b.x) + (a.y - b.y) * (a.y - b.y)
  }

  lemma SquaresDiffer(d: real, e: real)
    requires d >= 0.0 && e >= 0.0 && d * d == e * e
    ensures d == e
  {
    if d < e { SquareGrows(d, e); }
    if e < d { SquareGrows(e, d); }
  }

  lemma SquareGrows(d: real, e: real)
    requires 0.0 <= d < e
    ensures d * d < e * e
  {
    assert e * e - d * d == (e - d) * (e + d);
    PositiveProduct(e - d, e + d);
  }

  lemma PositiveProduct(a: real, b: real)
    requires a > 0.0 && b > 0.0
    ensures a * b > 0.0
  {
  }

  lemma DistanceIs(sqrt: real -> real, a: Vec, b: Vec, d: real)
    requires IsSqrt(sqrt) && IsDistance(d, a, b)
    ensures Distance(sqrt, a, b) == d
  {
    SquaresDiffer(Distance(sqrt, a, b), d);
  }

  /** The least of the distances. */
  ghost predicate IsNearest(near: real, dists: seq<real>) {
    near in dists && forall i :: 0 <= i < |dists| ==> near <= dists[i]
  }

  ghost predicate AreDistances(dists: seq<real>, peaks: seq<Peak>, center: Vec) {
    |dists| == |peaks| && forall i :: 0 <= i < |dists| ==> IsDistance(dists[i], peaks[i].keypoint, center)
  }

  lemma {:induction false} NearestIs(sqrt: real -> real, peaks: seq<Peak>, center: Vec, dists: seq<real>, near: real)
    requires IsSqrt(sqrt) && peaks != [] && AreDistances(dists, peaks, center) && IsNearest(near, dists)
    ensures Nearest(sqrt, peaks, center) == near
  {
    var last := |peaks| - 1;
    DistanceIs(sqrt, peaks[last].keypoint, center, dists[last]);
    if |peaks| > 1 {
      var front := LeastOf(dists[..last]);
      NearestIs(sqrt, peaks[..last], center, dists[..last], front);
      assert dists == dists[..last] + [dists[last]];
    }
  }

  lemma {:induction false} LeastOf(dists: seq<real>) returns (near: real)
    requires dists != []
    ensures IsNearest(near, dists)
  {
    var last := |dists| - 1;
    near := dists[last];
    if last > 0 {
      var front := LeastOf(dists[..last]);
      if front < near { near := front; }
    }
    assert dists == dists[..last] + [dists[last]];
  }

  function Apart(a: real, b: real): real {
    if a < b then b - a else a - b
  }

  /** How far a peak is from a pose: the difference of their tags, counted, when it is below the threshold,
      as often as the peak is farther away than the nearest one. */
  function Weight(diff: real, dist: real, near: real, tagThreshold: real): real
    requires near >= 0.0
  {
    if diff < tagThreshold then diff * (dist / (near + 0.0000000001)) else diff
  }

  /** `n` is the whole number nearest to a weight, the greater of two. */
  ghost predicate RoundsTo(weight: real, n: int) {
    weight >= 0.0 && weight - 0.5 < n as real <= weight + 0.5
  }

  /** The weights of the peaks of a joint for one pose round to these numbers. */
  ghost predicate AreRanks(ranks: seq<int>, peaks: seq<Peak>, tag: real, center: Vec, tagThreshold: real,
                           dists: seq<real>, near: real)
  {
    && near >= 0.0 && |ranks| == |peaks| && AreDistances(dists, peaks, center) && IsNearest(near, dists)
    && forall i :: 0 <= i < |ranks| ==>
         RoundsTo(Weight(Apart(peaks[i].tag, tag), dists[i], near, tagThreshold), ranks[i])
  }

  /** A cost is a hundred times the rank, less the score. */
  lemma CostIsRank(sqrt: real -> real, peaks: seq<Peak>, tags: seq<real>, centers: seq<Vec>, tagThreshold: real,
                   i: nat, j: nat, ranks: seq<int>, dists: seq<real>, near: real)
    requires CostsDefined(sqrt, peaks, tags, centers) && i < |peaks| && j < |tags| && IsSqrt(sqrt)
    requires AreRanks(ranks, peaks, tags[j], centers[j], tagThreshold, dists, near)
    ensures CostOf(sqrt, peaks, tags, centers, tagThreshold, i, j) == 100.0 * ranks[i] as real - peaks[i].score
  {
    var weight := Weight(Apart(peaks[i].tag, tags[j]), dists[i], near, tagThreshold);
    DistanceIs(sqrt, peaks[i].keypoint, centers[j], dists[i]);
    NearestIs(sqrt, peaks, centers[j], dists, near);
    assert RoundsTo(weight, ranks[i]);
    RankCosts(peaks[i].score, TagDiff(peaks[i], tags[j]), dists[i], near, tagThreshold, ranks[i]);
  }

  lemma RankCosts(score: real, diff: real, dist: real, near: real, tagThreshold: real, n: int)
    requires near >= 0.0 && RoundsTo(Weight(diff, dist, near, tagThreshold), n)
    ensures PairCost(score, diff, dist, near, tagThreshold) == 100.0 * n as real - score
  {
    RoundIs(Weight(diff, dist, near, tagThreshold), n);
  }

  lemma RoundIs(weight: real, n: int)
    requires RoundsTo(weight, n)
    ensures Round(weight) == n as real
  {
    FloorIs(weight + 0.5, n);
  }

  lemma FloorIs(x: real, n: int)
    requires n as real <= x < n as real + 1.0
    ensures x.Floor == n
  {
  }

  // ---------------------------------------------------------------------------
  // One pose
  // ---------------------------------------------------------------------------

  /** With one pose, every pairing of least cost gives it to the peak that costs least there. */
  lemma CheapestGetsColumn(m: Matrix, res: seq<int>, n: nat, r: nat)
    requires Rectangular(m, n, n) && Optimal(m, res, n, n) && r < n
    requires forall i, j :: 0 <= i < n && 1 <= j < n ==> m[i][j] == BORDER
    requires forall i :: 0 <= i < n && i != r ==> m[r][0] < m[i][0]
    ensures Total(res) && forall i :: 0 <= i < n ==> (res[i] == 0 <==> i == r)
  {
    NoCheaperExchange(m, res, n, n, r, 0);
    UsesEveryColumn(res, n, 0);
    var k :| 0 <= k < n && res[k] == 0;
    forall i | 0 <= i < n && res[i] == 0 ensures i == k {
      assert i < k || k < i || i == k;
    }
  }

  lemma OneTarget(sqrt: real -> real, peaks: seq<Peak>, tags: seq<real>, centers: seq<Vec>, tagThreshold: real,
                  target: seq<int>, r: nat, ranks: seq<int>, dists: seq<real>, near: real)
    requires CostsDefined(sqrt, peaks, tags, centers) && IsSqrt(sqrt) && |tags| == 1 && r < |peaks|
    requires Paired(sqrt, peaks, tags, centers, tagThreshold, target)
    requires AreRanks(ranks, peaks, tags[0], centers[0], tagThreshold, dists, near)
    requires forall i :: 0 <= i < |peaks| && i != r ==>
               100.0 * ranks[r] as real - peaks[r].score < 100.0 * ranks[i] as real - peaks[i].score
    ensures |target| == |peaks| && forall i :: 0 <= i < |target| ==>
              target[i] == if i == r && Apart(peaks[r].tag, tags[0]) < tagThreshold then 0 else -1
  {
    var n := |peaks|;
    var m: Matrix, res: seq<int> :|
      && CostMatrix(sqrt, peaks, tags, centers, tagThreshold, m) && Optimal(m, res, n, if n > 1 then n else 1)
      && target == Targets(res, TagDiffs(peaks, tags), 1, tagThreshold);
    forall i | 0 <= i < n ensures m[i][0] == 100.0 * ranks[i] as real - peaks[i].score {
      CostIsRank(sqrt, peaks, tags, centers, tagThreshold, i, 0, ranks, dists, near);
    }
    CheapestGetsColumn(m, res, n, r);
  }

  /** When there is one pose, the peak of a joint that is nearest to it in tag and place, score counted, joins
      it if the tags are close, and every other peak opens a pose. */
  lemma NearestPeakJoins(c: Setting, joint: nat, before: Homes, after: Homes, r: nat, ranks: seq<int>,
                         dists: seq<real>, near: real)
    requires c.Valid() && IsSqrt(c.sqrt) && joint < 17 && JointStep(c, joint, before, after)
    requires |before| == 1 && c.maxNumPeople != 1 && r < |c.allPeaks[joint]|
    requires var peaks, tag, center := c.allPeaks[joint], TagsOf(before, c.allPeaks)[0],
                                       CentersOf(before, c.allPeaks)[0];
             && AreRanks(ranks, peaks, tag, center, c.tagThreshold, dists, near)
             && forall i :: 0 <= i < |peaks| && i != r ==>
                  100.0 * ranks[r] as real - peaks[r].score < 100.0 * ranks[i] as real - peaks[i].score
    ensures var joins := Apart(c.allPeaks[joint][r].tag, TagsOf(before, c.allPeaks)[0]) < c.tagThreshold;
            && |after| == |c.allPeaks[joint]| + (if joins then 0 else 1)
            && after[0] == if joins then before[0] + [Slot(joint, r)] else before[0]
  {
    var peaks, tags, centers := c.allPeaks[joint], TagsOf(before, c.allPeaks), CentersOf(before, c.allPeaks);
    var target :| Matched(c, joint, before, target, after);
    OneTarget(c.sqrt, peaks, tags, centers, c.tagThreshold, target, r, ranks, dists, near);
    OneJoins(before, joint, target, r, Apart(peaks[r].tag, tags[0]) < c.tagThreshold);
  }

  lemma OneJoins(homes: Homes, joint: nat, target: seq<int>, r: nat, joins: bool)
    requires |homes| == 1 && InRange(target, 1) && Injective(target) && r < |target|
    requires forall i :: 0 <= i < |target| ==> target[i] == if i == r && joins then 0 else -1
    ensures var after := Placed(homes, joint, target, |target|);
            && |after| == |target| + (if joins then 0 else 1)
            && after[0] == if joins then homes[0] + [Slot(joint, r)] else homes[0]
  {
    PlacedKeeps(homes, joint, target, |target|);
    assert target[..|target|] == target;
    OneMatched(homes, joint, target, |target|, r, joins);
  }

  lemma {:induction false} OneMatched(homes: Homes, joint: nat, target: seq<int>, k: nat, r: nat, joins: bool)
    requires k <= |target| && |homes| == 1 && InRange(target, 1)
    requires forall i :: 0 <= i < |target| ==> target[i] == if i == r && joins then 0 else -1
    ensures |Placed(homes, joint, target, k)| == 1 + k - if r < k && joins then 1 else 0
  {
    if k > 0 { OneMatched(homes, joint, target, k - 1, r, joins); }
  }

  // ---------------------------------------------------------------------------
  // An example
  // ---------------------------------------------------------------------------

  /** One person: a peak of the first joint, and two of the second with tags equally close to it, of which
      the far one scores higher. */
  ghost function NearAndFar(sqrt: real -> real): (c: Setting)
    requires IsSqrt(sqrt)
    ensures c.Valid()
  {
    var first := [Peak(Vec(0.0, 0.0), 0.9, 0.0)];
    var second := [Peak(Vec(1.0, 0.0), 0.5, 0.6), Peak(Vec(10.0, 0.0), 0.9, 0.6)];
    Setting(sqrt, [first, second] + seq(15, _ => []), 10, 1.0)
  }

  /** The near one joins the pose in every grouping: place outweighs score. */
  lemma NearOneJoins(sqrt: real -> real, states: seq<Homes>)
    requires IsSqrt(sqrt) && IsGrouping(NearAndFar(sqrt), states) && |states| > 2
    ensures |states[2]| == 2 && states[2][0] == [Slot(0, 0), Slot(1, 0)]
  {
    var c := NearAndFar(sqrt);
    assert StepAt(c, states, 0);
    assert StepAt(c, states, 1);
    OnlyPeakOpens(c, states[1]);
    NearOfTwoJoins(c, states[1], states[2], c.allPeaks[1][0], c.allPeaks[1][1]);
  }

  lemma NearOfTwoJoins(c: Setting, before: Homes, after: Homes, near: Peak, far: Peak)
    requires c.Valid() && IsSqrt(c.sqrt) && c.tagThreshold == 1.0 && c.maxNumPeople != 1
    requires before == [[Slot(0, 0)]] && JointStep(c, 1, before, after)
    requires |c.allPeaks[0]| == 1 && c.allPeaks[0][0].keypoint == Vec(0.0, 0.0) && c.allPeaks[0][0].tag == 0.0
    requires c.allPeaks[1] == [near, far] && near.tag == far.tag == 0.6 && near.score == 0.5 && far.score == 0.9
    requires near.keypoint == Vec(1.0, 0.0) && far.keypoint == Vec(10.0, 0.0)
    ensures |after| == 2 && after[0] == [Slot(0, 0), Slot(1, 0)]
  {
    MeansOfOne(Slot(0, 0), c.allPeaks);
    WeightsOfTwo();
    assert Apart(near.tag, 0.0) == Apart(far.tag, 0.0) == 0.6;
    FirstOfTwoJoins(c, before, after, 0.0, Vec(0.0, 0.0), 1.0, 10.0, 1, 6);
  }

  /** Of two peaks that are close in tag the nearer joins the only pose when its rank, less its score, is less. */
  lemma FirstOfTwoJoins(c: Setting, before: Homes, after: Homes, tag: real, center: Vec, d0: real, d1: real,
                        n0: int, n1: int)
    requires c.Valid() && IsSqrt(c.sqrt) && c.maxNumPeople != 1 && JointStep(c, 1, before, after)
    requires |before| == 1 && |c.allPeaks[1]| == 2 && d0 <= d1
    requires TagsOf(before, c.allPeaks) == [tag] && CentersOf(before, c.allPeaks) == [center]
    requires IsDistance(d0, c.allPeaks[1][0].keypoint, center) && IsDistance(d1, c.allPeaks[1][1].keypoint, center)
    requires RoundsTo(Weight(Apart(c.allPeaks[1][0].tag, tag), d0, d0, c.tagThreshold), n0)
    requires RoundsTo(Weight(Apart(c.allPeaks[1][1].tag, tag), d1, d0, c.tagThreshold), n1)
    requires Apart(c.allPeaks[1][0].tag, tag) < c.tagThreshold
    requires 100.0 * n0 as real - c.allPeaks[1][0].score < 100.0 * n1 as real - c.allPeaks[1][1].score
    ensures |after| == 2 && after[0] == before[0] + [Slot(1, 0)]
  {
    var peaks, dists, ranks := c.allPeaks[1], [d0, d1], [n0, n1];
    assert dists[0] == d0 && IsNearest(d0, dists);
    assert AreRanks(ranks, peaks, tag, center, c.tagThreshold, dists, d0);
    NearestPeakJoins(c, 1, before, after, 0, ranks, dists, d0);
  }

  lemma WeightsOfTwo()
    ensures RoundsTo(Weight(0.6, 1.0, 1.0, 1.0), 1) && RoundsTo(Weight(0.6, 10.0, 1.0, 1.0), 6)
  {
    var one, ten := 1.0 / (1.0 + 0.0000000001), 10.0 / (1.0 + 0.0000000001);
    assert 0.9 < one <= 1.0 && 9.9 < ten <= 10.0;
  }

  /** A pose of one peak has its tag and place. */
  lemma MeansOfOne(s: Slot, allPeaks: seq<seq<Peak>>)
    ensures TagsOf([[s]], allPeaks) == [PeakAt(s, allPeaks).peak.tag]
    ensures CentersOf([[s]], allPeaks) == [PeakAt(s, allPeaks).peak.keypoint]
  {
    var m := Entries([s], allPeaks);
    assert m == [PeakAt(s, allPeaks)] && m[..0] == [];
    assert SumTags(m[..0]) == SumX(m[..0]) == SumY(m[..0]) == 0.0;
  }

  lemma OnlyPeakOpens(c: Setting, after: Homes)
    requires c.Valid() && |c.allPeaks[0]| == 1 && JointStep(c, 0, [], after)
    ensures after == [[Slot(0, 0)]]
  {
    assert Placed([], 0, [-1], 0) == [];
    assert seq(1, _ => -1) == [-1];
  }
}
