/** Grouping of joint peaks into poses: running means, and the joint-by-joint
    matching that uses the assignment solver. */
module PoseMatching {
  import opened Assignment
  import opened KuhnMunkresSolver

  datatype Vec = Vec(x: real, y: real)

  datatype Peak = Peak(keypoint: Vec, score: real, tag: real)

  const NO_PEAK := Peak(Vec(-1.0, -1.0), 0.0, 0.0)

  /** One call of `Add`: which joint, which peak. */
  datatype Entry = Entry(joint: nat, peak: Peak)

  ghost function SumScores(m: seq<Entry>): real {
    if m == [] then 0.0 else SumScores(m[..|m| - 1]) + m[|m| - 1].peak.score
  }

  ghost function SumTags(m: seq<Entry>): real {
    if m == [] then 0.0 else SumTags(m[..|m| - 1]) + m[|m| - 1].peak.tag
  }

  ghost function SumX(m: seq<Entry>): real {
    if m == [] then 0.0 else SumX(m[..|m| - 1]) + m[|m| - 1].peak.keypoint.x
  }

  ghost function SumY(m: seq<Entry>): real {
    if m == [] then 0.0 else SumY(m[..|m| - 1]) + m[|m| - 1].peak.keypoint.y
  }

  ghost function Mean(sum: real, count: nat): real {
    if count == 0 then 0.0 else sum / count as real
  }

  /** The slot contents after the entries are written in order. */
  ghost function Slots(m: seq<Entry>, numJoints: nat): (s: seq<Peak>)
    requires forall e :: e in m ==> e.joint < numJoints
    ensures |s| == numJoints
  {
    if m == [] then seq(numJoints, _ => NO_PEAK)
    else Slots(m[..|m| - 1], numJoints)[m[|m| - 1].joint := m[|m| - 1].peak]
  }

  ghost predicate DistinctJoints(m: seq<Entry>) {
    forall a, b :: 0 <= a < b < |m| ==> m[a].joint != m[b].joint
  }

  /** With one entry a joint, every entry is still in its slot and the other slots are empty. */
  lemma {:induction false} SlotsHoldEntries(m: seq<Entry>, numJoints: nat)
    requires forall e :: e in m ==> e.joint < numJoints
    requires DistinctJoints(m)
    ensures forall e :: e in m ==> Slots(m, numJoints)[e.joint] == e.peak
    ensures forall j :: 0 <= j < numJoints && Slots(m, numJoints)[j] != NO_PEAK ==> exists e :: e in m && e.joint == j
    ensures |set e | e in m :: e.joint| == |m|
  {
    if m == [] {
      assert (set e | e in m :: e.joint) == {};
    } else {
      var front, last := m[..|m| - 1], m[|m| - 1];
      assert forall e :: e in m <==> e in front || e == last;
      SlotsHoldEntries(front, numJoints);
      assert (set e | e in m :: e.joint) == (set e | e in front :: e.joint) + {last.joint};
    }
  }

  lemma RunningMean(sum: real, count: nat, x: real)
    requires count == 0 ==> sum == 0.0
    ensures (Mean(sum, count) * count as real + x) / (count + 1) as real == Mean(sum + x, count + 1)
  {
    if count > 0 {
      assert sum / count as real * count as real == sum;
    }
  }

  /** Scales a mean back to its sum, adds one value and divides again. */
  method Include(mean: real, count: nat, x: real, ghost sum: real) returns (mean': real)
    requires mean == Mean(sum, count) && (count == 0 ==> sum == 0.0)
    ensures mean' == Mean(sum + x, count + 1)
  {
    RunningMean(sum, count, x);
    mean' := mean * count as real + x;
    mean' := mean' / (count + 1) as real;
  }

  lemma EntryAdded(m: seq<Entry>, e: Entry, numJoints: nat)
    requires forall d :: d in m ==> d.joint < numJoints
    requires e.joint < numJoints
    ensures forall d :: d in m + [e] ==> d.joint < numJoints
    ensures Slots(m + [e], numJoints) == Slots(m, numJoints)[e.joint := e.peak]
    ensures SumScores(m + [e]) == SumScores(m) + e.peak.score
    ensures SumTags(m + [e]) == SumTags(m) + e.peak.tag
    ensures SumX(m + [e]) == SumX(m) + e.peak.keypoint.x
    ensures SumY(m + [e]) == SumY(m) + e.peak.keypoint.y
  {
    assert (m + [e])[..|m + [e]| - 1] == m;
  }

  class Pose {
    var peaks: seq<Peak>
    var poseCenter: Vec
    var validPointsNum: nat
    var poseTag: real
    var sum: real
    /** Every peak added so far, in order. */
    ghost var members: seq<Entry>

    /** The count, the score sum and the means are exactly those of the added peaks. */
    ghost predicate Valid()
      reads this
    {
      && (forall e :: e in members ==> e.joint < |peaks|)
      && peaks == Slots(members, |peaks|)
      && validPointsNum == |members|
      && sum == SumScores(members)
      && poseTag == Mean(SumTags(members), |members|)
      && poseCenter == Vec(Mean(SumX(members), |members|), Mean(SumY(members), |members|))
    }

    constructor (numJoints: nat)
      ensures Valid() && members == [] && |peaks| == numJoints
    {
      peaks := seq(numJoints, _ => NO_PEAK);
      poseCenter := Vec(0.0, 0.0);
      validPointsNum := 0;
      poseTag := 0.0;
      sum := 0.0;
      members := [];
    }

    method Add(index: nat, peak: Peak)
      requires Valid() && index < |peaks|
      modifies this
      ensures Valid() && members == old(members) + [Entry(index, peak)]
      ensures |peaks| == old(|peaks|)
    {
      EntryAdded(members, Entry(index, peak), |peaks|);
      var tag := Include(poseTag, validPointsNum, peak.tag, SumTags(members));
      var x := Include(poseCenter.x, validPointsNum, peak.keypoint.x, SumX(members));
      var y := Include(poseCenter.y, validPointsNum, peak.keypoint.y, SumY(members));
      peaks := peaks[index := peak];
      sum := sum + peak.score;
      validPointsNum := validPointsNum + 1;
      poseTag, poseCenter := tag, Vec(x, y);
      members := members + [Entry(index, peak)];
    }

    method GetMeanScore() returns (mean: real)
      requires Valid() && validPointsNum > 0
      ensures mean == Mean(SumScores(members), |members|)
    {
      mean := sum / validPointsNum as real;
    }
  }

  // ---------------------------------------------------------------------------
  // Where every peak ends up
  // ---------------------------------------------------------------------------

  /** The index-th detected peak of a joint. */
  datatype Slot = Slot(joint: nat, index: nat)

  /** All slots of all homes, with multiplicity. */
  ghost function Housed(homes: seq<seq<Slot>>): multiset<Slot> {
    if homes == [] then multiset{} else Housed(homes[..|homes| - 1]) + multiset(homes[|homes| - 1])
  }

  lemma HousedNew(homes: seq<seq<Slot>>, home: seq<Slot>)
    ensures Housed(homes + [home]) == Housed(homes) + multiset(home)
  {
    assert (homes + [home])[..|homes + [home]| - 1] == homes;
  }

  lemma {:induction false} HousedAdd(homes: seq<seq<Slot>>, p: nat, s: Slot)
    requires p < |homes|
    ensures Housed(homes[p := homes[p] + [s]]) == Housed(homes) + multiset{s}
  {
    var last := |homes| - 1;
    var homes' := homes[p := homes[p] + [s]];
    if p == last {
      assert homes'[..last] == homes[..last];
    } else {
      assert homes'[..last] == homes[..last][p := homes[..last][p] + [s]];
      HousedAdd(homes[..last], p, s);
    }
  }

  lemma {:induction false} HousedContains(homes: seq<seq<Slot>>, p: nat, s: Slot)
    requires p < |homes| && s in homes[p]
    ensures Housed(homes)[s] >= 1
  {
    if p < |homes| - 1 { HousedContains(homes[..|homes| - 1], p, s); }
  }

  /** No home holds two peaks of one joint. */
  ghost predicate OneJointEach(homes: seq<seq<Slot>>) {
    forall p, a, b :: 0 <= p < |homes| && 0 <= a < b < |homes[p]| ==> homes[p][a].joint != homes[p][b].joint
  }

  ghost predicate NonEmptyHomes(homes: seq<seq<Slot>>) {
    forall p :: 0 <= p < |homes| ==> homes[p] != []
  }

  /** Exactly the peaks of the joints in `done`, plus the first `part` peaks of
      `joint`, are housed, each once. */
  ghost predicate HousesExactly(homes: seq<seq<Slot>>, allPeaks: seq<seq<Peak>>, done: set<nat>, joint: nat, part: nat)
    requires joint < |allPeaks| && forall j :: j in done ==> j < |allPeaks|
  {
    Exactly(Housed(homes), allPeaks, done, joint, part)
  }

  ghost predicate Exactly(m: multiset<Slot>, allPeaks: seq<seq<Peak>>, done: set<nat>, joint: nat, part: nat)
    requires joint < |allPeaks| && forall j :: j in done ==> j < |allPeaks|
  {
    forall s: Slot :: m[s] ==
      if (s.joint in done && s.index < |allPeaks[s.joint]|) || (s.joint == joint && s.index < part) then 1 else 0
  }

  /** The peak a slot names. */
  ghost function PeakAt(s: Slot, allPeaks: seq<seq<Peak>>): Entry {
    Entry(s.joint,
          if s.joint < |allPeaks| && s.index < |allPeaks[s.joint]| then allPeaks[s.joint][s.index] else NO_PEAK)
  }

  ghost function Entries(home: seq<Slot>, allPeaks: seq<seq<Peak>>): (m: seq<Entry>)
    ensures |m| == |home|
    ensures forall a :: 0 <= a < |m| ==> m[a] == PeakAt(home[a], allPeaks)
  {
    seq(|home|, a requires 0 <= a < |home| => PeakAt(home[a], allPeaks))
  }

  /** Each pose holds exactly the peaks of its home. */
  ghost predicate Tracks(poses: seq<Pose>, homes: seq<seq<Slot>>, allPeaks: seq<seq<Peak>>, numJoints: nat)
    reads poses
  {
    && |poses| == |homes|
    && (forall p, q :: 0 <= p < q < |poses| ==> poses[p] != poses[q])
    && (forall p :: 0 <= p < |poses| ==> poses[p].Valid() && |poses[p].peaks| == numJoints
                                         && poses[p].members == Entries(homes[p], allPeaks))
  }

  /** The mean tag of the peaks in each home, and their mean position. */
  ghost function TagsOf(homes: seq<seq<Slot>>, allPeaks: seq<seq<Peak>>): (t: seq<real>)
    ensures |t| == |homes|
  {
    seq(|homes|, p requires 0 <= p < |homes| => Mean(SumTags(Entries(homes[p], allPeaks)), |homes[p]|))
  }

  ghost function CentersOf(homes: seq<seq<Slot>>, allPeaks: seq<seq<Peak>>): (c: seq<Vec>)
    ensures |c| == |homes|
  {
    seq(|homes|, p requires 0 <= p < |homes| =>
      var m := Entries(homes[p], allPeaks);
      Vec(Mean(SumX(m), |homes[p]|), Mean(SumY(m), |homes[p]|)))
  }

  // ---------------------------------------------------------------------------
  // Placing the peaks of one joint
  // ---------------------------------------------------------------------------

  /** One peak sent to a home, or to a new one. */
  ghost function Sent(h: seq<seq<Slot>>, to: int, s: Slot): seq<seq<Slot>>
    requires to < |h|
  {
    if to >= 0 then h[to := h[to] + [s]] else h + [[s]]
  }

  /** The homes after the first `k` peaks of a joint go where `target` says;
      -1 opens a new home. */
  ghost function Placed(homes: seq<seq<Slot>>, joint: nat, target: seq<int>, k: nat): (h: seq<seq<Slot>>)
    requires k <= |target| && InRange(target, |homes|)
    ensures |homes| <= |h| <= |homes| + k
  {
    if k == 0 then homes
    else
      Sent(Placed(homes, joint, target, k - 1), target[k - 1], Slot(joint, k - 1))
  }

  /** Homes before a joint is placed. */
  ghost predicate GoodHomes(homes: seq<seq<Slot>>, allPeaks: seq<seq<Peak>>, done: set<nat>, joint: nat, part: nat)
    requires joint < |allPeaks| && forall j :: j in done ==> j < |allPeaks|
  {
    && HousesExactly(homes, allPeaks, done, joint, part)
    && OneJointEach(homes) && NonEmptyHomes(homes)
  }

  /** Homes that existed before are untouched unless already targeted. */
  lemma {:induction false} PlacedKeeps(homes: seq<seq<Slot>>, joint: nat, target: seq<int>, k: nat)
    requires k <= |target| && InRange(target, |homes|) && Injective(target)
    ensures var h := Placed(homes, joint, target, k);
            && (forall p :: 0 <= p < |homes| && p !in target[..k] ==> h[p] == homes[p])
            && (forall r :: 0 <= r < k && target[r] >= 0 ==> h[target[r]] == homes[target[r]] + [Slot(joint, r)])
  {
    if k > 0 {
      PlacedKeeps(homes, joint, target, k - 1);
      var h, to := Placed(homes, joint, target, k), target[k - 1];
      assert target[..k] == target[..k - 1] + [to];
      forall r | 0 <= r < k && target[r] >= 0 ensures h[target[r]] == homes[target[r]] + [Slot(joint, r)] {
        assert r < k - 1 ==> target[r] != to;
        assert r == k - 1 ==> to !in target[..k - 1];
      }
    }
  }

  /** Every new home holds one peak. */
  ghost predicate OpenedBy(joint: nat, target: seq<int>, k: nat, home: seq<Slot>)
    requires k <= |target|
  {
    exists r :: 0 <= r < k && target[r] < 0 && home == [Slot(joint, r)]
  }

  lemma {:induction false} PlacedOpens(homes: seq<seq<Slot>>, joint: nat, target: seq<int>, k: nat, p: nat)
    requires k <= |target| && InRange(target, |homes|) && |homes| <= p < |Placed(homes, joint, target, k)|
    ensures OpenedBy(joint, target, k, Placed(homes, joint, target, k)[p])
  {
    var h0 := Placed(homes, joint, target, k - 1);
    if p < |h0| {
      PlacedOpens(homes, joint, target, k - 1, p);
      var r :| 0 <= r < k - 1 && target[r] < 0 && h0[p] == [Slot(joint, r)];
    }
  }

  lemma SentAdds(h: seq<seq<Slot>>, to: int, x: Slot, s: Slot)
    requires to < |h|
    ensures Housed(Sent(h, to, x))[s] == Housed(h)[s] + if s == x then 1 else 0
  {
    if to >= 0 {
      HousedAdd(h, to, x);
    } else {
      HousedNew(h, [x]);
    }
  }

  /** Placing adds the first `k` peaks of the joint, once each. */
  lemma {:induction false} PlacedAdds(homes: seq<seq<Slot>>, joint: nat, target: seq<int>, k: nat, s: Slot,
                                      h: seq<seq<Slot>>)
    requires k <= |target| && InRange(target, |homes|) && h == Placed(homes, joint, target, k)
    ensures Housed(h)[s] == Housed(homes)[s] + if s.joint == joint && s.index < k then 1 else 0
  {
    if k > 0 {
      var h0 := Placed(homes, joint, target, k - 1);
      PlacedAdds(homes, joint, target, k - 1, s, h0);
      SentAdds(h0, target[k - 1], Slot(joint, k - 1), s);
    }
  }

  lemma PlacedHouses(homes: seq<seq<Slot>>, allPeaks: seq<seq<Peak>>, done: set<nat>, joint: nat, target: seq<int>,
                     k: nat)
    requires joint < |allPeaks| && joint !in done && forall j :: j in done ==> j < |allPeaks|
    requires HousesExactly(homes, allPeaks, done, joint, 0)
    requires k <= |target| && InRange(target, |homes|)
    ensures HousesExactly(Placed(homes, joint, target, k), allPeaks, done, joint, k)
  {
    var h := Placed(homes, joint, target, k);
    forall s: Slot
      ensures Housed(h)[s] ==
        if (s.joint in done && s.index < |allPeaks[s.joint]|) || (s.joint == joint && s.index < k) then 1 else 0
    {
      PlacedAdds(homes, joint, target, k, s, h);
    }
  }

  /** A joint not yet placed is in no home. */
  lemma JointNotHoused(homes: seq<seq<Slot>>, allPeaks: seq<seq<Peak>>, done: set<nat>, joint: nat, p: nat, a: nat)
    requires joint < |allPeaks| && joint !in done && forall j :: j in done ==> j < |allPeaks|
    requires HousesExactly(homes, allPeaks, done, joint, 0)
    requires p < |homes| && a < |homes[p]|
    ensures homes[p][a].joint != joint
    ensures homes[p][a].joint < |allPeaks| && homes[p][a].index < |allPeaks[homes[p][a].joint]|
  {
    HousedContains(homes, p, homes[p][a]);
  }

  /** Placing a joint keeps one peak a joint in every home. */
  lemma PlacedOneJoint(homes: seq<seq<Slot>>, allPeaks: seq<seq<Peak>>, done: set<nat>, joint: nat, target: seq<int>,
                       p: nat)
    requires joint < |allPeaks| && joint !in done && forall j :: j in done ==> j < |allPeaks|
    requires GoodHomes(homes, allPeaks, done, joint, 0)
    requires InRange(target, |homes|) && Injective(target)
    requires p < |Placed(homes, joint, target, |target|)|
    ensures var h := Placed(homes, joint, target, |target|)[p];
            h != [] && forall a, b :: 0 <= a < b < |h| ==> h[a].joint != h[b].joint
  {
    PlacedKeeps(homes, joint, target, |target|);
    assert target[..|target|] == target;
    if p < |homes| {
      forall a | 0 <= a < |homes[p]| ensures homes[p][a].joint != joint {
        JointNotHoused(homes, allPeaks, done, joint, p, a);
      }
      if p in target {
        var r :| 0 <= r < |target| && target[r] == p;
      }
    } else {
      PlacedOpens(homes, joint, target, |target|, p);
    }
  }

  /** One joint's round keeps the bookkeeping, whatever the pairing, as long as no
      two peaks are sent to the same home. */
  lemma PlacedIsGood(homes: seq<seq<Slot>>, allPeaks: seq<seq<Peak>>, done: set<nat>, joint: nat, target: seq<int>)
    requires joint < |allPeaks| && joint !in done && forall j :: j in done ==> j < |allPeaks|
    requires GoodHomes(homes, allPeaks, done, joint, 0)
    requires |target| == |allPeaks[joint]| && InRange(target, |homes|) && Injective(target)
    ensures forall next: nat :: next < |allPeaks| ==>
              GoodHomes(Placed(homes, joint, target, |target|), allPeaks, done + {joint}, next, 0)
  {
    PlacedHouses(homes, allPeaks, done, joint, target, |target|);
    forall p | 0 <= p < |Placed(homes, joint, target, |target|)|
      ensures var h := Placed(homes, joint, target, |target|)[p];
              h != [] && forall a, b :: 0 <= a < b < |h| ==> h[a].joint != h[b].joint
    {
      PlacedOneJoint(homes, allPeaks, done, joint, target, p);
    }
  }

  // ---------------------------------------------------------------------------
  // Costs
  // ---------------------------------------------------------------------------

  function Abs(x: real): real { if x < 0.0 then -x else x }

  /** Rounds to the nearest integer, halves away from zero. */
  function Round(x: real): real {
    if x >= 0.0 then (x + 0.5).Floor as real else -((-x + 0.5).Floor as real)
  }

  function Distance(sqrt: real -> real, a: Vec, b: Vec): real {
    sqrt((a.x - b.x) * (a.x - b.x) + (a.y - b.y) * (a.y - b.y))
  }

  /** The spatial distance from a centre to the nearest of the peaks. */
  ghost function Nearest(sqrt: real -> real, peaks: seq<Peak>, center: Vec): real
    requires peaks != []
  {
    var d := Distance(sqrt, peaks[|peaks| - 1].keypoint, center);
    if |peaks| == 1 then d
    else var rest := Nearest(sqrt, peaks[..|peaks| - 1], center); if d < rest then d else rest
  }

  function TagDiff(peak: Peak, poseTag: real): real {
    Abs(peak.tag - poseTag)
  }

  /** The cost of giving a peak to a pose: the tag difference, scaled by relative
      distance when the tags are close, less the peak's score. */
  function PairCost(score: real, tagDiff: real, dist: real, minDist: real, tagThreshold: real): real
    requires minDist >= 0.0
  {
    var diff := if tagDiff < tagThreshold then tagDiff * (dist / (minDist + 0.0000000001)) else tagDiff;
    Round(diff) * 100.0 - score
  }

  /** The tag differences between the peaks of a joint and the poses so far. */
  ghost function TagDiffs(peaks: seq<Peak>, tags: seq<real>): (m: Matrix)
    ensures Rectangular(m, |peaks|, |tags|)
    ensures forall i, j :: 0 <= i < |peaks| && 0 <= j < |tags| ==> m[i][j] == TagDiff(peaks[i], tags[j])
  {
    seq(|peaks|, i requires 0 <= i < |peaks| => seq(|tags|, j requires 0 <= j < |tags| => TagDiff(peaks[i], tags[j])))
  }

  lemma {:induction false} NearestNonNegative(sqrt: real -> real, peaks: seq<Peak>, center: Vec)
    requires peaks != [] && forall x :: sqrt(x) >= 0.0
    ensures Nearest(sqrt, peaks, center) >= 0.0
  {
    if |peaks| > 1 { NearestNonNegative(sqrt, peaks[..|peaks| - 1], center); }
  }

  const BORDER: real := 10000000000.0

  ghost predicate CostsDefined(sqrt: real -> real, peaks: seq<Peak>, tags: seq<real>, centers: seq<Vec>) {
    peaks != [] && |tags| == |centers| && forall x :: sqrt(x) >= 0.0
  }

  ghost function CostOf(sqrt: real -> real, peaks: seq<Peak>, tags: seq<real>, centers: seq<Vec>, tagThreshold: real,
                        i: nat, j: nat): real
    requires CostsDefined(sqrt, peaks, tags, centers) && i < |peaks| && j < |tags|
  {
    NearestNonNegative(sqrt, peaks, centers[j]);
    PairCost(peaks[i].score, TagDiff(peaks[i], tags[j]), Distance(sqrt, peaks[i].keypoint, centers[j]),
             Nearest(sqrt, peaks, centers[j]), tagThreshold)
  }

  /** The matrix handed to the solver: costs, then a border that makes every row assignable. */
  ghost predicate CostMatrix(sqrt: real -> real, peaks: seq<Peak>, tags: seq<real>, centers: seq<Vec>,
                             tagThreshold: real, m: Matrix)
    requires CostsDefined(sqrt, peaks, tags, centers)
  {
    && Rectangular(m, |peaks|, if |peaks| > |tags| then |peaks| else |tags|)
    && (forall i, j :: 0 <= i < |peaks| && |tags| <= j < |m[i]| ==> m[i][j] == BORDER)
    && (forall i, j :: 0 <= i < |peaks| && 0 <= j < |tags| ==>
        m[i][j] == CostOf(sqrt, peaks, tags, centers, tagThreshold, i, j))
  }

  /** Fills one pose's column of both matrices. */
  method FillColumn(sqrt: real -> real, peaks: seq<Peak>, tags: seq<real>, centers: seq<Vec>, tagThreshold: real,
                    j: nat, tagsDiff: array2<real>, matchingCost: array2<real>)
    requires CostsDefined(sqrt, peaks, tags, centers) && j < |tags| && tagsDiff != matchingCost
    requires tagsDiff.Length0 == matchingCost.Length0 == |peaks| && j < tagsDiff.Length1 && j < matchingCost.Length1
    modifies tagsDiff, matchingCost
    ensures forall i :: 0 <= i < |peaks| ==> tagsDiff[i, j] == TagDiff(peaks[i], tags[j])
    ensures forall i :: 0 <= i < |peaks| ==>
              matchingCost[i, j] == CostOf(sqrt, peaks, tags, centers, tagThreshold, i, j)
    ensures forall i, k :: 0 <= i < |peaks| && 0 <= k < tagsDiff.Length1 && k != j ==>
              tagsDiff[i, k] == old(tagsDiff[i, k])
    ensures forall i, k :: 0 <= i < |peaks| && 0 <= k < matchingCost.Length1 && k != j ==>
              matchingCost[i, k] == old(matchingCost[i, k])
  {
    var dists, minDist := Distances(sqrt, peaks, centers[j]);
    NearestNonNegative(sqrt, peaks, centers[j]);
    for i := 0 to |peaks|
      invariant forall r :: 0 <= r < i ==> tagsDiff[r, j] == TagDiff(peaks[r], tags[j])
      invariant forall r :: 0 <= r < i ==> matchingCost[r, j] == CostOf(sqrt, peaks, tags, centers, tagThreshold, r, j)
      invariant forall r, k :: 0 <= r < |peaks| && 0 <= k < tagsDiff.Length1 && k != j ==>
                  tagsDiff[r, k] == old(tagsDiff[r, k])
      invariant forall r, k :: 0 <= r < |peaks| && 0 <= k < matchingCost.Length1 && k != j ==>
                  matchingCost[r, k] == old(matchingCost[r, k])
    {
      var diff := TagDiff(peaks[i], tags[j]);
      tagsDiff[i, j] := diff;
      matchingCost[i, j] := PairCost(peaks[i].score, diff, dists[i], minDist, tagThreshold);
    }
  }

  method BuildCosts(sqrt: real -> real, peaks: seq<Peak>, tags: seq<real>, centers: seq<Vec>, tagThreshold: real)
    returns (tagsDiff: array2<real>, matchingCost: array2<real>)
    requires CostsDefined(sqrt, peaks, tags, centers)
    ensures fresh(tagsDiff) && fresh(matchingCost)
    ensures tagsDiff.Length0 == |peaks| && tagsDiff.Length1 == |tags|
    ensures matchingCost.Length0 == |peaks| && matchingCost.Length1 == if |peaks| > |tags| then |peaks| else |tags|
    ensures Rows(tagsDiff) == TagDiffs(peaks, tags)
    ensures CostMatrix(sqrt, peaks, tags, centers, tagThreshold, Rows(matchingCost))
  {
    var numAdded, numGrouped := |peaks|, |tags|;
    tagsDiff := new real[numAdded, numGrouped];
    matchingCost := new real[numAdded, if numAdded > numGrouped then numAdded else numGrouped]((i, j) => BORDER);
    for j := 0 to numGrouped
      invariant forall i, k :: 0 <= i < numAdded && 0 <= k < j ==> tagsDiff[i, k] == TagDiff(peaks[i], tags[k])
      invariant forall i, k :: 0 <= i < numAdded && numGrouped <= k < matchingCost.Length1 ==>
                  matchingCost[i, k] == BORDER
      invariant forall i, k :: 0 <= i < numAdded && 0 <= k < j ==>
                  matchingCost[i, k] == CostOf(sqrt, peaks, tags, centers, tagThreshold, i, k)
    {
      FillColumn(sqrt, peaks, tags, centers, tagThreshold, j, tagsDiff, matchingCost);
    }
    assert forall i :: 0 <= i < numAdded ==> Rows(tagsDiff)[i] == TagDiffs(peaks, tags)[i];
  }

  method Distances(sqrt: real -> real, peaks: seq<Peak>, center: Vec) returns (dists: seq<real>, minDist: real)
    requires peaks != []
    ensures |dists| == |peaks| && forall i :: 0 <= i < |peaks| ==> dists[i] == Distance(sqrt, peaks[i].keypoint, center)
    ensures minDist == Nearest(sqrt, peaks, center)
  {
    dists := [];
    minDist := 0.0;
    for i := 0 to |peaks|
      invariant |dists| == i && forall k :: 0 <= k < i ==> dists[k] == Distance(sqrt, peaks[k].keypoint, center)
      invariant i > 0 ==> minDist == Nearest(sqrt, peaks[..i], center)
    {
      var dist := Distance(sqrt, peaks[i].keypoint, center);
      dists := dists + [dist];
      assert peaks[..i + 1][..i] == peaks[..i];
      minDist := if i == 0 || dist < minDist then dist else minDist;
    }
    assert peaks[..|peaks|] == peaks;
  }

  // ---------------------------------------------------------------------------
  // Matching
  // ---------------------------------------------------------------------------

  /** Where a solved pairing sends each peak: the pose of its column when that is a
      real pose with a close tag, else a new pose. */
  ghost function Targets(res: seq<int>, diffs: Matrix, numGrouped: nat, tagThreshold: real): (t: seq<int>)
    requires Rectangular(diffs, |res|, numGrouped)
    ensures |t| == |res| && InRange(t, numGrouped)
    ensures forall r :: 0 <= r < |t| ==>
      t[r] == if 0 <= res[r] < numGrouped && diffs[r][res[r]] < tagThreshold then res[r] else -1
  {
    seq(|res|, r requires 0 <= r < |res| =>
      if 0 <= res[r] < numGrouped && diffs[r][res[r]] < tagThreshold then res[r] else -1)
  }

  lemma EntriesGrow(home: seq<Slot>, s: Slot, allPeaks: seq<seq<Peak>>)
    ensures Entries(home + [s], allPeaks) == Entries(home, allPeaks) + [PeakAt(s, allPeaks)]
  {
  }

  /** Adds one peak to an existing pose. */
  method AddTo(poses: seq<Pose>, target: nat, joint: nat, peak: Peak, numJoints: nat,
               ghost homes: seq<seq<Slot>>, ghost allPeaks: seq<seq<Peak>>, ghost index: nat)
    requires Tracks(poses, homes, allPeaks, numJoints) && target < |poses|
    requires joint < numJoints && PeakAt(Slot(joint, index), allPeaks) == Entry(joint, peak)
    modifies poses[target]
    ensures Tracks(poses, homes[target := homes[target] + [Slot(joint, index)]], allPeaks, numJoints)
  {
    EntriesGrow(homes[target], Slot(joint, index), allPeaks);
    poses[target].Add(joint, peak);
  }

  /** Opens a new pose for one peak. */
  method Open(poses: seq<Pose>, joint: nat, peak: Peak, numJoints: nat,
              ghost homes: seq<seq<Slot>>, ghost allPeaks: seq<seq<Peak>>, ghost index: nat)
    returns (poses': seq<Pose>)
    requires Tracks(poses, homes, allPeaks, numJoints)
    requires joint < numJoints && PeakAt(Slot(joint, index), allPeaks) == Entry(joint, peak)
    ensures Tracks(poses', homes + [[Slot(joint, index)]], allPeaks, numJoints)
    ensures |poses'| == |poses| + 1 && Extends(poses, poses') && fresh(poses'[|poses|])
  {
    var pose := new Pose(numJoints);
    EntriesGrow([], Slot(joint, index), allPeaks);
    assert [] + [Slot(joint, index)] == [Slot(joint, index)];
    pose.Add(joint, peak);
    poses' := poses + [pose];
  }

  ghost predicate Extends(before: seq<Pose>, after: seq<Pose>) {
    |before| <= |after| && forall p :: 0 <= p < |before| ==> after[p] == before[p]
  }

  ghost function Added(before: seq<Pose>, after: seq<Pose>): (s: set<Pose>) {
    if |before| <= |after| then set p | |before| <= p < |after| :: after[p] else {}
  }

  lemma AddedGrows(first: seq<Pose>, before: seq<Pose>, after: seq<Pose>)
    requires Extends(first, before) && Extends(before, after)
    ensures Extends(first, after) && Added(first, after) == Added(first, before) + Added(before, after)
  {
  }

  /** Sends one peak to its target, or to a new pose. */
  method PlaceOne(poses: seq<Pose>, row: nat, joint: nat, peak: Peak, toPose: bool, numJoints: nat,
                  ghost homes: seq<seq<Slot>>, ghost allPeaks: seq<seq<Peak>>, col: nat, ghost target: seq<int>)
    returns (poses': seq<Pose>)
    requires row < |target| && InRange(target, |homes|) && target[row] == (if toPose then col else -1)
    requires Tracks(poses, Placed(homes, joint, target, row), allPeaks, numJoints)
    requires joint < numJoints && PeakAt(Slot(joint, row), allPeaks) == Entry(joint, peak)
    modifies if toPose then {poses[col]} else {}
    ensures Tracks(poses', Placed(homes, joint, target, row + 1), allPeaks, numJoints)
    ensures Extends(poses, poses') && fresh(Added(poses, poses'))
  {
    ghost var h := Placed(homes, joint, target, row);
    if toPose {
      AddTo(poses, col, joint, peak, numJoints, h, allPeaks, row);
      poses' := poses;
      assert Added(poses, poses') == {};
    } else {
      poses' := Open(poses, joint, peak, numJoints, h, allPeaks, row);
      assert Added(poses, poses') == {poses'[|poses|]};
    }
  }

  /** The same, keeping track of the homes and of the poses opened since `first`. */
  method PlaceNext(ghost first: seq<Pose>, poses: seq<Pose>, row: nat, joint: nat, peak: Peak, toPose: bool,
                   numJoints: nat,
                   ghost homes: seq<seq<Slot>>, ghost allPeaks: seq<seq<Peak>>, col: nat, ghost target: seq<int>,
                   ghost h: seq<seq<Slot>>, ghost made: set<Pose>)
    returns (poses': seq<Pose>, ghost h': seq<seq<Slot>>, ghost made': set<Pose>)
    requires row < |target| && InRange(target, |homes|) && target[row] == (if toPose then col else -1)
    requires h == Placed(homes, joint, target, row) && Tracks(poses, h, allPeaks, numJoints)
    requires joint < numJoints && PeakAt(Slot(joint, row), allPeaks) == Entry(joint, peak)
    requires Extends(first, poses) && made == Added(first, poses) && (toPose ==> col < |first|)
    modifies first
    ensures h' == Placed(homes, joint, target, row + 1) && Tracks(poses', h', allPeaks, numJoints)
    ensures Extends(first, poses') && made' == Added(first, poses') && fresh(made' - made)
  {
    poses' := PlaceOne(poses, row, joint, peak, toPose, numJoints, homes, allPeaks, col, target);
    AddedGrows(first, poses, poses');
    made' := made + Added(poses, poses');
    h' := Placed(homes, joint, target, row + 1);
  }

  /** Sends each peak of a joint where the solved pairing says. */
  method PlacePeaks(poses: seq<Pose>, joint: nat, jointPeaks: seq<Peak>, numJoints: nat,
                    res: seq<int>, tagsDiff: array2<real>, tagThreshold: real,
                    ghost homes: seq<seq<Slot>>, ghost allPeaks: seq<seq<Peak>>)
    returns (poses': seq<Pose>)
    requires Tracks(poses, homes, allPeaks, numJoints)
    requires joint < numJoints && joint < |allPeaks| && jointPeaks == allPeaks[joint]
    requires |res| == |jointPeaks| == tagsDiff.Length0 && tagsDiff.Length1 == |poses| && Total(res)
    modifies poses
    ensures Tracks(poses', Placed(homes, joint,
          old(Targets(res, Rows(tagsDiff), |poses|, tagThreshold)), |res|), allPeaks, numJoints)
    ensures Extends(poses, poses') && fresh(Added(poses, poses'))
  {
    ghost var target := Targets(res, Rows(tagsDiff), |poses|, tagThreshold);
    ghost var h, made: set<Pose> := homes, {};
    poses' := poses;
    for row := 0 to |res|
      invariant h == Placed(homes, joint, target, row) && Tracks(poses', h, allPeaks, numJoints)
      invariant Extends(poses, poses') && made == Added(poses, poses') && fresh(made)
    {
      var col := res[row];
      var toPose := col < |poses| && tagsDiff[row, col] < tagThreshold;
      poses', h, made := PlaceNext(poses, poses', row, joint, jointPeaks[row], toPose,
        numJoints, homes, allPeaks, col, target, h, made);
    }
  }

  method ReadPoses(poses: seq<Pose>, ghost homes: seq<seq<Slot>>, ghost allPeaks: seq<seq<Peak>>, numJoints: nat)
    returns (tags: seq<real>, centers: seq<Vec>)
    requires Tracks(poses, homes, allPeaks, numJoints)
    ensures |tags| == |centers| == |poses|
    ensures forall p :: 0 <= p < |poses| ==> tags[p] == poses[p].poseTag && centers[p] == poses[p].poseCenter
    ensures tags == TagsOf(homes, allPeaks) && centers == CentersOf(homes, allPeaks)
  {
    tags, centers := [], [];
    for p := 0 to |poses|
      invariant |tags| == |centers| == p
      invariant forall q :: 0 <= q < p ==> tags[q] == poses[q].poseTag && centers[q] == poses[q].poseCenter
    {
      tags, centers := tags + [poses[p].poseTag], centers + [poses[p].poseCenter];
    }
  }

  /** Opens one pose for each peak, when there are none yet. */
  method OpenAll(joint: nat, jointPeaks: seq<Peak>, numJoints: nat, ghost allPeaks: seq<seq<Peak>>)
    returns (poses: seq<Pose>)
    requires joint < numJoints && joint < |allPeaks| && jointPeaks == allPeaks[joint]
    ensures Tracks(poses, Placed([], joint, seq(|jointPeaks|, _ => -1), |jointPeaks|), allPeaks, numJoints)
    ensures |poses| == |jointPeaks| && fresh(Added([], poses))
  {
    poses := [];
    ghost var target := seq(|jointPeaks|, _ => -1);
    for personId := 0 to |jointPeaks|
      invariant Tracks(poses, Placed([], joint, target, personId), allPeaks, numJoints)
      invariant |poses| == personId && fresh(Added([], poses))
    {
      ghost var before := poses;
      poses := Open(poses, joint, jointPeaks[personId], numJoints,
        Placed([], joint, target, personId), allPeaks, personId);
      AddedGrows([], before, poses);
    }
  }

  /** Every row of a full assignment with at least as many columns as rows has a column,
      so the pairing that is read never holds -1. */
  lemma PairingIsTotal(m: Matrix, res: seq<int>, rows: nat, cols: nat)
    requires Rectangular(m, rows, cols) && rows <= cols && Optimal(m, res, rows, cols)
    ensures Total(res)
  {
    AssignedAll(res);
  }

  /** `target` comes from a pairing of least total cost between the peaks and the
      poses with these tags and centres. */
  ghost predicate Paired(sqrt: real -> real, peaks: seq<Peak>, tags: seq<real>, centers: seq<Vec>, tagThreshold: real,
                         target: seq<int>)
    requires CostsDefined(sqrt, peaks, tags, centers)
  {
    exists m: Matrix, res: seq<int> ::
      && CostMatrix(sqrt, peaks, tags, centers, tagThreshold, m)
      && Optimal(m, res, |peaks|, if |peaks| > |tags| then |peaks| else |tags|)
      && target == Targets(res, TagDiffs(peaks, tags), |tags|, tagThreshold)
  }

  /** Solves the pairing of a joint's peaks with the poses. */
  method SolvePairing(sqrt: real -> real, jointPeaks: seq<Peak>, posesTags: seq<real>, posesCenters: seq<Vec>,
                      tagThreshold: real)
    returns (res: seq<int>, tagsDiff: array2<real>)
    requires CostsDefined(sqrt, jointPeaks, posesTags, posesCenters)
    ensures fresh(tagsDiff) && tagsDiff.Length0 == |jointPeaks| == |res| && tagsDiff.Length1 == |posesTags|
    ensures Total(res) && Injective(res)
    ensures Paired(sqrt, jointPeaks, posesTags, posesCenters, tagThreshold,
          Targets(res, Rows(tagsDiff), |posesTags|, tagThreshold))
  {
    var matchingCost;
    tagsDiff, matchingCost := BuildCosts(sqrt, jointPeaks, posesTags, posesCenters, tagThreshold);
    ghost var m := Rows(matchingCost);
    var solver := new KuhnMunkres(false);
    res := solver.Solve(matchingCost);
    PairingIsTotal(m, res, |jointPeaks|, matchingCost.Length1);
  }

  /** Pairs the peaks of a joint with the poses at least total cost and places them. */
  method MatchJoint(sqrt: real -> real, poses: seq<Pose>, joint: nat, jointPeaks: seq<Peak>, numJoints: nat,
                    tagThreshold: real,
                    ghost homes: seq<seq<Slot>>, ghost allPeaks: seq<seq<Peak>>)
    returns (poses': seq<Pose>, ghost tags: seq<real>, ghost centers: seq<Vec>, ghost target: seq<int>)
    requires forall x :: sqrt(x) >= 0.0
    requires Tracks(poses, homes, allPeaks, numJoints) && jointPeaks != []
    requires joint < numJoints && joint < |allPeaks| && jointPeaks == allPeaks[joint]
    modifies poses
    ensures |tags| == |centers| == |poses|
    ensures forall p :: 0 <= p < |poses| ==> tags[p] == old(poses[p].poseTag) && centers[p] == old(poses[p].poseCenter)
    ensures tags == TagsOf(homes, allPeaks) && centers == CentersOf(homes, allPeaks)
    ensures Paired(sqrt, jointPeaks, tags, centers, tagThreshold, target)
    ensures |target| == |jointPeaks| && InRange(target, |homes|) && Injective(target)
    ensures Tracks(poses', Placed(homes, joint, target, |target|), allPeaks, numJoints)
    ensures Extends(poses, poses') && fresh(Added(poses, poses'))
  {
    var posesTags, posesCenters := ReadPoses(poses, homes, allPeaks, numJoints);
    var res, tagsDiff := SolvePairing(sqrt, jointPeaks, posesTags, posesCenters, tagThreshold);
    tags, centers, target := posesTags, posesCenters, Targets(res, Rows(tagsDiff), |poses|, tagThreshold);
    poses' := PlacePeaks(poses, joint, jointPeaks, numJoints, res, tagsDiff, tagThreshold, homes, allPeaks);
  }
}
