/** How many poses the grouping of a frame can end with. */
module PoseBound {
  import opened Assignment
  import opened PoseMatching
  import opened PoseGrouping

  // ---------------------------------------------------------------------------
  // One joint
  // ---------------------------------------------------------------------------

  /** Every peak from the second on opens a home; the first does unless it has a target. */
  lemma {:induction false} PlacedCount(homes: Homes, joint: nat, target: seq<int>, k: nat)
    requires k <= |target| && InRange(target, |homes|) && forall r :: 1 <= r < |target| ==> target[r] == -1
    ensures |Placed(homes, joint, target, k)| == |homes| + k - if k > 0 && target[0] >= 0 then 1 else 0
  {
    if k > 0 { PlacedCount(homes, joint, target, k - 1); }
  }

  /** Room for all peaks of the next joint is the exact condition under which no pairing leads to
      more than `max` homes. */
  lemma RoomIsExact(homes: Homes, joint: nat, m: nat, max: nat)
    ensures |homes| + m <= max <==>
            forall target :: |target| == m && InRange(target, |homes|) && Injective(target) ==>
              |Placed(homes, joint, target, m)| <= max
  {
    PlacedCount(homes, joint, seq(m, _ => -1), m);
  }

  /** What a joint with `n` peaks does to the number of homes. */
  lemma StepCounts(c: Setting, joint: nat, before: Homes, after: Homes)
    requires c.Valid() && joint < 17 && JointStep(c, joint, before, after)
    ensures var n := |c.allPeaks[joint]|;
            && |before| <= |after| <= |before| + n
            && (before == [] ==> |after| == n)
            && (before != [] && (n == 0 || |before| == c.maxNumPeople) ==> after == before)
  {
    var n := |c.allPeaks[joint]|;
    PlacedCount([], joint, seq(n, _ => -1), n);
  }

  /** A joint can always be taken. */
  lemma StepExists(c: Setting, joint: nat, before: Homes) returns (after: Homes)
    requires c.Valid() && joint < 17
    ensures JointStep(c, joint, before, after)
  {
    var peaks := c.allPeaks[joint];
    if before == [] {
      after := Opened(joint, |peaks|);
    } else if peaks == [] || |before| == c.maxNumPeople {
      after := before;
    } else {
      var target := PairingExists(c, peaks, TagsOf(before, c.allPeaks), CentersOf(before, c.allPeaks));
      after := Placed(before, joint, target, |target|);
      assert Matched(c, joint, before, target, after);
    }
  }

  lemma PairingExists(c: Setting, peaks: seq<Peak>, tags: seq<real>, centers: seq<Vec>) returns (target: seq<int>)
    requires c.Valid() && peaks != [] && |tags| == |centers|
    ensures |target| == |peaks| && InRange(target, |tags|) && Injective(target)
    ensures Paired(c.sqrt, peaks, tags, centers, c.tagThreshold, target)
  {
    var cols := if |peaks| > |tags| then |peaks| else |tags|;
    var m := seq(|peaks|, i requires 0 <= i < |peaks| => seq(cols, j requires 0 <= j < cols =>
      if j < |tags| then CostOf(c.sqrt, peaks, tags, centers, c.tagThreshold, i, j) else BORDER));
    assert CostMatrix(c.sqrt, peaks, tags, centers, c.tagThreshold, m);
    var res := OptimalExists(m, |peaks|, cols);
    target := Targets(res, TagDiffs(peaks, tags), |tags|, c.tagThreshold);
  }

  /** Every setting has a run over any number of joints. */
  lemma {:induction false} RunExists(c: Setting, k: nat) returns (states: seq<Homes>)
    requires c.Valid() && k <= |JOINT_ORDER|
    ensures IsGrouping(c, states) && |states| == k + 1
  {
    if k == 0 {
      states := [[]];
    } else {
      states := RunExists(c, k - 1);
      OrderHasNoRepeats(k - 1);
      var homes := StepExists(c, JOINT_ORDER[k - 1], states[k - 1]);
      GroupingGrows(c, states, homes);
      states := states + [homes];
    }
  }

  // ---------------------------------------------------------------------------
  // When the bound holds
  // ---------------------------------------------------------------------------

  /** The peaks of the k-th joint taken. */
  ghost function PeaksAt(c: Setting, k: nat): (peaks: seq<Peak>)
    requires c.Valid() && k < |JOINT_ORDER|
    ensures JOINT_ORDER[k] < 17 && peaks == c.allPeaks[JOINT_ORDER[k]]
  {
    OrderHasNoRepeats(k);
    c.allPeaks[JOINT_ORDER[k]]
  }

  /** The numbers of peaks, joint by joint in the order they are taken. */
  ghost predicate HasCounts(c: Setting, counts: seq<nat>) {
    c.Valid() && |counts| == |JOINT_ORDER| && forall k :: 0 <= k < |counts| ==> |PeaksAt(c, k)| == counts[k]
  }

  function PeaksBefore(counts: seq<nat>, k: nat): (sum: nat)
    requires k <= |counts|
  {
    if k == 0 then 0 else PeaksBefore(counts, k - 1) + counts[k - 1]
  }

  /** A joint that fits: all peaks so far stay within the limit or, once that many have been seen,
      there is at most one more. */
  predicate JointFits(counts: seq<nat>, k: nat, max: nat)
    requires k < |counts|
  {
    var before := PeaksBefore(counts, k);
    counts[k] == 0 || (if before == 0 || before < max then before + counts[k] <= max else counts[k] <= 1 <= max)
  }

  /** The first joint seen has exactly as many peaks as poses are allowed. */
  predicate FillsAtOnce(counts: seq<nat>, max: nat) {
    exists k :: 0 <= k < |counts| && PeaksBefore(counts, k) == 0 && counts[k] == max > 0
  }

  predicate Fits(counts: seq<nat>, max: nat) {
    FillsAtOnce(counts, max) || forall k :: 0 <= k < |counts| ==> JointFits(counts, k, max)
  }

  lemma {:induction false} SumGrows(counts: seq<nat>, k: nat, j: nat)
    requires k <= j <= |counts|
    ensures PeaksBefore(counts, k) <= PeaksBefore(counts, j)
    decreases j
  {
    if k < j { SumGrows(counts, k, j - 1); }
  }

  lemma OneJoint(c: Setting, counts: seq<nat>, states: seq<Homes>, k: nat)
    requires HasCounts(c, counts) && IsGrouping(c, states) && k < |states| - 1
    ensures JOINT_ORDER[k] < 17 && |c.allPeaks[JOINT_ORDER[k]]| == counts[k]
    ensures JointStep(c, JOINT_ORDER[k], states[k], states[k + 1])
  {
    assert |PeaksAt(c, k)| == counts[k];
    assert StepAt(c, states, k);
  }

  lemma CountsAfter(c: Setting, counts: seq<nat>, states: seq<Homes>, k: nat)
    requires HasCounts(c, counts) && IsGrouping(c, states) && k < |states| - 1
    ensures |states[k]| <= |states[k + 1]| <= |states[k]| + counts[k]
    ensures states[k] == [] ==> |states[k + 1]| == counts[k]
    ensures states[k] != [] && (counts[k] == 0 || |states[k]| == c.maxNumPeople) ==> states[k + 1] == states[k]
  {
    OneJoint(c, counts, states, k);
    StepCounts(c, JOINT_ORDER[k], states[k], states[k + 1]);
  }

  /** There are never more poses than peaks of the joints taken. */
  lemma {:induction false} HomesWithinPeaks(c: Setting, counts: seq<nat>, states: seq<Homes>, k: nat)
    requires HasCounts(c, counts) && IsGrouping(c, states) && k < |states|
    ensures |states[k]| <= PeaksBefore(counts, k)
  {
    if k > 0 {
      HomesWithinPeaks(c, counts, states, k - 1);
      CountsAfter(c, counts, states, k - 1);
    }
  }

  lemma {:induction false} FilledStaysFull(c: Setting, counts: seq<nat>, states: seq<Homes>, f: nat, k: nat)
    requires HasCounts(c, counts) && IsGrouping(c, states) && f < k < |states|
    requires PeaksBefore(counts, f) == 0 && counts[f] == c.maxNumPeople > 0
    ensures |states[k]| == c.maxNumPeople
  {
    CountsAfter(c, counts, states, k - 1);
    if k == f + 1 {
      HomesWithinPeaks(c, counts, states, f);
    } else {
      FilledStaysFull(c, counts, states, f, k - 1);
    }
  }

  lemma {:induction false} FittingIsBounded(c: Setting, counts: seq<nat>, states: seq<Homes>, k: nat)
    requires HasCounts(c, counts) && IsGrouping(c, states) && k < |states| && Fits(counts, c.maxNumPeople)
    ensures |states[k]| <= c.maxNumPeople
  {
    HomesWithinPeaks(c, counts, states, k);
    if FillsAtOnce(counts, c.maxNumPeople) {
      var f :| 0 <= f < |counts| && PeaksBefore(counts, f) == 0 && counts[f] == c.maxNumPeople > 0;
      if f < k { FilledStaysFull(c, counts, states, f, k); } else { SumGrows(counts, k, f); }
    } else if k > 0 {
      FittingIsBounded(c, counts, states, k - 1);
      HomesWithinPeaks(c, counts, states, k - 1);
      CountsAfter(c, counts, states, k - 1);
      assert JointFits(counts, k - 1, c.maxNumPeople);
    }
  }

  /** A frame whose peaks number at most `maxNumPeople` never has more poses than that. */
  lemma FewPeaksFewPoses(c: Setting, counts: seq<nat>, states: seq<Homes>, k: nat)
    requires HasCounts(c, counts) && IsGrouping(c, states) && k < |states|
    requires PeaksBefore(counts, |counts|) <= c.maxNumPeople
    ensures |states[k]| <= c.maxNumPeople
  {
    HomesWithinPeaks(c, counts, states, k);
    SumGrows(counts, k, |counts|);
  }

  // ---------------------------------------------------------------------------
  // Peaks that go past the bound when the counts do not fit
  // ---------------------------------------------------------------------------

  const POSITION: seq<nat> := [0, 1, 2, 3, 4, 5, 6, 9, 10, 11, 12, 7, 8, 13, 14, 15, 16]

  /** Positions are those of the order. */
  lemma PositionInOrder(k: nat)
    requires k < |JOINT_ORDER|
    ensures JOINT_ORDER[k] < 17 && POSITION[JOINT_ORDER[k]] == k
  {
  }

  /** Whether one peak of a joint is to be matched: it would else fill the poses before joint `last`. */
  predicate Kept(counts: seq<nat>, max: nat, last: nat, k: nat)
    requires k < |counts|
  {
    k < last && PeaksBefore(counts, k + 1) >= max
  }

  /** The tags: 0 for the first poses and for a peak to be matched with them, else one of its own a joint. */
  function TagAt(counts: seq<nat>, max: nat, last: nat, k: nat, r: nat): real
    requires k < |counts|
  {
    if PeaksBefore(counts, k) == 0 || (r == 0 && Kept(counts, max, last, k)) then 0.0 else k as real
  }

  function TaggedPeaks(counts: seq<nat>, max: nat, last: nat, k: nat): (peaks: seq<Peak>)
    requires k < |counts|
    ensures |peaks| == counts[k]
    ensures forall r :: 0 <= r < |peaks| ==>
              peaks[r] == Peak(Vec(r as real, 0.0), 1.0, TagAt(counts, max, last, k, r))
  {
    seq(counts[k], r requires 0 <= r < counts[k] => Peak(Vec(r as real, 0.0), 1.0, TagAt(counts, max, last, k, r)))
  }

  ghost function Crowd(sqrt: real -> real, counts: seq<nat>, max: nat, last: nat): (c: Setting)
    requires |counts| == |JOINT_ORDER| && forall x :: sqrt(x) >= 0.0
    ensures c.sqrt == sqrt && c.maxNumPeople == max && c.tagThreshold == 1.0 && HasCounts(c, counts)
    ensures forall k :: 0 <= k < |counts| ==> PeaksAt(c, k) == TaggedPeaks(counts, max, last, k)
  {
    var allPeaks := seq(17, j requires 0 <= j < 17 => TaggedPeaks(counts, max, last, POSITION[j]));
    var c := Setting(sqrt, allPeaks, max, 1.0);
    assert forall k :: 0 <= k < |counts| ==> PeaksAt(c, k) == TaggedPeaks(counts, max, last, k) by {
      forall k | 0 <= k < |counts| ensures PeaksAt(c, k) == TaggedPeaks(counts, max, last, k) {
        PositionInOrder(k);
      }
    }
    c
  }

  /** Every peak of a home has this tag. */
  ghost predicate TagIs(home: seq<Slot>, allPeaks: seq<seq<Peak>>, tag: real) {
    home != [] && forall a :: 0 <= a < |home| ==> PeakAt(home[a], allPeaks).peak.tag == tag
  }

  lemma {:induction false} SameTagsSum(m: seq<Entry>, tag: real)
    requires forall a :: 0 <= a < |m| ==> m[a].peak.tag == tag
    ensures SumTags(m) == |m| as real * tag
  {
    if m != [] { SameTagsSum(m[..|m| - 1], tag); }
  }

  lemma MeanTag(homes: Homes, allPeaks: seq<seq<Peak>>, p: nat, tag: real)
    requires p < |homes| && TagIs(homes[p], allPeaks, tag)
    ensures TagsOf(homes, allPeaks)[p] == tag
  {
    var m := Entries(homes[p], allPeaks);
    SameTagsSum(m, tag);
    MeanOfSame(SumTags(m), |homes[p]|, |homes[p]| as real, tag);
  }

  lemma MeanOfSame(sum: real, count: nat, n: real, tag: real)
    requires count > 0 && n == count as real && sum == n * tag
    ensures Mean(sum, count) == tag
  {
    var q := Mean(sum, count);
    assert q * n == sum;
    assert (q - tag) * n == 0.0;
  }

  /** A tag of the first poses, or of a joint before the k-th. */
  predicate EarlierTag(tag: real, k: nat) {
    tag == 0.0 || 1.0 <= tag <= k as real - 1.0
  }

  /** All tags in one home are equal, and 0 in the first. */
  ghost predicate WellTagged(homes: Homes, allPeaks: seq<seq<Peak>>, k: nat) {
    && (homes != [] ==> TagIs(homes[0], allPeaks, 0.0))
    && forall p :: 0 <= p < |homes| ==> exists tag :: EarlierTag(tag, k) && TagIs(homes[p], allPeaks, tag)
  }

  lemma MeansOfTagged(homes: Homes, allPeaks: seq<seq<Peak>>, k: nat)
    requires WellTagged(homes, allPeaks, k)
    ensures homes != [] ==> TagsOf(homes, allPeaks)[0] == 0.0
    ensures forall p :: 0 <= p < |homes| ==>
              EarlierTag(TagsOf(homes, allPeaks)[p], k) && TagIs(homes[p], allPeaks, TagsOf(homes, allPeaks)[p])
  {
    if homes != [] { MeanTag(homes, allPeaks, 0, 0.0); }
    forall p | 0 <= p < |homes|
      ensures EarlierTag(TagsOf(homes, allPeaks)[p], k) && TagIs(homes[p], allPeaks, TagsOf(homes, allPeaks)[p])
    {
      var tag :| EarlierTag(tag, k) && TagIs(homes[p], allPeaks, tag);
      MeanTag(homes, allPeaks, p, tag);
    }
  }

  /** Where the k-th joint sends its peaks: one with tag 0 to a home with tag 0, every other to a new one. */
  ghost predicate SortsByTag(before: Homes, allPeaks: seq<seq<Peak>>, joint: nat, target: seq<int>, k: nat)
    requires joint < |allPeaks|
  {
    && |target| == |allPeaks[joint]| && InRange(target, |before|) && Injective(target)
    && (before == [] ==> forall r :: 0 <= r < |target| ==> allPeaks[joint][r].tag == 0.0)
    && (forall r :: 0 <= r < |target| && target[r] >= 0 ==>
         allPeaks[joint][r].tag == 0.0 && TagIs(before[target[r]], allPeaks, 0.0))
    && (forall r :: 0 <= r < |target| && target[r] < 0 ==> EarlierTag(allPeaks[joint][r].tag, k + 1))
  }

  lemma PlacedTagged(before: Homes, allPeaks: seq<seq<Peak>>, joint: nat, target: seq<int>, k: nat)
    requires joint < |allPeaks| && WellTagged(before, allPeaks, k) && SortsByTag(before, allPeaks, joint, target, k)
    ensures WellTagged(Placed(before, joint, target, |target|), allPeaks, k + 1)
  {
    var after := Placed(before, joint, target, |target|);
    PlacedKeeps(before, joint, target, |target|);
    assert target[..|target|] == target;
    forall p | 0 <= p < |after|
      ensures exists tag :: (p == 0 ==> tag == 0.0) && EarlierTag(tag, k + 1) && TagIs(after[p], allPeaks, tag)
    {
      if p >= |before| {
        PlacedOpens(before, joint, target, |target|, p);
        var r :| 0 <= r < |target| && target[r] < 0 && after[p] == [Slot(joint, r)];
        assert TagIs(after[p], allPeaks, allPeaks[joint][r].tag);
      } else if p in target {
        var r :| 0 <= r < |target| && target[r] == p;
        assert TagIs(after[p], allPeaks, 0.0);
      } else {
        var tag :| (p == 0 ==> tag == 0.0) && EarlierTag(tag, k) && TagIs(before[p], allPeaks, tag);
        assert EarlierTag(tag, k + 1) && TagIs(after[p], allPeaks, tag);
      }
    }
  }

  // ---------------------------------------------------------------------------
  // How such peaks are paired
  // ---------------------------------------------------------------------------

  /** A peak with no pose near its tag is matched with none. */
  lemma FarIsUnmatched(sqrt: real -> real, peaks: seq<Peak>, tags: seq<real>, centers: seq<Vec>, target: seq<int>,
                       r: nat)
    requires CostsDefined(sqrt, peaks, tags, centers) && Paired(sqrt, peaks, tags, centers, 1.0, target)
    requires r < |peaks| && forall p :: 0 <= p < |tags| ==> TagDiff(peaks[r], tags[p]) >= 1.0
    ensures |target| == |peaks| && target[r] == -1
  {
  }

  lemma FloorGrows(x: real, y: real)
    requires x <= y
    ensures x.Floor <= y.Floor
  {
  }

  lemma RoundGrows(x: real, y: real)
    requires 0.0 <= x <= y
    ensures Round(x) <= Round(y) && (x >= 1.0 ==> Round(x) >= 1.0)
  {
    FloorGrows(x + 0.5, y + 0.5);
    if x >= 1.0 { FloorGrows(1.5, x + 0.5); }
  }

  /** The first peak of a joint has tag 0 when it is to be kept, every other the tag `k`. */
  ghost predicate TaggedAs(peaks: seq<Peak>, k: nat, kept: bool) {
    forall r :: 0 <= r < |peaks| ==> peaks[r].score == 1.0 && peaks[r].tag == if r == 0 && kept then 0.0 else k as real
  }

  ghost predicate EarlierTags(tags: seq<real>, k: nat) {
    k >= 1 && tags != [] && tags[0] == 0.0 && forall p :: 0 <= p < |tags| ==> EarlierTag(tags[p], k)
  }

  /** What a peak with tag 0 costs in column `j`, and what one with tag `k` does. */
  function NearCost(tags: seq<real>, j: nat): real {
    if j >= |tags| then BORDER else if tags[j] < 1.0 then -1.0 else Round(tags[j]) * 100.0 - 1.0
  }

  function FarCost(tags: seq<real>, k: nat, j: nat): real {
    if j >= |tags| then BORDER else Round(k as real - tags[j]) * 100.0 - 1.0
  }

  /** Distances do not matter: a difference below the threshold is 0, and no other is scaled. */
  lemma TagDecidesCost(sqrt: real -> real, peaks: seq<Peak>, tags: seq<real>, centers: seq<Vec>, k: nat, i: nat, j: nat)
    requires CostsDefined(sqrt, peaks, tags, centers) && i < |peaks| && j < |tags|
    requires EarlierTags(tags, k) && TaggedAs(peaks, k, true)
    ensures CostOf(sqrt, peaks, tags, centers, 1.0, i, j) == if i == 0 then NearCost(tags, j) else FarCost(tags, k, j)
  {
    NearestNonNegative(sqrt, peaks, centers[j]);
    var diff := TagDiff(peaks[i], tags[j]);
    ScaledCost(diff, Distance(sqrt, peaks[i].keypoint, centers[j]), Nearest(sqrt, peaks, centers[j]));
  }

  lemma ScaledCost(diff: real, dist: real, minDist: real)
    requires minDist >= 0.0 && (diff == 0.0 || diff >= 1.0)
    ensures PairCost(1.0, diff, dist, minDist, 1.0) == Round(diff) * 100.0 - 1.0 && Round(0.0) == 0.0
  {
    assert 0.0 * (dist / (minDist + 0.0000000001)) == 0.0;
  }

  lemma NearIsCheapest(tags: seq<real>, k: nat, j: nat)
    requires EarlierTags(tags, k)
    requires || NearCost(tags, j) <= NearCost(tags, 0)
             || NearCost(tags, j) + FarCost(tags, k, 0) <= NearCost(tags, 0) + FarCost(tags, k, j)
    ensures j < |tags| && tags[j] == 0.0
  {
    RoundGrows(1.0, k as real);
    if j < |tags| && tags[j] != 0.0 {
      RoundGrows(tags[j], tags[j]);
      RoundGrows(k as real - tags[j], k as real);
    }
  }

  lemma NearGetsColumn(m: Matrix, res: seq<int>, n: nat, cols: nat, tags: seq<real>, k: nat)
    requires 0 < n <= cols && |tags| <= cols && Rectangular(m, n, cols) && Optimal(m, res, n, cols)
    requires EarlierTags(tags, k)
    requires forall i, j :: 0 <= i < n && 0 <= j < cols ==>
               m[i][j] == if i == 0 then NearCost(tags, j) else FarCost(tags, k, j)
    ensures 0 <= res[0] < |tags| && tags[res[0]] == 0.0
  {
    NoCheaperExchange(m, res, n, cols, 0, 0);
    if 0 in res {
      var i :| 0 <= i < n && res[i] == 0;
    }
    NearIsCheapest(tags, k, res[0]);
  }

  /** A peak with tag 0 before peaks that all have tag `k` is matched with a pose of tag 0. */
  lemma NearIsMatched(sqrt: real -> real, peaks: seq<Peak>, tags: seq<real>, centers: seq<Vec>, target: seq<int>,
                      k: nat)
    requires CostsDefined(sqrt, peaks, tags, centers) && Paired(sqrt, peaks, tags, centers, 1.0, target)
    requires EarlierTags(tags, k) && TaggedAs(peaks, k, true)
    ensures |target| == |peaks| && 0 <= target[0] < |tags| && tags[target[0]] == 0.0
  {
    var cols := if |peaks| > |tags| then |peaks| else |tags|;
    var m: Matrix, res: seq<int> :|
      && CostMatrix(sqrt, peaks, tags, centers, 1.0, m) && Optimal(m, res, |peaks|, cols)
      && target == Targets(res, TagDiffs(peaks, tags), |tags|, 1.0);
    forall i, j | 0 <= i < |peaks| && 0 <= j < cols
      ensures m[i][j] == if i == 0 then NearCost(tags, j) else FarCost(tags, k, j)
    {
      if j < |tags| { TagDecidesCost(sqrt, peaks, tags, centers, k, i, j); }
    }
    NearGetsColumn(m, res, |peaks|, cols, tags, k);
  }

  // ---------------------------------------------------------------------------
  // The run over such peaks
  // ---------------------------------------------------------------------------

  lemma TaggedTargets(sqrt: real -> real, peaks: seq<Peak>, tags: seq<real>, centers: seq<Vec>, target: seq<int>,
                      k: nat, kept: bool)
    requires CostsDefined(sqrt, peaks, tags, centers) && Paired(sqrt, peaks, tags, centers, 1.0, target)
    requires EarlierTags(tags, k) && TaggedAs(peaks, k, kept)
    ensures |target| == |peaks| && forall r :: (if kept then 1 else 0) <= r < |target| ==> target[r] == -1
    ensures kept ==> 0 <= target[0] < |tags| && tags[target[0]] == 0.0
  {
    if kept { NearIsMatched(sqrt, peaks, tags, centers, target, k); }
    forall r | (if kept then 1 else 0) <= r < |peaks| ensures |target| == |peaks| && target[r] == -1 {
      FarIsUnmatched(sqrt, peaks, tags, centers, target, r);
    }
  }

  /** Peaks tagged so open a pose each, but for a first one that is kept. */
  lemma TaggedStep(c: Setting, joint: nat, k: nat, kept: bool, before: Homes, after: Homes)
    requires c.Valid() && joint < 17 && c.tagThreshold == 1.0 && c.allPeaks[joint] != [] && k >= 1
    requires JointStep(c, joint, before, after) && WellTagged(before, c.allPeaks, k)
    requires TaggedAs(c.allPeaks[joint], k, kept) && before != [] && |before| != c.maxNumPeople
    ensures WellTagged(after, c.allPeaks, k + 1)
    ensures |after| == |before| + |c.allPeaks[joint]| - if kept then 1 else 0
  {
    var tags, centers := TagsOf(before, c.allPeaks), CentersOf(before, c.allPeaks);
    MeansOfTagged(before, c.allPeaks, k);
    var target :| Matched(c, joint, before, target, after);
    TaggedTargets(c.sqrt, c.allPeaks[joint], tags, centers, target, k, kept);
    PlacedCount(before, joint, target, |target|);
    TaggedSorts(before, c.allPeaks, joint, target, k, kept);
    PlacedTagged(before, c.allPeaks, joint, target, k);
  }

  lemma TaggedSorts(before: Homes, allPeaks: seq<seq<Peak>>, joint: nat, target: seq<int>, k: nat, kept: bool)
    requires joint < |allPeaks| && |target| == |allPeaks[joint]| && target != [] && before != [] && k >= 1
    requires InRange(target, |before|) && Injective(target) && TaggedAs(allPeaks[joint], k, kept)
    requires forall r :: (if kept then 1 else 0) <= r < |target| ==> target[r] == -1
    requires kept ==> target[0] >= 0 && TagIs(before[target[0]], allPeaks, 0.0)
    ensures SortsByTag(before, allPeaks, joint, target, k)
  {
  }

  /** The first joint with peaks opens poses of tag 0. */
  lemma FirstStep(c: Setting, joint: nat, k: nat, after: Homes)
    requires c.Valid() && joint < 17 && JointStep(c, joint, [], after)
    requires forall r :: 0 <= r < |c.allPeaks[joint]| ==> c.allPeaks[joint][r].tag == 0.0
    ensures WellTagged(after, c.allPeaks, k + 1) && |after| == |c.allPeaks[joint]|
  {
    var n := |c.allPeaks[joint]|;
    PlacedCount([], joint, seq(n, _ => -1), n);
    PlacedTagged([], c.allPeaks, joint, seq(n, _ => -1), k);
  }

  lemma TaggedLater(homes: Homes, allPeaks: seq<seq<Peak>>, k: nat)
    requires WellTagged(homes, allPeaks, k)
    ensures WellTagged(homes, allPeaks, k + 1)
  {
    forall p | 0 <= p < |homes| ensures exists tag :: EarlierTag(tag, k + 1) && TagIs(homes[p], allPeaks, tag) {
      var tag :| EarlierTag(tag, k) && TagIs(homes[p], allPeaks, tag);
      assert EarlierTag(tag, k + 1);
    }
  }

  /** As long as the joints fit, the poses stay one short of the limit once as many peaks were seen. */
  ghost predicate OneShort(counts: seq<nat>, max: nat, k: nat, count: nat)
    requires k <= |counts|
  {
    var before := PeaksBefore(counts, k);
    count == (if before == 0 || before < max then before else max - 1) && (before > 0 ==> count > 0)
  }

  /** One joint of the crowd with peaks. */
  lemma CrowdStep(sqrt: real -> real, counts: seq<nat>, max: nat, last: nat, states: seq<Homes>, k: nat)
    requires forall x :: sqrt(x) >= 0.0
    requires |counts| == |JOINT_ORDER| && k < |counts| && k + 1 < |states| && counts[k] > 0
    requires IsGrouping(Crowd(sqrt, counts, max, last), states)
    requires WellTagged(states[k], Crowd(sqrt, counts, max, last).allPeaks, k)
    requires if PeaksBefore(counts, k) == 0 then states[k] == [] else states[k] != [] && |states[k]| != max
    ensures WellTagged(states[k + 1], Crowd(sqrt, counts, max, last).allPeaks, k + 1)
    ensures |states[k + 1]| == |states[k]| + counts[k]
              - if PeaksBefore(counts, k) > 0 && Kept(counts, max, last, k) then 1 else 0
  {
    var c := Crowd(sqrt, counts, max, last);
    OneJoint(c, counts, states, k);
    assert PeaksAt(c, k) == TaggedPeaks(counts, max, last, k);
    if PeaksBefore(counts, k) == 0 {
      FirstStep(c, JOINT_ORDER[k], k, states[k + 1]);
    } else {
      TaggedStep(c, JOINT_ORDER[k], k, Kept(counts, max, last, k), states[k], states[k + 1]);
    }
  }

  lemma {:induction false} CrowdRun(sqrt: real -> real, counts: seq<nat>, max: nat, last: nat, states: seq<Homes>,
                                    k: nat)
    requires forall x :: sqrt(x) >= 0.0
    requires |counts| == |JOINT_ORDER| && k <= last < |counts| && k < |states|
    requires IsGrouping(Crowd(sqrt, counts, max, last), states)
    requires !FillsAtOnce(counts, max) && forall i :: 0 <= i < last ==> JointFits(counts, i, max)
    ensures WellTagged(states[k], Crowd(sqrt, counts, max, last).allPeaks, k)
    ensures OneShort(counts, max, k, |states[k]|)
  {
    if k > 0 {
      var c, i := Crowd(sqrt, counts, max, last), k - 1;
      CrowdRun(sqrt, counts, max, last, states, i);
      assert JointFits(counts, i, max);
      if counts[i] == 0 {
        CountsAfter(c, counts, states, i);
        TaggedLater(states[i], c.allPeaks, i);
      } else {
        CrowdStep(sqrt, counts, max, last, states, i);
      }
    }
  }

  lemma GoesPast(counts: seq<nat>, max: nat, last: nat, count: nat)
    requires last < |counts| && OneShort(counts, max, last, count) && !JointFits(counts, last, max)
    ensures !Kept(counts, max, last, last) && counts[last] > 0 && count + counts[last] > max
  {
  }

  /** The first joint that does not fit takes every run over the crowd past the limit. */
  lemma CrowdOverflows(sqrt: real -> real, counts: seq<nat>, max: nat, last: nat, states: seq<Homes>)
    requires forall x :: sqrt(x) >= 0.0
    requires |counts| == |JOINT_ORDER| && last < |counts| && last + 1 < |states|
    requires IsGrouping(Crowd(sqrt, counts, max, last), states)
    requires !FillsAtOnce(counts, max) && forall i :: 0 <= i < last ==> JointFits(counts, i, max)
    requires !JointFits(counts, last, max)
    ensures |states[last + 1]| > max
  {
    CrowdRun(sqrt, counts, max, last, states, last);
    GoesPast(counts, max, last, |states[last]|);
    CrowdStep(sqrt, counts, max, last, states, last);
  }

  lemma {:induction false} FirstMisfit(counts: seq<nat>, max: nat, k: nat) returns (first: nat)
    requires k < |counts| && !JointFits(counts, k, max)
    ensures first < |counts| && !JointFits(counts, first, max)
    ensures forall i :: 0 <= i < first ==> JointFits(counts, i, max)
  {
    if j :| 0 <= j < k && !JointFits(counts, j, max) {
      first := FirstMisfit(counts, max, j);
    } else {
      first := k;
    }
  }

  /** When the counts do not fit, some frame with these counts ends with too many poses in every run. */
  lemma MisfitOverflows(sqrt: real -> real, counts: seq<nat>, max: nat) returns (c: Setting)
    requires |counts| == |JOINT_ORDER| && !Fits(counts, max) && forall x :: sqrt(x) >= 0.0
    ensures HasCounts(c, counts) && c.maxNumPeople == max && c.sqrt == sqrt && c.tagThreshold == 1.0
    ensures forall states :: IsGrouping(c, states) && |states| == |JOINT_ORDER| + 1 ==>
              |states[|JOINT_ORDER|]| > max
  {
    var k :| 0 <= k < |counts| && !JointFits(counts, k, max);
    var last := FirstMisfit(counts, max, k);
    c := Crowd(sqrt, counts, max, last);
    forall states | IsGrouping(c, states) && |states| == |JOINT_ORDER| + 1
      ensures |states[|JOINT_ORDER|]| > max
    {
      CrowdOverflows(sqrt, counts, max, last, states);
      HomesOnlyGrow(c, states, last + 1, |JOINT_ORDER|);
    }
  }

  /** `maxNumPeople` bounds the poses of every frame with these numbers of peaks exactly when the
      numbers fit. */
  lemma BoundedIffFits(sqrt: real -> real, counts: seq<nat>, max: nat)
    requires |counts| == |JOINT_ORDER| && forall x :: sqrt(x) >= 0.0
    ensures Fits(counts, max) <==>
            forall c, states ::
              HasCounts(c, counts) && c.sqrt == sqrt && c.maxNumPeople == max && IsGrouping(c, states) ==>
                |states[|states| - 1]| <= max
  {
    if Fits(counts, max) {
      forall c, states | HasCounts(c, counts) && c.sqrt == sqrt && c.maxNumPeople == max && IsGrouping(c, states)
        ensures |states[|states| - 1]| <= max
      {
        FittingIsBounded(c, counts, states, |states| - 1);
      }
    } else {
      var c := MisfitOverflows(sqrt, counts, max);
      var states := RunExists(c, |JOINT_ORDER|);
    }
  }

  /** A frame that ends with three poses though two are allowed: one peak of the first joint and two
      of the second, with tags too far from its tag to be matched. */
  ghost function Three(sqrt: real -> real): (c: Setting)
    requires forall x :: sqrt(x) >= 0.0
    ensures c.Valid()
  {
    var first := [Peak(Vec(0.0, 0.0), 1.0, 0.0)];
    var second := [Peak(Vec(0.0, 1.0), 1.0, 5.0), Peak(Vec(1.0, 1.0), 1.0, 9.0)];
    Setting(sqrt, [first, second] + seq(15, _ => []), 2, 1.0)
  }

  lemma ThreePosesForTwo(sqrt: real -> real, states: seq<Homes>)
    requires forall x :: sqrt(x) >= 0.0
    requires IsGrouping(Three(sqrt), states) && |states| > 2
    ensures |states[|states| - 1]| > Three(sqrt).maxNumPeople == 2
  {
    var c := Three(sqrt);
    assert StepAt(c, states, 0);
    assert StepAt(c, states, 1);
    FirstStep(c, 0, 0, states[1]);
    TwoMoreOpen(sqrt, states[1], states[2]);
    HomesOnlyGrow(c, states, 2, |states| - 1);
  }

  lemma TwoMoreOpen(sqrt: real -> real, before: Homes, after: Homes)
    requires forall x :: sqrt(x) >= 0.0
    requires JointStep(Three(sqrt), 1, before, after)
    requires |before| == 1 && WellTagged(before, Three(sqrt).allPeaks, 1)
    ensures |after| == 3
  {
    var c := Three(sqrt);
    var tags, centers := TagsOf(before, c.allPeaks), CentersOf(before, c.allPeaks);
    MeansOfTagged(before, c.allPeaks, 1);
    var target :| Matched(c, 1, before, target, after);
    forall r | 0 <= r < 2 ensures |target| == 2 && target[r] == -1 {
      FarIsUnmatched(sqrt, c.allPeaks[1], tags, centers, target, r);
    }
    PlacedCount(before, 1, target, 2);
  }
}
