/** Grouping joint by joint: what the whole loop over the joints does. */
module PoseGrouping {
  import opened Assignment
  import opened PoseMatching

  type Homes = seq<seq<Slot>>

  const JOINT_ORDER: seq<nat> := [0, 1, 2, 3, 4, 5, 6, 11, 12, 7, 8, 9, 10, 13, 14, 15, 16]

  /** Every joint comes once in the order. */
  lemma OrderHasNoRepeats(k: nat)
    requires k < |JOINT_ORDER|
    ensures JOINT_ORDER[k] < 17 && JOINT_ORDER[k] !in JOINT_ORDER[..k]
  {
  }

  // ---------------------------------------------------------------------------
  // One joint
  // ---------------------------------------------------------------------------

  /** The parameters of a run. */
  datatype Setting = Setting(sqrt: real -> real, allPeaks: seq<seq<Peak>>, maxNumPeople: nat, tagThreshold: real) {
    ghost predicate Valid() {
      |allPeaks| >= 17 && forall x :: sqrt(x) >= 0.0
    }
  }

  /** Every peak opens a home. */
  ghost function Opened(joint: nat, count: nat): Homes {
    Placed([], joint, seq(count, _ => -1), count)
  }

  /** A joint is passed over when the poses already number exactly `maxNumPeople`. */
  predicate PassedOver(count: nat, maxNumPeople: nat) {
    count > 0 && count == maxNumPeople
  }

  /** The peaks of a joint go where a pairing of least cost with the mean tags and centres
      of the homes sends them. */
  ghost predicate Matched(c: Setting, joint: nat, before: Homes, target: seq<int>, after: Homes)
    requires c.Valid() && joint < 17 && c.allPeaks[joint] != []
  {
    && |target| == |c.allPeaks[joint]| && InRange(target, |before|) && Injective(target)
    && Paired(c.sqrt, c.allPeaks[joint], TagsOf(before, c.allPeaks),
              CentersOf(before, c.allPeaks), c.tagThreshold, target)
    && after == Placed(before, joint, target, |target|)
  }

  /** What one joint does to the homes: opens them, is skipped, or is matched with them. */
  ghost predicate JointStep(c: Setting, joint: nat, before: Homes, after: Homes)
    requires c.Valid() && joint < 17
  {
    var peaks := c.allPeaks[joint];
    if before == [] then after == Opened(joint, |peaks|)
    else if peaks == [] || |before| == c.maxNumPeople then after == before
    else exists target :: Matched(c, joint, before, target, after)
  }

  /** The homes after each joint of the order. */
  ghost predicate IsGrouping(c: Setting, states: seq<Homes>)
    requires c.Valid()
  {
    && 1 <= |states| <= |JOINT_ORDER| + 1 && states[0] == []
    && forall k :: 0 <= k < |states| - 1 ==> StepAt(c, states, k)
  }

  ghost predicate StepAt(c: Setting, states: seq<Homes>, k: nat)
    requires c.Valid() && k + 1 < |states| <= |JOINT_ORDER| + 1
  {
    OrderedStep(c, k, states[k], states[k + 1])
  }

  ghost predicate OrderedStep(c: Setting, k: nat, before: Homes, after: Homes)
    requires c.Valid() && k < |JOINT_ORDER|
  {
    OrderHasNoRepeats(k);
    JointStep(c, JOINT_ORDER[k], before, after)
  }

  // ---------------------------------------------------------------------------
  // What a step does to one home
  // ---------------------------------------------------------------------------

  /** A home of the state before is kept or gets one peak of the joint; a new one holds one. */
  ghost predicate GrowsAt(joint: nat, before: Homes, after: Homes, p: nat)
    requires p < |after|
  {
    if p < |before| then after[p] == before[p] || exists r: nat :: after[p] == before[p] + [Slot(joint, r)]
    else exists r: nat :: after[p] == [Slot(joint, r)]
  }

  lemma PlacedGrows(joint: nat, before: Homes, target: seq<int>, p: nat)
    requires InRange(target, |before|) && Injective(target) && p < |Placed(before, joint, target, |target|)|
    ensures GrowsAt(joint, before, Placed(before, joint, target, |target|), p)
  {
    PlacedKeeps(before, joint, target, |target|);
    assert target[..|target|] == target;
    if p < |before| {
      if p in target {
        var r :| 0 <= r < |target| && target[r] == p;
      }
    } else {
      PlacedOpens(before, joint, target, |target|, p);
    }
  }

  lemma StepGrows(c: Setting, joint: nat, before: Homes, after: Homes)
    requires c.Valid() && joint < 17 && JointStep(c, joint, before, after)
    ensures |before| <= |after| && forall p :: 0 <= p < |after| ==> GrowsAt(joint, before, after, p)
  {
    forall p | 0 <= p < |after| ensures |before| <= |after| && GrowsAt(joint, before, after, p) {
      var peaks := c.allPeaks[joint];
      if before == [] {
        PlacedGrows(joint, before, seq(|peaks|, _ => -1), p);
      } else if peaks != [] && |before| != c.maxNumPeople {
        var target :| Matched(c, joint, before, target, after);
        PlacedGrows(joint, before, target, p);
      }
    }
  }

  // ---------------------------------------------------------------------------
  // What the final homes tell
  // ---------------------------------------------------------------------------

  ghost predicate HoldsJointOf(home: seq<Slot>, joints: seq<nat>) {
    exists a :: 0 <= a < |home| && home[a].joint in joints
  }

  /** A home that holds something, and peaks of these joints only. */
  ghost predicate HoldsOnly(home: seq<Slot>, joints: seq<nat>) {
    home != [] && forall a :: 0 <= a < |home| ==> home[a].joint in joints
  }

  lemma HoldsOnlyGrows(joint: nat, before: Homes, after: Homes, p: nat, joints: seq<nat>)
    requires p < |after| && GrowsAt(joint, before, after, p)
    requires p < |before| ==> HoldsOnly(before[p], joints)
    ensures HoldsOnly(after[p], joints + [joint])
  {
    assert joint in joints + [joint];
  }

  /** Homes hold peaks of the joints already taken only, and at least one. */
  lemma {:induction false} HomesHoldEarlier(c: Setting, states: seq<Homes>, k: nat, p: nat)
    requires c.Valid() && IsGrouping(c, states) && k < |states| && p < |states[k]|
    ensures HoldsOnly(states[k][p], JOINT_ORDER[..k])
  {
    if k > 0 {
      var joint := JOINT_ORDER[k - 1];
      OrderHasNoRepeats(k - 1);
      assert StepAt(c, states, k - 1);
      StepGrows(c, joint, states[k - 1], states[k]);
      if p < |states[k - 1]| {
        HomesHoldEarlier(c, states, k - 1, p);
      }
      HoldsOnlyGrows(joint, states[k - 1], states[k], p, JOINT_ORDER[..k - 1]);
      assert JOINT_ORDER[..k] == JOINT_ORDER[..k - 1] + [joint];
    }
  }

  lemma NotAmongEarlier(k: nat, j: nat)
    requires k <= j < |JOINT_ORDER|
    ensures JOINT_ORDER[j] !in JOINT_ORDER[..k]
  {
    OrderHasNoRepeats(j);
    assert forall i :: 0 <= i < k ==> JOINT_ORDER[..k][i] == JOINT_ORDER[..j][i];
  }

  /** The number of homes before a joint is read off the homes at any later time: it is the
      number of those that hold a peak of an earlier joint, and they come first. */
  lemma {:induction false} EarlierHomesCount(c: Setting, states: seq<Homes>, k: nat, j: nat, p: nat)
    requires c.Valid() && IsGrouping(c, states) && k <= j < |states| && p < |states[j]|
    ensures |states[k]| <= |states[j]|
    ensures p < |states[k]| <==> HoldsJointOf(states[j][p], JOINT_ORDER[..k])
    decreases j
  {
    if k == j {
      HomesHoldEarlier(c, states, k, p);
      assert states[k][p][0].joint in JOINT_ORDER[..k];
    } else {
      HomesOnlyGrow(c, states, k, j - 1);
      if p < |states[j - 1]| { EarlierHomesCount(c, states, k, j - 1, p); }
      HeldBeforeStep(c, states, k, j - 1, p);
    }
  }

  lemma HeldBeforeStep(c: Setting, states: seq<Homes>, k: nat, j: nat, p: nat)
    requires c.Valid() && IsGrouping(c, states) && k <= j < |states| - 1 && p < |states[j + 1]|
    ensures |states[j]| <= |states[j + 1]|
    ensures HoldsJointOf(states[j + 1][p], JOINT_ORDER[..k]) <==>
            p < |states[j]| && HoldsJointOf(states[j][p], JOINT_ORDER[..k])
  {
    OrderHasNoRepeats(j);
    NotAmongEarlier(k, j);
    assert StepAt(c, states, j);
    StepGrows(c, JOINT_ORDER[j], states[j], states[j + 1]);
    HoldsAfterStep(states[j], states[j + 1], JOINT_ORDER[j], JOINT_ORDER[..k], p);
  }

  /** A step does not change whether a home holds a peak of joints taken before, and no new one does. */
  lemma HoldsAfterStep(before: Homes, after: Homes, joint: nat, joints: seq<nat>, p: nat)
    requires p < |after| && GrowsAt(joint, before, after, p) && joint !in joints
    ensures HoldsJointOf(after[p], joints) <==> p < |before| && HoldsJointOf(before[p], joints)
  {
    if p < |before| {
      HoldsUnlessLast(before[p], after[p], joint, joints);
    } else {
      var r: nat :| after[p] == [Slot(joint, r)];
      assert after[p] == [] + [Slot(joint, r)];
      HoldsUnlessLast([], after[p], joint, joints);
    }
  }

  lemma HoldsUnlessLast(home: seq<Slot>, home': seq<Slot>, joint: nat, joints: seq<nat>)
    requires home' == home || exists r: nat :: home' == home + [Slot(joint, r)]
    requires joint !in joints
    ensures HoldsJointOf(home, joints) <==> HoldsJointOf(home', joints)
  {
    if HoldsJointOf(home, joints) {
      var a :| 0 <= a < |home| && home[a].joint in joints;
      assert home'[a] == home[a];
    }
  }

  lemma {:induction false} HomesOnlyGrow(c: Setting, states: seq<Homes>, k: nat, j: nat)
    requires c.Valid() && IsGrouping(c, states) && k <= j < |states|
    ensures |states[k]| <= |states[j]|
    decreases j
  {
    if k < j {
      HomesOnlyGrow(c, states, k, j - 1);
      OrderHasNoRepeats(j - 1);
      assert StepAt(c, states, j - 1);
      StepGrows(c, JOINT_ORDER[j - 1], states[j - 1], states[j]);
    }
  }

  // ---------------------------------------------------------------------------
  // Where every peak ends up
  // ---------------------------------------------------------------------------

  /** The joints among the first `|counts|` of the order that were not passed over, given
      the number of poses before each. */
  ghost function Considered(counts: seq<nat>, maxNumPeople: nat): (d: set<nat>)
    requires |counts| <= |JOINT_ORDER|
    ensures forall j :: j in d ==> j < 17 && j in JOINT_ORDER[..|counts|]
  {
    if counts == [] then {}
    else
      var k := |counts| - 1;
      Considered(counts[..k], maxNumPeople) + if PassedOver(counts[k], maxNumPeople) then {} else {JOINT_ORDER[k]}
  }

  /** The numbers of homes before each of the first `n` joints. */
  ghost function Counts(states: seq<Homes>, n: nat): (counts: seq<nat>)
    requires n <= |states|
    ensures |counts| == n
  {
    seq(n, k requires 0 <= k < n => |states[k]|)
  }

  /** Every peak of a joint in `done` is in exactly one home, no other peak is, and no home
      has two peaks of one joint. */
  ghost predicate SortedOver(homes: Homes, allPeaks: seq<seq<Peak>>, done: set<nat>)
    requires forall j :: j in done ==> j < |allPeaks|
  {
    && OneJointEach(homes) && NonEmptyHomes(homes)
    && forall s: Slot :: Housed(homes)[s] == if s.joint in done && s.index < |allPeaks[s.joint]| then 1 else 0
  }

  ghost predicate Sorted(homes: Homes, allPeaks: seq<seq<Peak>>, counts: seq<nat>, maxNumPeople: nat)
    requires |allPeaks| >= 17 && |counts| <= |JOINT_ORDER|
  {
    SortedOver(homes, allPeaks, Considered(counts, maxNumPeople))
  }

  lemma PlacedSorted(homes: Homes, allPeaks: seq<seq<Peak>>, done: set<nat>, joint: nat, target: seq<int>)
    requires joint < |allPeaks| && joint !in done && forall j :: j in done ==> j < |allPeaks|
    requires SortedOver(homes, allPeaks, done)
    requires |target| == |allPeaks[joint]| && InRange(target, |homes|) && Injective(target)
    ensures SortedOver(Placed(homes, joint, target, |target|), allPeaks, done + {joint})
  {
    PlacedIsGood(homes, allPeaks, done, joint, target);
    assert GoodHomes(Placed(homes, joint, target, |target|), allPeaks, done + {joint}, joint, 0);
  }

  lemma ConsideredNext(counts: seq<nat>, count: nat, maxNumPeople: nat)
    requires |counts| < |JOINT_ORDER|
    ensures Considered(counts + [count], maxNumPeople)
         == Considered(counts, maxNumPeople) + if PassedOver(count, maxNumPeople) then {} else {JOINT_ORDER[|counts|]}
  {
    assert (counts + [count])[..|counts|] == counts;
  }

  lemma NextJointSorted(homes: Homes, allPeaks: seq<seq<Peak>>, counts: seq<nat>, maxNumPeople: nat, target: seq<int>)
    requires |allPeaks| >= 17 && |counts| < |JOINT_ORDER|
    requires Sorted(homes, allPeaks, counts, maxNumPeople)
    requires !PassedOver(|homes|, maxNumPeople)
    requires JOINT_ORDER[|counts|] < 17
    requires |target| == |allPeaks[JOINT_ORDER[|counts|]]| && InRange(target, |homes|) && Injective(target)
    ensures Sorted(Placed(homes, JOINT_ORDER[|counts|], target, |target|), allPeaks, counts + [|homes|], maxNumPeople)
  {
    OrderHasNoRepeats(|counts|);
    ConsideredNext(counts, |homes|, maxNumPeople);
    PlacedSorted(homes, allPeaks, Considered(counts, maxNumPeople), JOINT_ORDER[|counts|], target);
  }

  lemma SkippedJointSorted(homes: Homes, allPeaks: seq<seq<Peak>>, counts: seq<nat>, maxNumPeople: nat)
    requires |allPeaks| >= 17 && |counts| < |JOINT_ORDER|
    requires Sorted(homes, allPeaks, counts, maxNumPeople)
    requires JOINT_ORDER[|counts|] < 17
    requires PassedOver(|homes|, maxNumPeople) || allPeaks[JOINT_ORDER[|counts|]] == []
    ensures Sorted(homes, allPeaks, counts + [|homes|], maxNumPeople)
  {
    assert (counts + [|homes|])[..|counts|] == counts;
  }

  lemma StepSorted(c: Setting, before: Homes, after: Homes, counts: seq<nat>)
    requires c.Valid() && |counts| < |JOINT_ORDER| && OrderedStep(c, |counts|, before, after)
    requires Sorted(before, c.allPeaks, counts, c.maxNumPeople)
    ensures Sorted(after, c.allPeaks, counts + [|before|], c.maxNumPeople)
  {
    var joint := JOINT_ORDER[|counts|];
    OrderHasNoRepeats(|counts|);
    var peaks := c.allPeaks[joint];
    if before == [] {
      NextJointSorted(before, c.allPeaks, counts, c.maxNumPeople, seq(|peaks|, _ => -1));
    } else if peaks == [] || |before| == c.maxNumPeople {
      SkippedJointSorted(before, c.allPeaks, counts, c.maxNumPeople);
    } else {
      var target :| Matched(c, joint, before, target, after);
      NextJointSorted(before, c.allPeaks, counts, c.maxNumPeople, target);
    }
  }

  /** After any number of joints every peak of the joints not passed over is housed once. */
  lemma {:induction false} GroupingIsSorted(c: Setting, states: seq<Homes>, k: nat)
    requires c.Valid() && IsGrouping(c, states) && k < |states|
    ensures Sorted(states[k], c.allPeaks, Counts(states, k), c.maxNumPeople)
  {
    if k > 0 {
      GroupingIsSorted(c, states, k - 1);
      assert StepAt(c, states, k - 1);
      StepSorted(c, states[k - 1], states[k], Counts(states, k - 1));
      CountsNext(states, k - 1);
    }
  }

  lemma {:induction false} ConsideredIff(counts: seq<nat>, maxNumPeople: nat, k: nat)
    requires k < |counts| <= |JOINT_ORDER|
    ensures JOINT_ORDER[k] in Considered(counts, maxNumPeople) <==> !(counts[k] == maxNumPeople > 0)
  {
    var last := |counts| - 1;
    NotAmongEarlier(last, last);
    if k < last {
      ConsideredIff(counts[..last], maxNumPeople, k);
      OrderDiffers(k, last);
    }
  }

  lemma OrderDiffers(k: nat, j: nat)
    requires k < j < |JOINT_ORDER|
    ensures JOINT_ORDER[k] != JOINT_ORDER[j]
  {
    NotAmongEarlier(j, j);
    assert JOINT_ORDER[..j][k] == JOINT_ORDER[k];
  }

  /** A peak is in no pose when there were exactly `maxNumPeople` of them before its joint, and in one
      otherwise, also when there were more. */
  lemma HousedUnlessFull(c: Setting, states: seq<Homes>, k: nat, j: nat, r: nat)
    requires c.Valid() && IsGrouping(c, states) && k < j < |states|
    requires JOINT_ORDER[k] < 17 && r < |c.allPeaks[JOINT_ORDER[k]]|
    ensures Housed(states[j])[Slot(JOINT_ORDER[k], r)] == if |states[k]| == c.maxNumPeople > 0 then 0 else 1
  {
    GroupingIsSorted(c, states, j);
    ConsideredIff(Counts(states, j), c.maxNumPeople, k);
  }

  lemma CountsNext(states: seq<Homes>, n: nat)
    requires n < |states|
    ensures Counts(states, n + 1) == Counts(states, n) + [|states[n]|]
  {
  }

  // ---------------------------------------------------------------------------
  // The loop
  // ---------------------------------------------------------------------------

  /** One joint of the order. */
  method NextJoint(c: Setting, allPoses: seq<Pose>, numJoints: nat, ghost homes: Homes, jointId: nat)
    returns (poses: seq<Pose>, ghost homes': Homes)
    requires c.Valid() && numJoints >= 17 && jointId < 17
    requires Tracks(allPoses, homes, c.allPeaks, numJoints)
    modifies allPoses
    ensures Tracks(poses, homes', c.allPeaks, numJoints) && JointStep(c, jointId, homes, homes')
    ensures Extends(allPoses, poses) && fresh(Added(allPoses, poses))
  {
    var jointPeaks := c.allPeaks[jointId];
    if |allPoses| == 0 {
      poses := OpenAll(jointId, jointPeaks, numJoints, c.allPeaks);
      homes' := Opened(jointId, |jointPeaks|);
    } else if jointPeaks == [] || |allPoses| == c.maxNumPeople {
      poses, homes' := allPoses, homes;
    } else {
      ghost var tags, centers, target;
      poses, tags, centers, target :=
        MatchJoint(c.sqrt, allPoses, jointId, jointPeaks, numJoints, c.tagThreshold, homes, c.allPeaks);
      homes' := Placed(homes, jointId, target, |target|);
      assert Matched(c, jointId, homes, target, homes');
    }
  }

  /** Groups the peaks of all joints into poses. */
  method MatchByTag(c: Setting, numJoints: nat) returns (allPoses: seq<Pose>, ghost states: seq<Homes>)
    requires c.Valid() && numJoints >= 17
    ensures IsGrouping(c, states) && |states| == |JOINT_ORDER| + 1
    ensures Tracks(allPoses, states[|JOINT_ORDER|], c.allPeaks, numJoints)
    ensures Sorted(states[|JOINT_ORDER|], c.allPeaks, Counts(states, |JOINT_ORDER|), c.maxNumPeople)
    ensures forall p :: 0 <= p < |allPoses| ==> fresh(allPoses[p])
  {
    allPoses, states := [], [[]];
    for k := 0 to |JOINT_ORDER|
      invariant |states| == k + 1 && IsGrouping(c, states)
      invariant Tracks(allPoses, states[k], c.allPeaks, numJoints)
      invariant forall p :: 0 <= p < |allPoses| ==> fresh(allPoses[p])
    {
      OrderHasNoRepeats(k);
      ghost var before, homes := allPoses, states[k];
      allPoses, homes := NextJoint(c, allPoses, numJoints, homes, JOINT_ORDER[k]);
      assert forall p :: |before| <= p < |allPoses| ==> allPoses[p] in Added(before, allPoses);
      GroupingGrows(c, states, homes);
      states := states + [homes];
    }
    GroupingIsSorted(c, states, |JOINT_ORDER|);
  }

  lemma GroupingGrows(c: Setting, states: seq<Homes>, homes: Homes)
    requires c.Valid() && IsGrouping(c, states) && |states| <= |JOINT_ORDER|
    requires OrderedStep(c, |states| - 1, states[|states| - 1], homes)
    ensures IsGrouping(c, states + [homes])
  {
    var longer := states + [homes];
    forall k | 0 <= k < |longer| - 1 ensures StepAt(c, longer, k) {
      if k < |states| - 1 {
        assert StepAt(c, states, k);
      }
    }
  }

  /** What the result means for one pose: as many filled slots as its count, at least one,
      each holding the detected peak of its joint, and no other slot filled. */
  lemma PoseIsExact(c: Setting, states: seq<Homes>, allPoses: seq<Pose>, numJoints: nat, p: nat)
    requires c.Valid() && IsGrouping(c, states) && |states| == |JOINT_ORDER| + 1
    requires Tracks(allPoses, states[|JOINT_ORDER|], c.allPeaks, numJoints) && p < |allPoses|
    ensures 1 <= allPoses[p].validPointsNum == |set e | e in allPoses[p].members :: e.joint|
    ensures forall e :: e in allPoses[p].members ==>
              e.joint < |allPoses[p].peaks| && allPoses[p].peaks[e.joint] == e.peak
    ensures forall j :: 0 <= j < |allPoses[p].peaks| && allPoses[p].peaks[j] != NO_PEAK ==>
              exists e :: e in allPoses[p].members && e.joint == j
    ensures var home: seq<Slot> := states[|JOINT_ORDER|][p];
            forall a :: 0 <= a < |home| ==>
              && home[a].joint in Considered(Counts(states, |JOINT_ORDER|), c.maxNumPeople)
              && home[a].index < |c.allPeaks[home[a].joint]|
              && allPoses[p].members[a].peak == c.allPeaks[home[a].joint][home[a].index]
  {
    var homes: Homes := states[|JOINT_ORDER|];
    GroupingIsSorted(c, states, |JOINT_ORDER|);
    SlotsHoldEntries(allPoses[p].members, numJoints);
    forall a | 0 <= a < |homes[p]|
      ensures homes[p][a].joint in Considered(Counts(states, |JOINT_ORDER|), c.maxNumPeople)
      ensures homes[p][a].index < |c.allPeaks[homes[p][a].joint]|
    {
      HousedContains(homes, p, homes[p][a]);
    }
  }
}
