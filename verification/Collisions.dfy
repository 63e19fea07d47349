/** Two independent collision counts over one file's frames, and when they agree. */
module Collisions {
  import opened Sorting
  import opened FrameModels
  import opened LogicalKeys
  import Topology
  import opened TimestampGroups
  import opened FrameBuilder
  import opened ReplayDetector
  import opened ReplayLaws
  import opened Departures
  import opened Diagnostics
  import opened Reconstruction

  lemma {:induction false} FramesFollowVerdicts(g: TimestampGroup, basis: Topology.Basis, fs: seq<ClassifiedFrame>)
    requires AllListed(fs)
    ensures forall i :: 0 <= i < |fs| ==>
              ToFrames(g, basis, fs)[i].key == g.key && ToFrames(g, basis, fs)[i].classification == fs[i].classification
  {
    hide Listed, Sort, Unrepeated, RowsInOrder;
    if fs != [] {
      FramesFollowVerdicts(g, basis, fs[..|fs| - 1]);
    }
  }

  /** The first frame of a group, and no other, is UNIQUE. */
  lemma GroupFrames(g: TimestampGroup, basis: Topology.Basis, policy: Policy)
    ensures forall i :: 0 <= i < |FramesOf(g, basis, policy)| ==>
              && FramesOf(g, basis, policy)[i].key == g.key
              && (FramesOf(g, basis, policy)[i].classification == UNIQUE <==> i == 0)
    ensures FramesOf(g, basis, policy) != [] ==> g.rows != []
  {
    hide Listed, AllListed, SliceCandidates, OverflowCandidate, DescribeOccupancy, ToFrames, Classify, InSequenceOrder;
    var fs := Classified(g, policy.severeBelowPct, policy.maxFrames);
    CandidatesListed(g, policy.severeBelowPct, policy.maxFrames);
    UniqueIsFirst(Candidates(g, policy.severeBelowPct, policy.maxFrames));
    ClassifiedListed(g, policy.severeBelowPct, policy.maxFrames);
    FramesFollowVerdicts(g, basis, fs);
  }

  ghost predicate LedByUnique(frames: seq<ReconstructedFrame>, j: nat)
    requires j < |frames|
  {
    exists i :: 0 <= i <= j && frames[i].key == frames[j].key && frames[i].classification == UNIQUE
  }

  /** One UNIQUE frame per charger and timestamp, and it comes first. */
  ghost predicate OneUniquePerKey(frames: seq<ReconstructedFrame>) {
    && (forall i, j :: 0 <= i < j < |frames|
                       && frames[i].classification == UNIQUE && frames[j].classification == UNIQUE ==>
          frames[i].key != frames[j].key)
    && (forall j :: 0 <= j < |frames| ==> LedByUnique(frames, j))
  }

  lemma OneUniqueAppend(frames: seq<ReconstructedFrame>, more: seq<ReconstructedFrame>, key: GroupKey)
    requires OneUniquePerKey(frames)
    requires forall i :: 0 <= i < |frames| ==> frames[i].key != key
    requires forall i :: 0 <= i < |more| ==> more[i].key == key && (more[i].classification == UNIQUE <==> i == 0)
    ensures OneUniquePerKey(frames + more)
  {
    var all := frames + more;
    forall j | 0 <= j < |all|
      ensures LedByUnique(all, j)
    {
      if j < |frames| {
        assert LedByUnique(frames, j);
        var i :| 0 <= i <= j && frames[i].key == frames[j].key && frames[i].classification == UNIQUE;
        assert all[i] == frames[i] && all[j] == frames[j];
      } else {
        assert all[|frames|] == more[0] && all[j] == more[j - |frames|];
      }
    }
  }

  ghost predicate KeyedBy(frames: seq<ReconstructedFrame>, groups: seq<TimestampGroup>) {
    forall i :: 0 <= i < |frames| ==> HasRowsAt(groups, frames[i].key)
  }

  ghost predicate HasRowsAt(groups: seq<TimestampGroup>, key: GroupKey) {
    exists j :: 0 <= j < |groups| && groups[j].key == key && groups[j].rows != []
  }

  lemma {:induction false} AllFramesKeyed(groups: seq<TimestampGroup>, basis: Topology.Basis, policy: Policy)
    requires forall i, j :: 0 <= i < j < |groups| ==> groups[i].key != groups[j].key
    ensures OneUniquePerKey(AllFrames(groups, basis, policy))
    ensures KeyedBy(AllFrames(groups, basis, policy), groups)
  {
    hide FramesOf, OneUniquePerKey;
    if groups == [] {
      NoFrames();
    } else {
      var init, last := groups[..|groups| - 1], groups[|groups| - 1];
      AllFramesKeyed(init, basis, policy);
      GroupFrames(last, basis, policy);
      var frames, more := AllFrames(init, basis, policy), FramesOf(last, basis, policy);
      forall i | 0 <= i < |frames|
        ensures frames[i].key != last.key && HasRowsAt(groups, frames[i].key)
      {
        assert HasRowsAt(init, frames[i].key);
        var j :| 0 <= j < |init| && init[j].key == frames[i].key && init[j].rows != [];
        assert groups[j] == init[j];
      }
      OneUniqueAppend(frames, more, last.key);
    }
  }

  lemma NoFrames()
    ensures OneUniquePerKey([])
  {
  }

  // ----- comparing the counts

  /** Wherever two chargers report at one timestamp, some frame there is distinct. */
  ghost predicate SharedTimesHaveDistinct(frames: seq<ReconstructedFrame>) {
    forall i, j :: 0 <= i < |frames| && 0 <= j < |frames|
                   && frames[i].key.time == frames[j].key.time && frames[i].key.charger != frames[j].key.charger ==>
                     frames[i].key.time in DistinctTimes(frames)
  }

  lemma TwoAt(frames: seq<ReconstructedFrame>, i: nat, j: nat)
    requires i < |frames| && j < |frames| && i != j
    requires IsCanonical(frames[i].classification) && IsCanonical(frames[j].classification)
    requires frames[i].key.time == frames[j].key.time
    ensures frames[i].key.time in CollisionTimes(frames)
  {
    var t := frames[i].key.time;
    var a, b := if i < j then i else j, if i < j then j else i;
    assert 0 <= a < b < |frames| && frames[a].key.time == t && frames[b].key.time == t;
    assert TwoCanonical(frames, t);
    TwoSeen(frames, t);
    CollisionTimesAre(frames, t);
  }

  lemma DistinctCollides(frames: seq<ReconstructedFrame>)
    requires OneUniquePerKey(frames)
    ensures DistinctTimes(frames) <= CollisionTimes(frames)
  {
    hide CollisionTimes;
    forall t | t in DistinctTimes(frames)
      ensures t in CollisionTimes(frames)
    {
      var j :| 0 <= j < |frames| && frames[j].classification == SAME_TIMESTAMP_DISTINCT_FRAME
               && frames[j].key.time == t;
      assert LedByUnique(frames, j);
      var i :| 0 <= i <= j && frames[i].key == frames[j].key && frames[i].classification == UNIQUE;
      TwoAt(frames, i, j);
    }
  }

  lemma SharedCollides(frames: seq<ReconstructedFrame>, i: nat, j: nat)
    requires OneUniquePerKey(frames)
    requires i < |frames| && j < |frames|
    requires frames[i].key.time == frames[j].key.time && frames[i].key.charger != frames[j].key.charger
    ensures frames[i].key.time in CollisionTimes(frames)
  {
    hide CollisionTimes;
    assert LedByUnique(frames, i) && LedByUnique(frames, j);
    var a :| 0 <= a <= i && frames[a].key == frames[i].key && frames[a].classification == UNIQUE;
    var b :| 0 <= b <= j && frames[b].key == frames[j].key && frames[b].classification == UNIQUE;
    TwoAt(frames, a, b);
  }

  lemma CollisionWithoutDistinct(frames: seq<ReconstructedFrame>, t: int)
    requires OneUniquePerKey(frames)
    requires t in CollisionTimes(frames) && t !in DistinctTimes(frames)
    ensures !SharedTimesHaveDistinct(frames)
  {
    CollisionTimesAre(frames, t);
    TwoSeen(frames, t);
    var i, j :| 0 <= i < j < |frames|
                && IsCanonical(frames[i].classification) && frames[i].key.time == t
                && IsCanonical(frames[j].classification) && frames[j].key.time == t;
    assert frames[i].classification == UNIQUE && frames[j].classification == UNIQUE;
    assert frames[i].key.charger != frames[j].key.charger;
  }

  lemma CountsAgreeIffShared(groups: seq<TimestampGroup>, basis: Topology.Basis, policy: Policy)
    requires forall i, j :: 0 <= i < j < |groups| ==> groups[i].key != groups[j].key
    ensures var frames := AllFrames(groups, basis, policy);
            && |DistinctTimes(frames)| <= |CollisionTimes(frames)|
            && (|DistinctTimes(frames)| == |CollisionTimes(frames)| <==> SharedTimesHaveDistinct(frames))
  {
    hide AllFrames, CollisionTimes, DistinctTimes, OneUniquePerKey;
    var frames := AllFrames(groups, basis, policy);
    AllFramesKeyed(groups, basis, policy);
    DistinctCollides(frames);
    var d, c := DistinctTimes(frames), CollisionTimes(frames);
    assert c == d + (c - d);
    assert |c| == |d| + |c - d|;
    if SharedTimesHaveDistinct(frames) {
      forall t | t in c
        ensures t in d
      {
        if t !in d {
          CollisionWithoutDistinct(frames, t);
        }
      }
      assert c - d == {};
    }
    if |d| == |c| {
      assert c - d == {};
      forall i, j | 0 <= i < |frames| && 0 <= j < |frames|
                    && frames[i].key.time == frames[j].key.time && frames[i].key.charger != frames[j].key.charger
        ensures frames[i].key.time in d
      {
        SharedCollides(frames, i, j);
        assert frames[i].key.time !in c - d;
      }
    }
  }

  // ----- the same condition, read off the groups

  ghost predicate DepartsAtTime(groups: seq<TimestampGroup>, maxFrames: int, t: int) {
    exists k :: 0 <= k < |groups| && groups[k].key.time == t && Departs(groups[k], maxFrames)
  }

  /** Wherever two chargers hold rows at one time, some group of that time departs from
      its first rows. */
  ghost predicate SharedTimesDepart(groups: seq<TimestampGroup>, maxFrames: int) {
    forall i, j :: 0 <= i < |groups| && 0 <= j < |groups|
                   && groups[i].rows != [] && groups[j].rows != []
                   && groups[i].key.time == groups[j].key.time && groups[i].key.charger != groups[j].key.charger ==>
                     DepartsAtTime(groups, maxFrames, groups[i].key.time)
  }

  lemma DistinctTimesConcat(a: seq<ReconstructedFrame>, b: seq<ReconstructedFrame>, t: int)
    ensures t in DistinctTimes(a + b) <==> t in DistinctTimes(a) || t in DistinctTimes(b)
  {
    var all := a + b;
    if t in DistinctTimes(a) {
      var i :| 0 <= i < |a| && a[i].classification == SAME_TIMESTAMP_DISTINCT_FRAME && a[i].key.time == t;
      assert all[i] == a[i];
    }
    if t in DistinctTimes(b) {
      var i :| 0 <= i < |b| && b[i].classification == SAME_TIMESTAMP_DISTINCT_FRAME && b[i].key.time == t;
      assert all[|a| + i] == b[i];
    }
    if t in DistinctTimes(all) {
      var i :| 0 <= i < |all| && all[i].classification == SAME_TIMESTAMP_DISTINCT_FRAME && all[i].key.time == t;
      assert i < |a| ==> all[i] == a[i];
      assert i >= |a| ==> all[i] == b[i - |a|];
    }
  }

  lemma GroupDistinctTimes(g: TimestampGroup, basis: Topology.Basis, policy: Policy, t: int)
    requires WellFormedGroup(g)
    ensures t in DistinctTimes(FramesOf(g, basis, policy)) <==> g.key.time == t && Departs(g, policy.maxFrames)
  {
    hide WellFormedGroup, Departs, Classified, ToFrames, AllListed;
    var fs := Classified(g, policy.severeBelowPct, policy.maxFrames);
    ClassifiedListed(g, policy.severeBelowPct, policy.maxFrames);
    DistinctFrameIff(g, policy.severeBelowPct, policy.maxFrames);
    FramesFollowVerdicts(g, basis, fs);
    var frames := ToFrames(g, basis, fs);
    if Departs(g, policy.maxFrames) && g.key.time == t {
      var k: nat :| DistinctAt(fs, k);
      assert frames[k].classification == SAME_TIMESTAMP_DISTINCT_FRAME && frames[k].key.time == t;
    }
    if t in DistinctTimes(frames) {
      var i :| 0 <= i < |frames| && frames[i].classification == SAME_TIMESTAMP_DISTINCT_FRAME
               && frames[i].key.time == t;
      assert DistinctAt(fs, i);
    }
  }

  lemma {:induction false} AllDistinctTimes(groups: seq<TimestampGroup>, basis: Topology.Basis, policy: Policy, t: int)
    requires forall i :: 0 <= i < |groups| ==> WellFormedGroup(groups[i])
    ensures t in DistinctTimes(AllFrames(groups, basis, policy)) <==> DepartsAtTime(groups, policy.maxFrames, t)
  {
    hide WellFormedGroup, Departs, FramesOf, DistinctTimes;
    if groups == [] {
      NoDistinctTimes(t);
    } else {
      var init, last := groups[..|groups| - 1], groups[|groups| - 1];
      AllDistinctTimes(init, basis, policy, t);
      GroupDistinctTimes(last, basis, policy, t);
      DistinctTimesConcat(AllFrames(init, basis, policy), FramesOf(last, basis, policy), t);
      DepartsOneMore(init, last, policy.maxFrames, t);
      assert groups == init + [last];
    }
  }

  lemma NoDistinctTimes(t: int)
    ensures t !in DistinctTimes([])
  {
  }

  lemma DepartsOneMore(init: seq<TimestampGroup>, last: TimestampGroup, maxFrames: int, t: int)
    ensures DepartsAtTime(init + [last], maxFrames, t)
            <==> DepartsAtTime(init, maxFrames, t) || (last.key.time == t && Departs(last, maxFrames))
  {
    hide Departs;
    var groups := init + [last];
    if DepartsAtTime(init, maxFrames, t) {
      var k :| 0 <= k < |init| && init[k].key.time == t && Departs(init[k], maxFrames);
      assert groups[k] == init[k];
    }
    assert groups[|init|] == last;
    if DepartsAtTime(groups, maxFrames, t) {
      var k :| 0 <= k < |groups| && groups[k].key.time == t && Departs(groups[k], maxFrames);
      assert k < |init| ==> init[k] == groups[k];
    }
  }

  ghost predicate HasFrameAt(frames: seq<ReconstructedFrame>, key: GroupKey) {
    exists i :: 0 <= i < |frames| && frames[i].key == key
  }

  lemma HasFrameConcat(a: seq<ReconstructedFrame>, b: seq<ReconstructedFrame>, key: GroupKey)
    ensures HasFrameAt(a, key) || HasFrameAt(b, key) ==> HasFrameAt(a + b, key)
  {
    var all := a + b;
    if HasFrameAt(a, key) {
      var i :| 0 <= i < |a| && a[i].key == key;
      assert all[i] == a[i];
    }
    if HasFrameAt(b, key) {
      var i :| 0 <= i < |b| && b[i].key == key;
      assert all[|a| + i] == b[i];
    }
  }

  lemma GroupHasFrame(g: TimestampGroup, basis: Topology.Basis, policy: Policy)
    ensures g.rows != [] ==> HasFrameAt(FramesOf(g, basis, policy), g.key)
  {
    hide Classified, ToFrames, AllListed, SliceCandidates, OverflowCandidate, DescribeOccupancy;
    GroupFrames(g, basis, policy);
    ClassifiedListed(g, policy.severeBelowPct, policy.maxFrames);
    CountPositive(g);
    SliceCount(g, policy.severeBelowPct, DescribeOccupancy(g).ImpliedFrameCount());
    assert g.rows != [] ==> |FramesOf(g, basis, policy)| > 0;
    assert g.rows != [] ==> FramesOf(g, basis, policy)[0].key == g.key;
  }

  lemma {:induction false} RowsHaveFrames(groups: seq<TimestampGroup>, basis: Topology.Basis, policy: Policy, j: nat)
    requires j < |groups| && groups[j].rows != []
    ensures HasFrameAt(AllFrames(groups, basis, policy), groups[j].key)
  {
    hide FramesOf, HasFrameAt;
    var init, last := groups[..|groups| - 1], groups[|groups| - 1];
    HasFrameConcat(AllFrames(init, basis, policy), FramesOf(last, basis, policy), groups[j].key);
    if j == |groups| - 1 {
      GroupHasFrame(last, basis, policy);
    } else {
      RowsHaveFrames(init, basis, policy, j);
    }
  }

  lemma SharedIffShared(groups: seq<TimestampGroup>, basis: Topology.Basis, policy: Policy)
    requires forall i, j :: 0 <= i < j < |groups| ==> groups[i].key != groups[j].key
    requires forall i :: 0 <= i < |groups| ==> WellFormedGroup(groups[i])
    ensures SharedTimesHaveDistinct(AllFrames(groups, basis, policy)) <==> SharedTimesDepart(groups, policy.maxFrames)
  {
    hide WellFormedGroup, AllFrames, DistinctTimes, DepartsAtTime, OneUniquePerKey;
    var frames := AllFrames(groups, basis, policy);
    AllFramesKeyed(groups, basis, policy);
    forall t
      ensures t in DistinctTimes(frames) <==> DepartsAtTime(groups, policy.maxFrames, t)
    {
      AllDistinctTimes(groups, basis, policy, t);
    }
    if SharedTimesDepart(groups, policy.maxFrames) {
      forall i, j | 0 <= i < |frames| && 0 <= j < |frames|
                    && frames[i].key.time == frames[j].key.time && frames[i].key.charger != frames[j].key.charger
        ensures frames[i].key.time in DistinctTimes(frames)
      {
        assert HasRowsAt(groups, frames[i].key) && HasRowsAt(groups, frames[j].key);
      }
    }
    if SharedTimesHaveDistinct(frames) {
      forall i, j | 0 <= i < |groups| && 0 <= j < |groups|
                    && groups[i].rows != [] && groups[j].rows != []
                    && groups[i].key.time == groups[j].key.time && groups[i].key.charger != groups[j].key.charger
        ensures DepartsAtTime(groups, policy.maxFrames, groups[i].key.time)
      {
        RowsHaveFrames(groups, basis, policy, i);
        RowsHaveFrames(groups, basis, policy, j);
        var a :| 0 <= a < |frames| && frames[a].key == groups[i].key;
        var b :| 0 <= b < |frames| && frames[b].key == groups[j].key;
        assert frames[a].key.time in DistinctTimes(frames);
      }
    }
  }

  /** The metric never exceeds the list, and they agree exactly when every time at which
      two chargers hold rows also has a group that departs from its first rows. */
  lemma CollisionCountsAgree(groups: seq<TimestampGroup>, basis: Topology.Basis, policy: Policy)
    requires forall i, j :: 0 <= i < j < |groups| ==> groups[i].key != groups[j].key
    requires forall i :: 0 <= i < |groups| ==> WellFormedGroup(groups[i])
    ensures var frames := AllFrames(groups, basis, policy);
            && |DistinctTimes(frames)| <= |CollisionTimes(frames)|
            && (|DistinctTimes(frames)| == |CollisionTimes(frames)| <==> SharedTimesDepart(groups, policy.maxFrames))
  {
    hide *;
    CountsAgreeIffShared(groups, basis, policy);
    SharedIffShared(groups, basis, policy);
  }

  // ----- two chargers, one row each, at one time

  function LoneRow(p: Position, d: Digest): seq<RawRow> {
    [RawRow(0, p, 0, d, false)]
  }

  function LoneGroup(charger: string, t: int, p: Position, d: Digest): TimestampGroup {
    TimestampGroup(GroupKey(charger, t), LoneRow(p, d), {p}, map[p := 1], [])
  }

  lemma LoneGroupWellFormed(charger: string, t: int, p: Position, d: Digest)
    ensures WellFormedGroup(LoneGroup(charger, t, p, d))
  {
    var rows := LoneRow(p, d);
    assert rows[..0] == [];
    assert rows == [] + [rows[0]];
    RowsAtAppend([], rows[0], p);
    PositiveCount([], p);
    assert rows[0] in rows;
    assert PositionsOf(rows) == {p};
    assert SourceIndexed(rows);
  }

  lemma LoneGroupNeverDeparts(charger: string, t: int, p: Position, d: Digest, maxFrames: int)
    ensures !Departs(LoneGroup(charger, t, p, d), maxFrames)
  {
    hide WellFormedGroup, DepartsAt, DescribeOccupancy;
    var g := LoneGroup(charger, t, p, d);
    LoneGroupWellFormed(charger, t, p, d);
    LoneCount(charger, t, p, d);
    forall k: nat
      ensures !DepartsAt(g, k)
    {
      DepartsOnlyWithin(g, k);
      NotAtFirst(g);
    }
  }

  lemma LoneCount(charger: string, t: int, p: Position, d: Digest)
    ensures DescribeOccupancy(LoneGroup(charger, t, p, d)).ImpliedFrameCount() == 1
  {
    var values := LoneGroup(charger, t, p, d).occurrences.Values;
    assert map[p := 1][p] in values;
    assert values == {1};
  }

  lemma NotAtFirst(g: TimestampGroup)
    ensures !DepartsAt(g, 0)
  {
    NeverDepartsFromItself(SlicePayload(g.rows, 0));
  }

  /** Two chargers that each report one row at the same time: the list counts a collision
      and the metric does not. */
  lemma TwoChargersDisagree(a: string, b: string, t: int, p: Position, d: Digest, basis: Topology.Basis, policy: Policy)
    requires a != b
    ensures var frames := AllFrames([LoneGroup(a, t, p, d), LoneGroup(b, t, p, d)], basis, policy);
            |DistinctTimes(frames)| < |CollisionTimes(frames)|
  {
    hide WellFormedGroup, Departs, AllFrames, DistinctTimes, CollisionTimes;
    var groups := [LoneGroup(a, t, p, d), LoneGroup(b, t, p, d)];
    LoneGroupWellFormed(a, t, p, d);
    LoneGroupWellFormed(b, t, p, d);
    LoneGroupNeverDeparts(a, t, p, d, policy.maxFrames);
    LoneGroupNeverDeparts(b, t, p, d, policy.maxFrames);
    assert groups[0].rows != [] && groups[1].rows != [];
    assert groups[0].key.time == groups[1].key.time && groups[0].key.charger != groups[1].key.charger;
    assert !DepartsAtTime(groups, policy.maxFrames, t);
    CollisionCountsAgree(groups, basis, policy);
  }

  /** In a file whose assigned rows name one charger, the two counts are the same. */
  lemma SingleChargerCountsAgree(
      src: Source, charger: string, expected: set<Position>, basis: Topology.Basis, policy: Policy)
    requires forall i :: 0 <= i < |src.rows| && Dispose(src, i).Assigned? ==> Dispose(src, i).key.charger == charger
    ensures var frames := AllFrames(FileGroups(src, expected), basis, policy);
            |DistinctTimes(frames)| == |CollisionTimes(frames)|
  {
    hide Dispose, AllFrames, CollisionTimes, DistinctTimes, SortedKeys, DatedKeys, AssignedRows, UnassignedRows;
    var groups := FileGroups(src, expected);
    var frames := AllFrames(groups, basis, policy);
    AllFramesKeyed(groups, basis, policy);
    forall i | 0 <= i < |frames|
      ensures frames[i].key.charger == charger
    {
      assert HasRowsAt(groups, frames[i].key);
      var j :| 0 <= j < |groups| && groups[j].key == frames[i].key && groups[j].rows != [];
      KeysOfRows(src, |src.rows|, frames[i].key);
    }
    CountsAgreeIffShared(groups, basis, policy);
  }
}
