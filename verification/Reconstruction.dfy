/** The whole pass over one file: key, resolve topology, group, slice, classify. */
module Reconstruction {
  import opened Sorting
  import opened FrameModels
  import opened CanonicalSerializer
  import opened LogicalKeys
  import Topology
  import opened TimestampGroups
  import opened FrameBuilder
  import opened ReplayDetector
  import opened ReplayLaws
  import opened Diagnostics

  datatype Outcome = Outcome(
    frames: seq<ReconstructedFrame>,
    topology: Topology.FrameTopology,
    metrics: FileMetrics,
    unassigned: seq<RawRow>)

  datatype Policy = Policy(topology: Topology.Settings, severeBelowPct: real, maxFrames: int)

  // ----- from verdict to frame

  predicate NumberLe(a: RawRow, b: RawRow) {
    a.number <= b.number
  }

  function RowsInOrder(order: seq<Position>, rows: map<Position, RawRow>): seq<RawRow>
    requires forall p :: p in order ==> p in rows
  {
    if order == [] then [] else RowsInOrder(order[..|order| - 1], rows) + [rows[order[|order| - 1]]]
  }

  function Unrepeated(issues: seq<Issue>): seq<Issue> {
    if issues == [] then []
    else
      var kept, last := Unrepeated(issues[..|issues| - 1]), issues[|issues| - 1];
      if last in kept then kept else kept + [last]
  }

  function DetailOf(g: TimestampGroup, basis: Topology.Basis, f: ClassifiedFrame): FrameDetail {
    var occupancy := DescribeOccupancy(g);
    FrameDetail(basis, occupancy.rawRowCount, occupancy.maxOccurrence, occupancy.isEven, f.differing, f.note)
  }

  function ToFrame(g: TimestampGroup, basis: Topology.Basis, f: ClassifiedFrame): ReconstructedFrame
    requires Listed(f.candidate)
  {
    var c := f.candidate;
    ListedRows(c);
    ReconstructedFrame(
      g.key, c.sequence, Sort(RowsInOrder(c.order, c.rowsByPosition), NumberLe),
      f.fingerprint, c.status, f.classification,
      |g.expected|, |c.rowsByPosition.Keys|, c.Missing(), c.Unexpected(), f.replayOf,
      Unrepeated(f.issues + if basis.UNRESOLVED? then [INCONSISTENT_TOPOLOGY] else []), DetailOf(g, basis, f))
  }

  lemma ListedRows(c: FrameCandidate)
    requires Listed(c)
    ensures forall p :: p in c.order ==> p in c.rowsByPosition
  {
    assert c.Payload().Keys == c.rowsByPosition.Keys;
  }

  ghost predicate AllListed(fs: seq<ClassifiedFrame>) {
    forall f :: f in fs ==> Listed(f.candidate)
  }

  function ToFrames(
      g: TimestampGroup, basis: Topology.Basis, fs: seq<ClassifiedFrame>): (frames: seq<ReconstructedFrame>)
    requires AllListed(fs)
    ensures |frames| == |fs|
  {
    if fs == [] then []
    else
      assert fs[|fs| - 1] in fs;
      ToFrames(g, basis, fs[..|fs| - 1]) + [ToFrame(g, basis, fs[|fs| - 1])]
  }

  lemma ClassifiedListed(g: TimestampGroup, pct: real, maxFrames: int)
    ensures AllListed(Classified(g, pct, maxFrames))
    ensures |Classified(g, pct, maxFrames)| == |Candidates(g, pct, maxFrames)|
    ensures forall i :: 0 <= i < |Classified(g, pct, maxFrames)| ==>
              Classified(g, pct, maxFrames)[i].candidate == Candidates(g, pct, maxFrames)[i]
  {
    hide Candidates, Listed, Classify, InSequenceOrder;
    CandidatesListed(g, pct, maxFrames);
    VerdictKeepsCandidate(Candidates(g, pct, maxFrames));
  }

  ghost function FramesOf(g: TimestampGroup, basis: Topology.Basis, policy: Policy): seq<ReconstructedFrame> {
    ClassifiedListed(g, policy.severeBelowPct, policy.maxFrames);
    ToFrames(g, basis, Classified(g, policy.severeBelowPct, policy.maxFrames))
  }

  ghost function AllFrames(
      groups: seq<TimestampGroup>, basis: Topology.Basis, policy: Policy): seq<ReconstructedFrame>
  {
    if groups == [] then []
    else AllFrames(groups[..|groups| - 1], basis, policy) + FramesOf(groups[|groups| - 1], basis, policy)
  }

  function RowsHeld(cs: seq<FrameCandidate>): nat {
    if cs == [] then 0 else RowsHeld(cs[..|cs| - 1]) + |cs[|cs| - 1].rowsByPosition.Keys|
  }

  ghost function RowsAssigned(groups: seq<TimestampGroup>, policy: Policy): nat {
    if groups == [] then 0
    else RowsAssigned(groups[..|groups| - 1], policy)
         + RowsHeld(Candidates(groups[|groups| - 1], policy.severeBelowPct, policy.maxFrames))
  }

  // ----- the groups of a file

  /** Groups that hold a dated row. */
  function DatedKeys(src: Source, n: nat): set<GroupKey>
    requires n <= |src.rows|
  {
    set i | 0 <= i < n && !Dispose(src, i).Undatable? :: Dispose(src, i).key
  }

  /** The timestamps with a dated row. */
  function DatedTimes(src: Source): set<int> {
    set key | key in DatedKeys(src, |src.rows|) :: key.time
  }

  lemma GroupTimes(src: Source, expected: set<Position>)
    ensures (set g | g in FileGroups(src, expected) :: g.key.time) == DatedTimes(src)
  {
    hide DatedKeys, AssignedRows, UnassignedRows;
    var keys, groups := SortedKeys(DatedKeys(src, |src.rows|)), FileGroups(src, expected);
    forall t | t in DatedTimes(src)
      ensures t in (set g | g in groups :: g.key.time)
    {
      var key :| key in keys && key.time == t;
      var i :| 0 <= i < |keys| && keys[i] == key;
      assert groups[i] in groups && groups[i].key == key;
    }
    forall g | g in groups
      ensures g.key.time in DatedTimes(src)
    {
      var i :| 0 <= i < |groups| && groups[i] == g;
      assert g.key == keys[i] && keys[i] in keys;
    }
  }

  ghost function FileGroup(src: Source, expected: set<Position>, key: GroupKey): TimestampGroup {
    var n := |src.rows|;
    GroupAt(key, AssignedRows(src, n, key), UnassignedRows(src, n, key), expected)
  }

  ghost function GroupsFor(src: Source, expected: set<Position>, keys: seq<GroupKey>): seq<TimestampGroup> {
    seq(|keys|, i requires 0 <= i < |keys| => FileGroup(src, expected, keys[i]))
  }

  ghost function FileGroups(src: Source, expected: set<Position>): seq<TimestampGroup> {
    GroupsFor(src, expected, SortedKeys(DatedKeys(src, |src.rows|)))
  }

  lemma {:induction false} KeysOfRows(src: Source, n: nat, key: GroupKey)
    requires n <= |src.rows|
    ensures AssignedRows(src, n, key) != [] <==> exists i :: 0 <= i < n && Dispose(src, i) == Assigned(key)
    ensures UnassignedRows(src, n, key) != [] <==> exists i :: 0 <= i < n && Dispose(src, i) == Unassigned(key)
  {
    hide Dispose, PositionOf, CountAt;
    if n > 0 {
      KeysOfRows(src, n - 1, key);
    }
  }

  lemma KeysAgree(src: Source, keyed: KeyedRows)
    requires GroupedByKey(src, |src.rows|, keyed.byTimestamp)
    requires UnassignedFiled(src, |src.rows|, keyed.unassigned, keyed.unassignedOrder)
    ensures keyed.byTimestamp.Keys + keyed.unassigned.Keys == DatedKeys(src, |src.rows|)
  {
    hide Dispose, AssignedRows, UnassignedRows;
    var n := |src.rows|;
    forall key
      ensures key in keyed.byTimestamp.Keys + keyed.unassigned.Keys <==> key in DatedKeys(src, n)
    {
      KeysOfRows(src, n, key);
      assert RowsUnder(keyed.byTimestamp, key) == AssignedRows(src, n, key);
      assert RowsUnder(keyed.unassigned, key) == UnassignedRows(src, n, key);
    }
  }

  lemma GroupsAgree(
      src: Source, keyed: KeyedRows, expected: set<Position>, keys: seq<GroupKey>, groups: seq<TimestampGroup>)
    requires GroupedByKey(src, |src.rows|, keyed.byTimestamp)
    requires UnassignedFiled(src, |src.rows|, keyed.unassigned, keyed.unassignedOrder)
    requires |groups| == |keys|
    requires forall i :: 0 <= i < |keys| ==>
               groups[i] == GroupAt(
                 keys[i], RowsUnder(keyed.byTimestamp, keys[i]), RowsUnder(keyed.unassigned, keys[i]), expected)
    ensures groups == GroupsFor(src, expected, keys)
  {
    hide AssignedRows, UnassignedRows, GroupAt, RowsUnder;
  }

  lemma FileGroupWellFormed(src: Source, expected: set<Position>, key: GroupKey)
    ensures WellFormedGroup(FileGroup(src, expected, key))
  {
    hide WellFormedGroup, GroupAt;
    GroupWellFormed(src, |src.rows|, key, UnassignedRows(src, |src.rows|, key), expected);
  }

  // ----- the pass

  /** Turn verdicts into frames, counting the rows they hold. */
  method EmitFrames(
      g: TimestampGroup, basis: Topology.Basis, classified: seq<ClassifiedFrame>, ghost candidates: seq<FrameCandidate>)
    returns (frames: seq<ReconstructedFrame>, rowsAssigned: nat)
    requires AllListed(classified)
    requires |classified| == |candidates|
    requires forall i :: 0 <= i < |classified| ==> classified[i].candidate == candidates[i]
    ensures frames == ToFrames(g, basis, classified)
    ensures rowsAssigned == RowsHeld(candidates)
  {
    hide Listed, ToFrame, AllListed, ToFrames, RowsHeld;
    frames, rowsAssigned := [], 0;
    EmitNothing(g, basis);
    for i := 0 to |classified|
      invariant AllListed(classified[..i])
      invariant frames == ToFrames(g, basis, classified[..i])
      invariant rowsAssigned == RowsHeld(candidates[..i])
    {
      var item := classified[i];
      ListedAt(classified, i);
      RowsHeldAppend(candidates[..i], item.candidate);
      ToFramesAppend(g, basis, classified[..i], item);
      rowsAssigned := rowsAssigned + |item.candidate.rowsByPosition.Keys|;
      frames := frames + [ToFrame(g, basis, item)];
      assert classified[..i + 1] == classified[..i] + [item];
      assert candidates[..i + 1] == candidates[..i] + [item.candidate];
    }
    assert classified[..|classified|] == classified;
    assert candidates[..|candidates|] == candidates;
  }

  lemma EmitNothing(g: TimestampGroup, basis: Topology.Basis)
    ensures AllListed([]) && ToFrames(g, basis, []) == [] && RowsHeld([]) == 0
  {
  }

  lemma ListedAt(fs: seq<ClassifiedFrame>, i: nat)
    requires AllListed(fs) && i < |fs|
    ensures Listed(fs[i].candidate)
  {
    hide Listed;
    assert fs[i] in fs;
  }

  /** One group: slice it, classify it, and turn the verdicts into frames. */
  method ReconstructGroup(g: TimestampGroup, basis: Topology.Basis, policy: Policy)
    returns (frames: seq<ReconstructedFrame>, rowsAssigned: nat)
    requires WellFormedGroup(g)
    ensures frames == FramesOf(g, basis, policy)
    ensures rowsAssigned == RowsHeld(Candidates(g, policy.severeBelowPct, policy.maxFrames))
  {
    hide WellFormedGroup, Candidates, Listed, Classify, InSequenceOrder, DescribeOccupancy, ToFrames, AllListed,
      RowsHeld;
    var candidates, occupancy := BuildFrameCandidates(g, policy.severeBelowPct, policy.maxFrames);
    CandidatesListed(g, policy.severeBelowPct, policy.maxFrames);
    var classified := ClassifyGroup(candidates);
    ClassifiedListed(g, policy.severeBelowPct, policy.maxFrames);
    frames, rowsAssigned := EmitFrames(g, basis, classified, candidates);
  }

  lemma RowsHeldAppend(cs: seq<FrameCandidate>, c: FrameCandidate)
    ensures RowsHeld(cs + [c]) == RowsHeld(cs) + |c.rowsByPosition.Keys|
  {
    assert (cs + [c])[..|cs|] == cs;
  }

  lemma ToFramesAppend(g: TimestampGroup, basis: Topology.Basis, fs: seq<ClassifiedFrame>, f: ClassifiedFrame)
    requires AllListed(fs) && Listed(f.candidate)
    ensures AllListed(fs + [f])
    ensures ToFrames(g, basis, fs + [f]) == ToFrames(g, basis, fs) + [ToFrame(g, basis, f)]
  {
    hide Listed, ToFrame;
    assert (fs + [f])[..|fs|] == fs;
  }

  function Gathered(src: Source, keys: seq<GroupKey>): seq<RawRow> {
    if keys == [] then []
    else Gathered(src, keys[..|keys| - 1]) + UnassignedRows(src, |src.rows|, keys[|keys| - 1])
  }

  /** Unassigned rows key by key, then undatable ones. */
  function SetAside(src: Source): seq<RawRow> {
    Gathered(src, UnassignedOrder(src, |src.rows|)) + UndatableRows(src, |src.rows|)
  }

  lemma {:induction false} UnassignedMembers(src: Source, n: nat, key: GroupKey, r: RawRow)
    requires n <= |src.rows|
    ensures r in UnassignedRows(src, n, key)
            <==> r.number < n && Dispose(src, r.number) == Unassigned(key) && r == RefAt(src, r.number, 0, true)
  {
    hide Dispose, PositionOf;
    if n > 0 {
      UnassignedMembers(src, n - 1, key, r);
    }
  }

  lemma {:induction false} UndatableMembers(src: Source, n: nat, r: RawRow)
    requires n <= |src.rows|
    ensures r in UndatableRows(src, n)
            <==> r.number < n && Dispose(src, r.number).Undatable? && r == RefAt(src, r.number, 0, true)
  {
    hide Dispose, PositionOf;
    if n > 0 {
      UndatableMembers(src, n - 1, r);
    }
  }

  lemma {:induction false} GatheredMembers(src: Source, keys: seq<GroupKey>, r: RawRow)
    ensures r in Gathered(src, keys)
            <==> r.number < |src.rows| && r == RefAt(src, r.number, 0, true)
                 && Dispose(src, r.number).Unassigned? && Dispose(src, r.number).key in keys
  {
    hide Dispose, UnassignedRows, RefAt;
    if keys != [] {
      var init, last := keys[..|keys| - 1], keys[|keys| - 1];
      GatheredMembers(src, init, r);
      UnassignedMembers(src, |src.rows|, last, r);
      assert keys == init + [last];
    }
  }

  lemma {:induction false} OrderListsKeys(src: Source, n: nat, i: nat)
    requires i < n <= |src.rows|
    ensures Dispose(src, i).Unassigned? ==> Dispose(src, i).key in UnassignedOrder(src, n)
  {
    hide Dispose;
    if i < n - 1 {
      OrderListsKeys(src, n - 1, i);
    }
  }

  /** What is set aside is exactly the rows that were not assigned to a group, each with
      its own number and position. */
  lemma SetAsideHolds(src: Source, r: RawRow)
    ensures r in SetAside(src)
            <==> r.number < |src.rows| && !Dispose(src, r.number).Assigned? && r == RefAt(src, r.number, 0, true)
  {
    hide Dispose, UnassignedOrder, UndatableRows, Gathered, RefAt;
    GatheredMembers(src, UnassignedOrder(src, |src.rows|), r);
    UndatableMembers(src, |src.rows|, r);
    if r.number < |src.rows| {
      OrderListsKeys(src, |src.rows|, r.number);
    }
  }

  /** The rows kept aside: unassigned ones key by key, then undatable ones. */
  method GatherUnassigned(keyed: KeyedRows, src: Source) returns (rows: seq<RawRow>)
    requires UnassignedFiled(src, |src.rows|, keyed.unassigned, keyed.unassignedOrder)
    requires keyed.undatable == UndatableRows(src, |src.rows|)
    ensures rows == SetAside(src)
    ensures |rows| == CountUnassigned(src, |src.rows|) + |UndatableRows(src, |src.rows|)|
  {
    hide Dispose, UnassignedRows, UndatableRows, CountUnassigned, UnassignedOrder;
    rows := [];
    for i := 0 to |keyed.unassignedOrder|
      invariant rows == Gathered(src, keyed.unassignedOrder[..i])
      invariant |rows| == SumUnassigned(src, |src.rows|, keyed.unassignedOrder[..i])
    {
      var key := keyed.unassignedOrder[i];
      assert key in keyed.unassignedOrder;
      assert RowsUnder(keyed.unassigned, key) == UnassignedRows(src, |src.rows|, key);
      assert keyed.unassignedOrder[..i + 1] == keyed.unassignedOrder[..i] + [key];
      rows := rows + keyed.unassigned[key];
    }
    assert keyed.unassignedOrder[..|keyed.unassignedOrder|] == keyed.unassignedOrder;
    UnassignedKeysListed(keyed, src);
    UnassignedAddUp(src, |src.rows|, keyed.unassignedOrder);
    rows := rows + keyed.undatable;
  }

  method ReconstructAll(groups: seq<TimestampGroup>, basis: Topology.Basis, policy: Policy)
    returns (frames: seq<ReconstructedFrame>, rowsAssigned: nat)
    requires forall i :: 0 <= i < |groups| ==> WellFormedGroup(groups[i])
    ensures frames == AllFrames(groups, basis, policy)
    ensures rowsAssigned == RowsAssigned(groups, policy)
  {
    hide WellFormedGroup, FramesOf, Candidates, RowsHeld;
    frames, rowsAssigned := [], 0;
    for i := 0 to |groups|
      invariant frames == AllFrames(groups[..i], basis, policy)
      invariant rowsAssigned == RowsAssigned(groups[..i], policy)
    {
      var more, held := ReconstructGroup(groups[i], basis, policy);
      assert groups[..i + 1][..i] == groups[..i];
      frames, rowsAssigned := frames + more, rowsAssigned + held;
    }
    assert groups[..|groups|] == groups;
  }

  method Reconstruct(src: Source, policy: Policy) returns (outcome: Outcome)
    ensures outcome.topology == Topology.TopologyOf(policy.topology, src)
    ensures outcome.frames == AllFrames(FileGroups(src, outcome.topology.positions), outcome.topology.basis, policy)
    ensures Tallied(outcome.frames, outcome.metrics, DistinctTimes(outcome.frames))
    ensures outcome.metrics.collisionTimestamps == |DistinctTimes(outcome.frames)|
    ensures outcome.metrics.frames == |outcome.frames| && outcome.metrics.rawRows == |src.rows|
    ensures outcome.metrics.rowsAssigned == RowsAssigned(FileGroups(src, outcome.topology.positions), policy)
    ensures outcome.metrics.uniqueTimestamps == |DatedTimes(src)|
    ensures outcome.metrics.expectedPositions == |outcome.topology.positions|
    ensures outcome.metrics.basis == outcome.topology.basis
    ensures outcome.metrics.rowsUnassigned == |outcome.unassigned|
    ensures outcome.unassigned == SetAside(src)
    ensures outcome.metrics.exactDuplicateRows == Repeats(src, |src.rows|)
    ensures outcome.metrics.rawRows
            == outcome.metrics.rowsAssigned + outcome.metrics.rowsUnassigned
               + Dropped(FileGroups(src, outcome.topology.positions), policy.maxFrames)
  {
    hide GroupedByKey, UnassignedFiled, UndatableRows, GroupCounts, Slots, GroupsOf, SortedTexts, ConnectorsSeen,
      SmrsSeen, Repeats, Tallied, DistinctTimes, WellFormedGroup, CountUnassigned, Topology.Resolve, SortedKeys,
      DatedKeys, DatedTimes, FileGroup, GroupAt, AllFrames, RowsAssigned, Dropped;
    var keyed := Build(src);
    var topology := Topology.Resolve(
      policy.topology, keyed.connectors, keyed.smrs, keyed.positionGroupCounts, keyed.groupTotal);
    var groups := BuildTimestampGroups(keyed.byTimestamp, keyed.unassigned, topology.positions);
    KeysAgree(src, keyed);
    GroupsAgree(src, keyed, topology.positions, SortedKeys(DatedKeys(src, |src.rows|)), groups);
    FileGroupsWellFormed(src, topology.positions);
    assert groups == FileGroups(src, topology.positions);
    var frames, rowsAssigned := ReconstructAll(groups, topology.basis, policy);
    var unassigned := GatherUnassigned(keyed, src);
    var times := set g | g in groups :: g.key.time;
    GroupTimes(src, topology.positions);
    var metrics := BuildFileMetrics(
      frames, |src.rows|, |times|, topology, rowsAssigned, |unassigned|, keyed.exactDuplicates);
    RowConservation(src, policy, topology.positions);
    outcome := Outcome(frames, topology, metrics, unassigned);
  }

  lemma FileGroupsWellFormed(src: Source, expected: set<Position>)
    ensures forall i :: 0 <= i < |FileGroups(src, expected)| ==> WellFormedGroup(FileGroups(src, expected)[i])
  {
    hide WellFormedGroup, SortedKeys, DatedKeys, FileGroup;
    var keys := SortedKeys(DatedKeys(src, |src.rows|));
    forall i | 0 <= i < |keys|
      ensures WellFormedGroup(FileGroup(src, expected, keys[i]))
    {
      FileGroupWellFormed(src, expected, keys[i]);
    }
  }

  // ----- counting rows

  ghost function CountAssigned(src: Source, n: nat): nat
    requires n <= |src.rows|
  {
    if n == 0 then 0 else CountAssigned(src, n - 1) + if Dispose(src, n - 1).Assigned? then 1 else 0
  }

  ghost function CountUnassigned(src: Source, n: nat): nat
    requires n <= |src.rows|
  {
    if n == 0 then 0 else CountUnassigned(src, n - 1) + if Dispose(src, n - 1).Unassigned? then 1 else 0
  }

  ghost function SumAssigned(src: Source, n: nat, keys: seq<GroupKey>): nat
    requires n <= |src.rows|
  {
    if keys == [] then 0
    else SumAssigned(src, n, keys[..|keys| - 1]) + |AssignedRows(src, n, keys[|keys| - 1])|
  }

  ghost function SumUnassigned(src: Source, n: nat, keys: seq<GroupKey>): nat
    requires n <= |src.rows|
  {
    if keys == [] then 0
    else SumUnassigned(src, n, keys[..|keys| - 1]) + |UnassignedRows(src, n, keys[|keys| - 1])|
  }

  lemma {:induction false} SumAssignedStep(src: Source, n: nat, keys: seq<GroupKey>)
    requires n < |src.rows| && Distinct(keys)
    ensures SumAssigned(src, n + 1, keys)
            == SumAssigned(src, n, keys)
               + if Dispose(src, n).Assigned? && Dispose(src, n).key in keys then 1 else 0
  {
    hide Dispose, CountAt;
    if keys != [] {
      var init, last := keys[..|keys| - 1], keys[|keys| - 1];
      SumAssignedStep(src, n, init);
      assert keys == init + [last];
    }
  }

  lemma {:induction false} SumUnassignedStep(src: Source, n: nat, keys: seq<GroupKey>)
    requires n < |src.rows| && Distinct(keys)
    ensures SumUnassigned(src, n + 1, keys)
            == SumUnassigned(src, n, keys)
               + if Dispose(src, n).Unassigned? && Dispose(src, n).key in keys then 1 else 0
  {
    hide Dispose;
    if keys != [] {
      var init, last := keys[..|keys| - 1], keys[|keys| - 1];
      SumUnassignedStep(src, n, init);
      assert keys == init + [last];
    }
  }

  lemma {:induction false} SumsStartAtZero(src: Source, keys: seq<GroupKey>)
    ensures SumAssigned(src, 0, keys) == 0 && SumUnassigned(src, 0, keys) == 0
  {
    if keys != [] {
      SumsStartAtZero(src, keys[..|keys| - 1]);
    }
  }

  lemma {:induction false} AssignedAddUp(src: Source, n: nat, keys: seq<GroupKey>)
    requires n <= |src.rows| && Distinct(keys)
    requires forall i :: 0 <= i < n && Dispose(src, i).Assigned? ==> Dispose(src, i).key in keys
    ensures SumAssigned(src, n, keys) == CountAssigned(src, n)
  {
    hide Dispose, SumAssigned;
    if n == 0 {
      SumsStartAtZero(src, keys);
    } else {
      AssignedAddUp(src, n - 1, keys);
      SumAssignedStep(src, n - 1, keys);
    }
  }

  lemma {:induction false} UnassignedAddUp(src: Source, n: nat, keys: seq<GroupKey>)
    requires n <= |src.rows| && Distinct(keys)
    requires forall i :: 0 <= i < n && Dispose(src, i).Unassigned? ==> Dispose(src, i).key in keys
    ensures SumUnassigned(src, n, keys) == CountUnassigned(src, n)
  {
    hide Dispose, SumUnassigned;
    if n == 0 {
      SumsStartAtZero(src, keys);
    } else {
      UnassignedAddUp(src, n - 1, keys);
      SumUnassignedStep(src, n - 1, keys);
    }
  }

  lemma UnassignedKeysListed(keyed: KeyedRows, src: Source)
    requires UnassignedFiled(src, |src.rows|, keyed.unassigned, keyed.unassignedOrder)
    ensures Distinct(keyed.unassignedOrder)
    ensures forall i :: 0 <= i < |src.rows| && Dispose(src, i).Unassigned? ==>
              Dispose(src, i).key in keyed.unassignedOrder
  {
    hide Dispose, UnassignedRows;
    forall i | 0 <= i < |src.rows| && Dispose(src, i).Unassigned?
      ensures Dispose(src, i).key in keyed.unassignedOrder
    {
      var key := Dispose(src, i).key;
      KeysOfRows(src, |src.rows|, key);
      assert RowsUnder(keyed.unassigned, key) == UnassignedRows(src, |src.rows|, key);
    }
  }

  lemma {:induction false} EveryRowDisposed(src: Source, n: nat)
    requires n <= |src.rows|
    ensures CountAssigned(src, n) + CountUnassigned(src, n) + |UndatableRows(src, n)| == n
  {
    hide Dispose;
    if n > 0 {
      EveryRowDisposed(src, n - 1);
    }
  }

  // ----- row conservation

  /** Rows that an overflowing group leaves out: all but one at each position. */
  function DroppedIn(g: TimestampGroup, maxFrames: int): int {
    if Overflows(g, maxFrames) then |g.rows| - |PositionsOf(g.rows)| else 0
  }

  ghost function Dropped(groups: seq<TimestampGroup>, maxFrames: int): int {
    if groups == [] then 0 else Dropped(groups[..|groups| - 1], maxFrames) + DroppedIn(groups[|groups| - 1], maxFrames)
  }

  ghost function RowTotal(groups: seq<TimestampGroup>): nat {
    if groups == [] then 0 else RowTotal(groups[..|groups| - 1]) + |groups[|groups| - 1].rows|
  }

  lemma SlicesPush(g: TimestampGroup, pct: real, n: nat)
    ensures SliceCandidates(g, pct, n + 1) == SliceCandidates(g, pct, n) + [SliceCandidate(g, pct, n)]
  {
    hide SliceCandidate;
  }

  lemma SliceHolds(g: TimestampGroup, pct: real, k: nat)
    ensures SliceCandidate(g, pct, k).rowsByPosition.Keys == SlicePositions(g.rows, k)
  {
    hide SlicePositions, DescribeOccupancy, BucketOrder, ClassifyStatus, Select;
  }

  lemma {:induction false} SlicesHold(g: TimestampGroup, pct: real, n: nat)
    ensures RowsHeld(SliceCandidates(g, pct, n)) == SliceTotal(g.rows, n)
  {
    hide SliceCandidate, SlicePositions;
    if n > 0 {
      SlicesHold(g, pct, n - 1);
      SlicesPush(g, pct, n - 1);
      RowsHeldAppend(SliceCandidates(g, pct, n - 1), SliceCandidate(g, pct, n - 1));
      SliceHolds(g, pct, n - 1);
    }
  }

  /** A group's frames hold all of its rows, bar those an overflow drops. */
  lemma GroupConserves(g: TimestampGroup, pct: real, maxFrames: int)
    requires WellFormedGroup(g)
    ensures RowsHeld(Candidates(g, pct, maxFrames)) + DroppedIn(g, maxFrames) == |g.rows|
    ensures DroppedIn(g, maxFrames) >= 0
  {
    hide WellFormedGroup, DescribeOccupancy, SlicePositions, SliceCandidates, BucketOrder, CountAt, PositionsOf;
    if Overflows(g, maxFrames) {
      FirstSliceIsWhole(g.rows);
      var c := OverflowCandidate(g, maxFrames);
      assert c.rowsByPosition.Keys == SlicePositions(g.rows, 0);
      RowsHeldAppend([], c);
      assert [] + [c] == [c];
      PositionsAtMostRows(g.rows);
    } else if g.rows != [] {
      var n := DescribeOccupancy(g).ImpliedFrameCount();
      MaxOccurrence(g);
      SlicesCountEveryRow(g.rows, n);
      SlicesHold(g, pct, n);
    }
  }

  lemma {:induction false} PositionsAtMostRows(rows: seq<RawRow>)
    ensures |PositionsOf(rows)| <= |rows|
  {
    if rows == [] {
      assert PositionsOf(rows) == {};
    } else {
      var init, last := rows[..|rows| - 1], rows[|rows| - 1];
      PositionsAtMostRows(init);
      PositionsOfAppend(init, last);
      assert rows == init + [last];
    }
  }

  lemma {:induction false} GroupsConserve(groups: seq<TimestampGroup>, policy: Policy)
    requires forall i :: 0 <= i < |groups| ==> WellFormedGroup(groups[i])
    ensures RowsAssigned(groups, policy) + Dropped(groups, policy.maxFrames) == RowTotal(groups)
    ensures Dropped(groups, policy.maxFrames) >= 0
  {
    hide WellFormedGroup, Candidates, DroppedIn;
    if groups != [] {
      GroupsConserve(groups[..|groups| - 1], policy);
      GroupConserves(groups[|groups| - 1], policy.severeBelowPct, policy.maxFrames);
    }
  }

  lemma {:induction false} GroupsHoldAssigned(src: Source, expected: set<Position>, keys: seq<GroupKey>)
    ensures RowTotal(GroupsFor(src, expected, keys)) == SumAssigned(src, |src.rows|, keys)
  {
    hide AssignedRows, UnassignedRows;
    if keys != [] {
      var init := keys[..|keys| - 1];
      GroupsHoldAssigned(src, expected, init);
      assert GroupsFor(src, expected, keys)[..|keys| - 1] == GroupsFor(src, expected, init);
    }
  }

  lemma DatedKeysCover(src: Source)
    ensures forall i :: 0 <= i < |src.rows| && Dispose(src, i).Assigned? ==>
              Dispose(src, i).key in SortedKeys(DatedKeys(src, |src.rows|))
  {
    hide Dispose, KeyLe;
    forall i | 0 <= i < |src.rows| && Dispose(src, i).Assigned?
      ensures Dispose(src, i).key in DatedKeys(src, |src.rows|)
    {
    }
  }

  /** Every raw row is assigned to a frame, kept aside as unassigned, or dropped by an
      overflowing group; nothing is lost otherwise and nothing is counted twice. */
  lemma RowConservation(src: Source, policy: Policy, expected: set<Position>)
    ensures var groups := FileGroups(src, expected);
            && RowsAssigned(groups, policy)
               + (CountUnassigned(src, |src.rows|) + |UndatableRows(src, |src.rows|)|)
               + Dropped(groups, policy.maxFrames) == |src.rows|
            && Dropped(groups, policy.maxFrames) >= 0
  {
    hide Dispose, WellFormedGroup, SortedKeys, DatedKeys, GroupsFor, RowsAssigned, Dropped,
      CountAssigned, CountUnassigned, UndatableRows;
    var groups := FileGroups(src, expected);
    FileGroupsWellFormed(src, expected);
    GroupsConserve(groups, policy);
    var keys := SortedKeys(DatedKeys(src, |src.rows|));
    GroupsHoldAssigned(src, expected, keys);
    DatedKeysCover(src);
    AssignedAddUp(src, |src.rows|, keys);
    EveryRowDisposed(src, |src.rows|);
  }
}
