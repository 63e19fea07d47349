/** Frames as they leave reconstruction, and the per-file metrics over them. */
module Diagnostics {
  import opened FrameModels
  import opened Sorting
  import FrameBuilder
  import Topology

  /** What is stored beside each frame: how its group was occupied, and where and why it
      departs. */
  datatype FrameDetail = FrameDetail(
    basis: Topology.Basis,
    groupRows: nat,
    maxOccurrence: nat,
    evenOccupancy: bool,
    differing: set<Position>,
    note: FrameBuilder.Note)

  datatype ReconstructedFrame = ReconstructedFrame(
    key: GroupKey,
    sequence: nat,
    rows: seq<RawRow>,
    fingerprint: string,
    status: FrameStatus,
    classification: Classification,
    expectedCount: nat,
    observedCount: nat,
    missing: set<Position>,
    unexpected: set<Position>,
    replayOf: Option<nat>,
    issues: seq<Issue>,
    detail: FrameDetail)

  datatype FileMetrics = FileMetrics(
    rawRows: nat,
    uniqueTimestamps: nat,
    expectedPositions: nat,
    basis: Topology.Basis,
    frames: nat,
    complete: nat,
    partial: nat,
    severelyIncomplete: nat,
    malformed: nat,
    ambiguous: nat,
    canonical: nat,
    fullReplays: nat,
    partialReplays: nat,
    distinctFrames: nat,
    exactDuplicateRows: nat,
    collisionTimestamps: nat,
    rowsAssigned: nat,
    rowsUnassigned: nat)

  function StatusCount(frames: seq<ReconstructedFrame>, s: FrameStatus): nat {
    if frames == [] then 0
    else StatusCount(frames[..|frames| - 1], s) + if frames[|frames| - 1].status == s then 1 else 0
  }

  function ClassCount(frames: seq<ReconstructedFrame>, c: Classification): nat {
    if frames == [] then 0
    else ClassCount(frames[..|frames| - 1], c) + if frames[|frames| - 1].classification == c then 1 else 0
  }

  /** Timestamps at which some frame is a distinct one. */
  function DistinctTimes(frames: seq<ReconstructedFrame>): set<int> {
    set i | 0 <= i < |frames| && frames[i].classification == SAME_TIMESTAMP_DISTINCT_FRAME :: frames[i].key.time
  }

  ghost predicate Tallied(frames: seq<ReconstructedFrame>, m: FileMetrics, collisions: set<int>) {
    && m.complete == StatusCount(frames, COMPLETE)
    && m.partial == StatusCount(frames, PARTIAL)
    && m.severelyIncomplete == StatusCount(frames, SEVERELY_INCOMPLETE)
    && m.malformed == StatusCount(frames, MALFORMED)
    && m.ambiguous == StatusCount(frames, AMBIGUOUS_STATUS)
    && m.fullReplays == ClassCount(frames, FULL_FRAME_REPLAY)
    && m.partialReplays == ClassCount(frames, PARTIAL_FRAME_REPLAY)
    && m.distinctFrames == ClassCount(frames, SAME_TIMESTAMP_DISTINCT_FRAME)
    && m.canonical == ClassCount(frames, UNIQUE) + ClassCount(frames, SAME_TIMESTAMP_DISTINCT_FRAME)
    && collisions == DistinctTimes(frames)
  }

  function AddStatus(m: FileMetrics, s: FrameStatus): FileMetrics {
    match s
    case COMPLETE => m.(complete := m.complete + 1)
    case PARTIAL => m.(partial := m.partial + 1)
    case SEVERELY_INCOMPLETE => m.(severelyIncomplete := m.severelyIncomplete + 1)
    case MALFORMED => m.(malformed := m.malformed + 1)
    case AMBIGUOUS_STATUS => m.(ambiguous := m.ambiguous + 1)
  }

  function AddClass(m: FileMetrics, c: Classification): FileMetrics {
    match c
    case FULL_FRAME_REPLAY => m.(fullReplays := m.fullReplays + 1)
    case PARTIAL_FRAME_REPLAY => m.(partialReplays := m.partialReplays + 1)
    case SAME_TIMESTAMP_DISTINCT_FRAME => m.(distinctFrames := m.distinctFrames + 1)
    case _ => m
  }

  lemma StatusCountAppend(frames: seq<ReconstructedFrame>, f: ReconstructedFrame, s: FrameStatus)
    ensures StatusCount(frames + [f], s) == StatusCount(frames, s) + if f.status == s then 1 else 0
  {
    assert (frames + [f])[..|frames|] == frames;
  }

  lemma ClassCountAppend(frames: seq<ReconstructedFrame>, f: ReconstructedFrame, c: Classification)
    ensures ClassCount(frames + [f], c) == ClassCount(frames, c) + if f.classification == c then 1 else 0
  {
    assert (frames + [f])[..|frames|] == frames;
  }

  lemma DistinctTimesAppend(frames: seq<ReconstructedFrame>, f: ReconstructedFrame)
    ensures DistinctTimes(frames + [f])
            == DistinctTimes(frames) + if f.classification == SAME_TIMESTAMP_DISTINCT_FRAME then {f.key.time} else {}
  {
    var all := frames + [f];
    forall t | t in DistinctTimes(frames)
      ensures t in DistinctTimes(all)
    {
      var i :| 0 <= i < |frames| && frames[i].classification == SAME_TIMESTAMP_DISTINCT_FRAME
               && frames[i].key.time == t;
      assert all[i] == frames[i];
    }
    assert all[|frames|] == f;
  }

  lemma TalliedAppend(frames: seq<ReconstructedFrame>, f: ReconstructedFrame, m: FileMetrics, collisions: set<int>)
    requires Tallied(frames, m, collisions)
    ensures var counted := AddClass(AddStatus(m, f.status), f.classification);
            Tallied(
              frames + [f],
              if IsCanonical(f.classification) then counted.(canonical := counted.canonical + 1) else counted,
              if f.classification == SAME_TIMESTAMP_DISTINCT_FRAME then collisions + {f.key.time} else collisions)
  {
    hide StatusCount, ClassCount, DistinctTimes;
    forall s
      ensures StatusCount(frames + [f], s) == StatusCount(frames, s) + if f.status == s then 1 else 0
    {
      StatusCountAppend(frames, f, s);
    }
    forall c
      ensures ClassCount(frames + [f], c) == ClassCount(frames, c) + if f.classification == c then 1 else 0
    {
      ClassCountAppend(frames, f, c);
    }
    DistinctTimesAppend(frames, f);
  }

  method BuildFileMetrics(
      frames: seq<ReconstructedFrame>, rawRows: nat, uniqueTimestamps: nat, topology: Topology.FrameTopology,
      rowsAssigned: nat, rowsUnassigned: nat, exactDuplicateRows: nat)
    returns (metrics: FileMetrics)
    ensures Tallied(frames, metrics, DistinctTimes(frames))
    ensures metrics.collisionTimestamps == |DistinctTimes(frames)|
    ensures metrics.rawRows == rawRows && metrics.frames == |frames|
    ensures metrics.rowsAssigned == rowsAssigned && metrics.rowsUnassigned == rowsUnassigned
    ensures metrics.exactDuplicateRows == exactDuplicateRows
    ensures metrics.uniqueTimestamps == uniqueTimestamps
    ensures metrics.expectedPositions == |topology.positions| && metrics.basis == topology.basis
  {
    metrics := FileMetrics(
      rawRows, uniqueTimestamps, |topology.positions|, topology.basis, |frames|,
      0, 0, 0, 0, 0, 0, 0, 0, 0, exactDuplicateRows, 0, rowsAssigned, rowsUnassigned);
    var collisions: set<int> := {};
    assert Tallied([], metrics, collisions);
    hide Tallied;
    for i := 0 to |frames|
      invariant Tallied(frames[..i], metrics, collisions)
      invariant metrics.rawRows == rawRows && metrics.frames == |frames|
      invariant metrics.rowsAssigned == rowsAssigned && metrics.rowsUnassigned == rowsUnassigned
      invariant metrics.exactDuplicateRows == exactDuplicateRows
      invariant metrics.uniqueTimestamps == uniqueTimestamps
      invariant metrics.expectedPositions == |topology.positions| && metrics.basis == topology.basis
    {
      var frame := frames[i];
      TalliedAppend(frames[..i], frame, metrics, collisions);
      metrics := AddStatus(metrics, frame.status);
      metrics := AddClass(metrics, frame.classification);
      if IsCanonical(frame.classification) {
        metrics := metrics.(canonical := metrics.canonical + 1);
      }
      if frame.classification == SAME_TIMESTAMP_DISTINCT_FRAME {
        collisions := collisions + {frame.key.time};
      }
      assert frames[..i + 1] == frames[..i] + [frame];
    }
    assert frames[..|frames|] == frames;
    TalliedCollisions(frames, metrics, collisions);
    metrics := metrics.(collisionTimestamps := |collisions|);
  }

  lemma TalliedCollisions(frames: seq<ReconstructedFrame>, m: FileMetrics, collisions: set<int>)
    requires Tallied(frames, m, collisions)
    ensures collisions == DistinctTimes(frames)
    ensures Tallied(frames, m.(collisionTimestamps := |collisions|), DistinctTimes(frames))
  {
  }

  lemma {:induction false} CountsCover(frames: seq<ReconstructedFrame>)
    ensures StatusCount(frames, COMPLETE) + StatusCount(frames, PARTIAL) + StatusCount(frames, SEVERELY_INCOMPLETE)
            + StatusCount(frames, MALFORMED) + StatusCount(frames, AMBIGUOUS_STATUS) == |frames|
    ensures ClassCount(frames, UNIQUE) + ClassCount(frames, EXACT_ROW_DUPLICATE) + ClassCount(frames, FULL_FRAME_REPLAY)
            + ClassCount(frames, PARTIAL_FRAME_REPLAY) + ClassCount(frames, SAME_TIMESTAMP_DISTINCT_FRAME)
            + ClassCount(frames, AMBIGUOUS) == |frames|
  {
    if frames != [] {
      CountsCover(frames[..|frames| - 1]);
    }
  }

  // ----- the independently computed collision list

  function CanonicalAt(frames: seq<ReconstructedFrame>, t: int): nat {
    if frames == [] then 0
    else
      var last := frames[|frames| - 1];
      CanonicalAt(frames[..|frames| - 1], t) + if IsCanonical(last.classification) && last.key.time == t then 1 else 0
  }

  /** Timestamps at which more than one canonical frame stands. */
  function CollisionTimes(frames: seq<ReconstructedFrame>): set<int> {
    set i | 0 <= i < |frames| && CanonicalAt(frames, frames[i].key.time) > 1 :: frames[i].key.time
  }

  lemma CanonicalAtAppend(frames: seq<ReconstructedFrame>, f: ReconstructedFrame, t: int)
    ensures CanonicalAt(frames + [f], t)
            == CanonicalAt(frames, t) + if IsCanonical(f.classification) && f.key.time == t then 1 else 0
  {
    assert (frames + [f])[..|frames|] == frames;
  }

  lemma {:induction false} CanonicalSeen(frames: seq<ReconstructedFrame>, t: int)
    ensures CanonicalAt(frames, t) > 0
            <==> exists i :: 0 <= i < |frames| && IsCanonical(frames[i].classification) && frames[i].key.time == t
  {
    if frames != [] {
      var init, last := frames[..|frames| - 1], frames[|frames| - 1];
      CanonicalSeen(init, t);
      if CanonicalAt(init, t) > 0 {
        var i :| 0 <= i < |init| && IsCanonical(init[i].classification) && init[i].key.time == t;
        assert frames[i] == init[i];
      }
      if i :| 0 <= i < |frames| - 1 && IsCanonical(frames[i].classification) && frames[i].key.time == t {
        assert init[i] == frames[i];
      }
    }
  }

  ghost predicate TwoCanonical(frames: seq<ReconstructedFrame>, t: int) {
    exists i, j :: 0 <= i < j < |frames|
                   && IsCanonical(frames[i].classification) && frames[i].key.time == t
                   && IsCanonical(frames[j].classification) && frames[j].key.time == t
  }

  lemma TwoInPrefix(frames: seq<ReconstructedFrame>, t: int)
    requires frames != []
    ensures var n := |frames| - 1;
            TwoCanonical(frames, t)
            <==> TwoCanonical(frames[..n], t)
                 || (IsCanonical(frames[n].classification) && frames[n].key.time == t
                     && exists i ::
                          0 <= i < n && IsCanonical(frames[..n][i].classification) && frames[..n][i].key.time == t)
  {
    var n := |frames| - 1;
    var init := frames[..n];
    assert forall i :: 0 <= i < n ==> init[i] == frames[i];
  }

  lemma {:induction false} TwoSeen(frames: seq<ReconstructedFrame>, t: int)
    ensures CanonicalAt(frames, t) > 1 <==> TwoCanonical(frames, t)
  {
    if frames != [] {
      var init := frames[..|frames| - 1];
      TwoSeen(init, t);
      CanonicalSeen(init, t);
      TwoInPrefix(frames, t);
    }
  }

  lemma CollisionTimesAre(frames: seq<ReconstructedFrame>, t: int)
    ensures t in CollisionTimes(frames) <==> CanonicalAt(frames, t) > 1
  {
    if CanonicalAt(frames, t) > 1 {
      CanonicalSeen(frames, t);
      var i :| 0 <= i < |frames| && IsCanonical(frames[i].classification) && frames[i].key.time == t;
      assert CanonicalAt(frames, frames[i].key.time) > 1;
    }
  }

  function CountOf(seen: map<int, nat>, t: int): nat {
    if t in seen then seen[t] else 0
  }

  /** The outcome's own collision list: count canonical frames per timestamp. */
  method CollisionTimestamps(frames: seq<ReconstructedFrame>) returns (stamps: seq<int>)
    ensures forall t :: t in stamps <==> t in CollisionTimes(frames)
    ensures |stamps| == |CollisionTimes(frames)|
    ensures Distinct(stamps) && Ascending(stamps, (a: int, b: int) => a <= b)
  {
    var seen: map<int, nat> := map[];
    for i := 0 to |frames|
      invariant forall t :: CountOf(seen, t) == CanonicalAt(frames[..i], t)
    {
      var frame := frames[i];
      forall t
        ensures CanonicalAt(frames[..i + 1], t)
                == CanonicalAt(frames[..i], t)
                   + if IsCanonical(frame.classification) && frame.key.time == t then 1 else 0
      {
        assert frames[..i + 1] == frames[..i] + [frame];
        CanonicalAtAppend(frames[..i], frame, t);
      }
      if IsCanonical(frame.classification) {
        seen := seen[frame.key.time := CountOf(seen, frame.key.time) + 1];
      }
    }
    assert frames[..|frames|] == frames;
    var repeated := set t | t in seen && seen[t] > 1;
    forall t
      ensures t in repeated <==> t in CollisionTimes(frames)
    {
      assert CountOf(seen, t) == CanonicalAt(frames, t);
      CollisionTimesAre(frames, t);
    }
    assert repeated == CollisionTimes(frames);
    stamps := SortedSet(repeated, (a: int, b: int) => a <= b);
  }

  // ----- what the counts count

  function WithStatus(frames: seq<ReconstructedFrame>, s: FrameStatus): set<nat> {
    set i: nat | i < |frames| && frames[i].status == s
  }

  function WithClass(frames: seq<ReconstructedFrame>, c: Classification): set<nat> {
    set i: nat | i < |frames| && frames[i].classification == c
  }

  lemma OneMore(some: set<nat>, more: set<nat>, n: nat, added: bool)
    requires n !in some
    requires forall i: nat :: i in more <==> i in some || (i == n && added)
    ensures |more| == |some| + if added then 1 else 0
  {
    assert more == some + if added then {n} else {};
  }

  lemma StatusPush(frames: seq<ReconstructedFrame>, f: ReconstructedFrame, s: FrameStatus)
    ensures |WithStatus(frames + [f], s)| == |WithStatus(frames, s)| + if f.status == s then 1 else 0
  {
    var all, n := frames + [f], |frames|;
    forall i: nat
      ensures i in WithStatus(all, s) <==> i in WithStatus(frames, s) || (i == n && f.status == s)
    {
      assert i < n ==> all[i] == frames[i];
      assert i == n ==> all[i] == f;
    }
    assert n !in WithStatus(frames, s);
    var some, more := WithStatus(frames, s), WithStatus(all, s);
    hide *;
    OneMore(some, more, n, f.status == s);
  }

  lemma ClassPush(frames: seq<ReconstructedFrame>, f: ReconstructedFrame, c: Classification)
    ensures |WithClass(frames + [f], c)| == |WithClass(frames, c)| + if f.classification == c then 1 else 0
  {
    var all, n := frames + [f], |frames|;
    forall i: nat
      ensures i in WithClass(all, c) <==> i in WithClass(frames, c) || (i == n && f.classification == c)
    {
      assert i < n ==> all[i] == frames[i];
      assert i == n ==> all[i] == f;
    }
    assert n !in WithClass(frames, c);
    var some, more := WithClass(frames, c), WithClass(all, c);
    hide *;
    OneMore(some, more, n, f.classification == c);
  }

  lemma WithNone(s: FrameStatus, c: Classification)
    ensures WithStatus([], s) == {} && WithClass([], c) == {}
  {
  }

  /** Each count is the number of frames with that status, or with that classification. */
  lemma {:induction false} CountsRead(frames: seq<ReconstructedFrame>, s: FrameStatus, c: Classification)
    ensures StatusCount(frames, s) == |WithStatus(frames, s)|
    ensures ClassCount(frames, c) == |WithClass(frames, c)|
  {
    hide WithStatus, WithClass;
    if frames == [] {
      WithNone(s, c);
    } else {
      var init, last := frames[..|frames| - 1], frames[|frames| - 1];
      assert frames == init + [last];
      CountsRead(init, s, c);
      StatusPush(init, last, s);
      ClassPush(init, last, c);
    }
  }
}
