/** What becomes of each raw row of a file: the one frame that holds it, and the canonical
    frame that keeps its reading. */
module Losslessness {
  import opened Sorting
  import opened FrameModels
  import opened CanonicalSerializer
  import opened LogicalKeys
  import Topology
  import opened TimestampGroups
  import opened FrameBuilder
  import opened ReplayDetector
  import opened ReplayLaws
  import opened Diagnostics
  import opened Reconstruction

  // ----- from a candidate to its frame

  lemma {:induction false} RowsInOrderMembers(order: seq<Position>, rows: map<Position, RawRow>, r: RawRow)
    requires forall p :: p in order ==> p in rows
    ensures r in RowsInOrder(order, rows) <==> exists p :: p in order && rows[p] == r
  {
    if order != [] {
      var init, last := order[..|order| - 1], order[|order| - 1];
      RowsInOrderMembers(init, rows, r);
      assert order == init + [last];
    }
  }

  lemma FrameRows(g: TimestampGroup, basis: Topology.Basis, f: ClassifiedFrame, r: RawRow)
    requires Listed(f.candidate)
    ensures r in ToFrame(g, basis, f).rows
            <==> exists p :: p in f.candidate.rowsByPosition && f.candidate.rowsByPosition[p] == r
  {
    var c := f.candidate;
    ListedRows(c);
    hide Sort, Unrepeated, RowsInOrder;
    var rows := RowsInOrder(c.order, c.rowsByPosition);
    MembersFromMultiset(Sort(rows, NumberLe), rows);
    RowsInOrderMembers(c.order, c.rowsByPosition, r);
    assert c.Payload().Keys == c.rowsByPosition.Keys;
  }

  // ----- how many frames hold a row

  ghost predicate HoldsNumber(rows: seq<RawRow>, n: nat) {
    exists r :: r in rows && r.number == n
  }

  ghost function Holders(frames: seq<ReconstructedFrame>, n: nat): nat {
    if frames == [] then 0
    else Holders(frames[..|frames| - 1], n) + if HoldsNumber(frames[|frames| - 1].rows, n) then 1 else 0
  }

  lemma {:induction false} HoldersConcat(a: seq<ReconstructedFrame>, b: seq<ReconstructedFrame>, n: nat)
    ensures Holders(a + b, n) == Holders(a, n) + Holders(b, n)
  {
    hide HoldsNumber;
    if b == [] {
      assert a + b == a;
    } else {
      assert (a + b)[..|a + b| - 1] == a + b[..|b| - 1];
      HoldersConcat(a, b[..|b| - 1], n);
    }
  }

  /** Row numbers name rows. */
  lemma {:induction false} NumbersName(rows: seq<RawRow>, q: RawRow, r: RawRow)
    requires SourceIndexed(rows) && q in rows && r in rows
    ensures q.number == r.number ==> q == r
  {
    var init, last := rows[..|rows| - 1], rows[|rows| - 1];
    assert rows == init + [last];
    if q in init && r in init {
      NumbersName(init, q, r);
    }
  }

  lemma SliceRowsAreRows(rows: seq<RawRow>, k: nat, p: Position)
    requires SourceIndexed(rows) && p in SliceRows(rows, k)
    ensures SliceRows(rows, k)[p] in rows
    ensures SliceRows(rows, k)[p].occurrence == k && SliceRows(rows, k)[p].position == p
  {
    ColumnIndexed(rows, p);
  }

  /** The frame of slice k holds exactly the row of that occurrence. */
  lemma SliceFrameHolds(g: TimestampGroup, basis: Topology.Basis, f: ClassifiedFrame, k: nat, r: RawRow)
    requires SourceIndexed(g.rows) && r in g.rows
    requires Listed(f.candidate) && f.candidate.rowsByPosition == SliceRows(g.rows, k)
    ensures HoldsNumber(ToFrame(g, basis, f).rows, r.number) <==> r.occurrence == k
  {
    hide SourceIndexed, SliceRows, ToFrame, Listed;
    var rows := ToFrame(g, basis, f).rows;
    if r.occurrence == k {
      SliceHoldsOccurrence(g, k, r);
      FrameRows(g, basis, f, r);
      assert r in rows;
    }
    if HoldsNumber(rows, r.number) {
      var q :| q in rows && q.number == r.number;
      FrameRows(g, basis, f, q);
      var p :| p in f.candidate.rowsByPosition && f.candidate.rowsByPosition[p] == q;
      SliceRowsAreRows(g.rows, k, p);
      NumbersName(g.rows, q, r);
    }
  }

  /** No frame of a group holds a row that is not the group's. */
  lemma SliceFrameHoldsOwn(g: TimestampGroup, basis: Topology.Basis, f: ClassifiedFrame, k: nat, n: nat)
    requires SourceIndexed(g.rows) && !HoldsNumber(g.rows, n)
    requires Listed(f.candidate) && f.candidate.rowsByPosition == SliceRows(g.rows, k)
    ensures !HoldsNumber(ToFrame(g, basis, f).rows, n)
  {
    hide SourceIndexed, SliceRows, ToFrame, Listed;
    var rows := ToFrame(g, basis, f).rows;
    if HoldsNumber(rows, n) {
      var q :| q in rows && q.number == n;
      FrameRows(g, basis, f, q);
      var p :| p in f.candidate.rowsByPosition && f.candidate.rowsByPosition[p] == q;
      SliceRowsAreRows(g.rows, k, p);
    }
  }

  ghost predicate SlicesInTurn(g: TimestampGroup, fs: seq<ClassifiedFrame>) {
    AllListed(fs) && forall k :: 0 <= k < |fs| ==> fs[k].candidate.rowsByPosition == SliceRows(g.rows, k)
  }

  lemma {:induction false} HoldersOfSlices(
      g: TimestampGroup, basis: Topology.Basis, fs: seq<ClassifiedFrame>, r: RawRow)
    requires SourceIndexed(g.rows) && r in g.rows && SlicesInTurn(g, fs)
    ensures Holders(ToFrames(g, basis, fs), r.number) == if r.occurrence < |fs| then 1 else 0
  {
    hide SourceIndexed, SliceRows, ToFrame, Listed, HoldsNumber;
    if fs != [] {
      var init, last := fs[..|fs| - 1], fs[|fs| - 1];
      assert last in fs;
      HoldersOfSlices(g, basis, init, r);
      SliceFrameHolds(g, basis, last, |init|, r);
      assert ToFrames(g, basis, fs)[..|init|] == ToFrames(g, basis, init);
    }
  }

  lemma {:induction false} NoHoldersOutside(g: TimestampGroup, basis: Topology.Basis, fs: seq<ClassifiedFrame>, n: nat)
    requires SourceIndexed(g.rows) && !HoldsNumber(g.rows, n) && SlicesInTurn(g, fs)
    ensures Holders(ToFrames(g, basis, fs), n) == 0
  {
    hide SourceIndexed, SliceRows, ToFrame, Listed, HoldsNumber;
    if fs != [] {
      var init, last := fs[..|fs| - 1], fs[|fs| - 1];
      assert last in fs;
      NoHoldersOutside(g, basis, init, n);
      SliceFrameHoldsOwn(g, basis, last, |init|, n);
      assert ToFrames(g, basis, fs)[..|init|] == ToFrames(g, basis, init);
    }
  }

  /** The frames of any group are its first slices, in turn. */
  lemma FramesAreSlices(g: TimestampGroup, pct: real, maxFrames: int)
    ensures var fs := Classified(g, pct, maxFrames);
            && SlicesInTurn(g, fs)
            && |fs| == if g.rows == [] then 0 else if Overflows(g, maxFrames) then 1
                       else DescribeOccupancy(g).ImpliedFrameCount()
  {
    hide Listed, DescribeOccupancy, SliceRows, Classify, InSequenceOrder, BucketOrder, Overflows, AllListed;
    ClassifiedListed(g, pct, maxFrames);
    CandidatesAreSlices(g, pct, maxFrames);
  }

  lemma CandidatesAreSlices(g: TimestampGroup, pct: real, maxFrames: int)
    ensures var cs := Candidates(g, pct, maxFrames);
            && (forall k :: 0 <= k < |cs| ==> cs[k].rowsByPosition == SliceRows(g.rows, k))
            && |cs| == if g.rows == [] then 0 else if Overflows(g, maxFrames) then 1
                       else DescribeOccupancy(g).ImpliedFrameCount()
  {
    hide DescribeOccupancy, SliceRows, BucketOrder, ClassifyStatus, Select;
  }

  /** Within its group a row is held by one frame, or by none if the group overflows and
      it is not the first row of its position. */
  lemma HoldersInGroup(g: TimestampGroup, basis: Topology.Basis, policy: Policy, r: RawRow)
    requires WellFormedGroup(g) && r in g.rows
    ensures Holders(FramesOf(g, basis, policy), r.number)
            == if !Overflows(g, policy.maxFrames) || r.occurrence == 0 then 1 else 0
  {
    hide Classified, ToFrames, SlicesInTurn, Overflows, DescribeOccupancy, Holders, AllListed;
    FramesAreSlices(g, policy.severeBelowPct, policy.maxFrames);
    ClassifiedListed(g, policy.severeBelowPct, policy.maxFrames);
    HoldersOfSlices(g, basis, Classified(g, policy.severeBelowPct, policy.maxFrames), r);
    OccurrenceBelowCount(g, r);
  }

  lemma OccurrenceBelowCount(g: TimestampGroup, r: RawRow)
    requires WellFormedGroup(g) && r in g.rows
    ensures r.occurrence < DescribeOccupancy(g).ImpliedFrameCount()
  {
    hide DescribeOccupancy;
    SliceHoldsOccurrence(g, r.occurrence, r);
    SlicesOccupied(g, r.occurrence);
    assert r.position in SlicePositions(g.rows, r.occurrence);
  }

  lemma NoHoldersInOtherGroup(g: TimestampGroup, basis: Topology.Basis, policy: Policy, n: nat)
    requires WellFormedGroup(g) && !HoldsNumber(g.rows, n)
    ensures Holders(FramesOf(g, basis, policy), n) == 0
  {
    hide Classified, ToFrames, SlicesInTurn, Overflows, DescribeOccupancy, Holders, AllListed, HoldsNumber;
    FramesAreSlices(g, policy.severeBelowPct, policy.maxFrames);
    ClassifiedListed(g, policy.severeBelowPct, policy.maxFrames);
    NoHoldersOutside(g, basis, Classified(g, policy.severeBelowPct, policy.maxFrames), n);
  }

  lemma {:induction false} HoldersInFile(
      groups: seq<TimestampGroup>, basis: Topology.Basis, policy: Policy, j: nat, r: RawRow)
    requires forall i :: 0 <= i < |groups| ==> WellFormedGroup(groups[i])
    requires j < |groups| && r in groups[j].rows
    requires forall i :: 0 <= i < |groups| && i != j ==> !HoldsNumber(groups[i].rows, r.number)
    ensures Holders(AllFrames(groups, basis, policy), r.number)
            == if !Overflows(groups[j], policy.maxFrames) || r.occurrence == 0 then 1 else 0
  {
    hide WellFormedGroup, FramesOf, HoldsNumber, Overflows, Holders;
    var init, last := groups[..|groups| - 1], groups[|groups| - 1];
    HoldersConcat(AllFrames(init, basis, policy), FramesOf(last, basis, policy), r.number);
    if j == |groups| - 1 {
      HoldersInGroup(last, basis, policy, r);
      NoHoldersInFile(init, basis, policy, r.number);
    } else {
      NoHoldersInOtherGroup(last, basis, policy, r.number);
      HoldersInFile(init, basis, policy, j, r);
    }
  }

  lemma {:induction false} NoHoldersInFile(groups: seq<TimestampGroup>, basis: Topology.Basis, policy: Policy, n: nat)
    requires forall i :: 0 <= i < |groups| ==> WellFormedGroup(groups[i]) && !HoldsNumber(groups[i].rows, n)
    ensures Holders(AllFrames(groups, basis, policy), n) == 0
  {
    hide WellFormedGroup, FramesOf, HoldsNumber;
    if groups != [] {
      var init, last := groups[..|groups| - 1], groups[|groups| - 1];
      NoHoldersInFile(init, basis, policy, n);
      NoHoldersInOtherGroup(last, basis, policy, n);
      HoldersConcat(AllFrames(init, basis, policy), FramesOf(last, basis, policy), n);
    }
  }

  // ----- the rows of a file

  /** The reference the key builder makes of an assigned row. */
  lemma {:induction false} AssignedRow(src: Source, n: nat, i: nat) returns (r: RawRow)
    requires i < n <= |src.rows| && Dispose(src, i).Assigned?
    ensures r in AssignedRows(src, n, Dispose(src, i).key)
    ensures r.number == i && r.position == PositionOf(src.rows[i]) && r.fingerprint == src.rows[i].fingerprint
    ensures r.occurrence == CountAt(AssignedRows(src, i, Dispose(src, i).key), PositionOf(src.rows[i]))
  {
    hide Dispose, PositionOf, CountAt;
    var key := Dispose(src, i).key;
    if i == n - 1 {
      r := RefAt(src, i, CountAt(AssignedRows(src, i, key), PositionOf(src.rows[i])), false);
    } else {
      r := AssignedRow(src, n - 1, i);
    }
  }

  lemma NumberNamesGroup(src: Source, key: GroupKey, i: nat)
    requires i < |src.rows|
    ensures HoldsNumber(AssignedRows(src, |src.rows|, key), i) ==> Dispose(src, i) == Assigned(key)
  {
    hide Dispose, SourceIndexed, AssignedRows;
    AssignedRowsIndexed(src, |src.rows|, key);
  }

  /** Where a file's assigned row finds its group. */
  lemma GroupOfRow(src: Source, expected: set<Position>, i: nat) returns (j: nat)
    requires i < |src.rows| && Dispose(src, i).Assigned?
    ensures var groups := FileGroups(src, expected);
            && j < |groups|
            && groups[j] == FileGroup(src, expected, Dispose(src, i).key)
            && forall k :: 0 <= k < |groups| && k != j ==> !HoldsNumber(groups[k].rows, i)
  {
    hide Dispose, SortedKeys, DatedKeys, AssignedRows, UnassignedRows, HoldsNumber;
    var keys := SortedKeys(DatedKeys(src, |src.rows|));
    DatedKeysCover(src);
    var key := Dispose(src, i).key;
    j :| 0 <= j < |keys| && keys[j] == key;
    forall k | 0 <= k < |keys| && k != j
      ensures !HoldsNumber(FileGroup(src, expected, keys[k]).rows, i)
    {
      NumberNamesGroup(src, keys[k], i);
    }
  }

  /** Every assigned row of a file is held by exactly one of its frames; only a row that
      is not the first of its position in an overflowing group is held by none. */
  lemma EachRowInOneFrame(src: Source, policy: Policy, expected: set<Position>, basis: Topology.Basis, i: nat)
    requires i < |src.rows| && Dispose(src, i).Assigned?
    ensures var key := Dispose(src, i).key;
            Holders(AllFrames(FileGroups(src, expected), basis, policy), i)
            == if !Overflows(FileGroup(src, expected, key), policy.maxFrames)
                  || CountAt(AssignedRows(src, i, key), PositionOf(src.rows[i])) == 0
               then 1 else 0
  {
    hide Dispose, Overflows, WellFormedGroup, Holders, AllFrames, FileGroups, HoldsNumber, AssignedRows, CountAt,
      PositionOf;
    var j := GroupOfRow(src, expected, i);
    var r := AssignedRow(src, |src.rows|, i);
    FileGroupsWellFormed(src, expected);
    HoldersInFile(FileGroups(src, expected), basis, policy, j, r);
  }

  /** A frame of this group is consumed downstream and reads `d` at `p`. */
  ghost predicate KeptIn(f: ReconstructedFrame, key: GroupKey, p: Position, d: Digest) {
    && f.key == key && IsCanonical(f.classification)
    && exists r :: r in f.rows && r.position == p && r.fingerprint == d
  }

  ghost predicate Kept(frames: seq<ReconstructedFrame>, key: GroupKey, p: Position, d: Digest) {
    exists k :: 0 <= k < |frames| && KeptIn(frames[k], key, p, d)
  }

  lemma KeptConcat(a: seq<ReconstructedFrame>, b: seq<ReconstructedFrame>, key: GroupKey, p: Position, d: Digest)
    ensures Kept(a, key, p, d) || Kept(b, key, p, d) ==> Kept(a + b, key, p, d)
  {
    hide KeptIn;
    var all := a + b;
    if Kept(a, key, p, d) {
      var k :| 0 <= k < |a| && KeptIn(a[k], key, p, d);
      assert all[k] == a[k];
    }
    if Kept(b, key, p, d) {
      var k :| 0 <= k < |b| && KeptIn(b[k], key, p, d);
      assert all[|a| + k] == b[k];
    }
  }

  lemma {:induction false} ToFramesAt(g: TimestampGroup, basis: Topology.Basis, fs: seq<ClassifiedFrame>, k: nat)
    requires AllListed(fs) && k < |fs|
    ensures Listed(fs[k].candidate)
    ensures ToFrames(g, basis, fs)[k] == ToFrame(g, basis, fs[k])
  {
    hide ToFrame, Listed;
    assert fs[k] in fs;
    if k < |fs| - 1 {
      ToFramesAt(g, basis, fs[..|fs| - 1], k);
    }
  }

  lemma ObservedIsKept(g: TimestampGroup, basis: Topology.Basis, f: ClassifiedFrame, p: Position, d: Digest)
    requires WellFormedGroup(g) && Listed(f.candidate) && IsCanonical(f.classification) && Observes(f, p, d)
    requires exists k: nat :: f.candidate.rowsByPosition == SliceRows(g.rows, k)
    ensures KeptIn(ToFrame(g, basis, f), g.key, p, d)
  {
    var k: nat :| f.candidate.rowsByPosition == SliceRows(g.rows, k);
    var r := f.candidate.rowsByPosition[p];
    SliceRowsAreRows(g.rows, k, p);
    FrameRows(g, basis, f, r);
    FrameFields(g, basis, f);
    hide WellFormedGroup, Listed, SliceRows, ToFrame;
    assert r in ToFrame(g, basis, f).rows;
  }

  lemma FrameFields(g: TimestampGroup, basis: Topology.Basis, f: ClassifiedFrame)
    requires Listed(f.candidate)
    ensures ToFrame(g, basis, f).key == g.key && ToFrame(g, basis, f).classification == f.classification
  {
    hide Sort, Unrepeated, RowsInOrder, DetailOf, Listed;
  }

  lemma KeptInGroup(g: TimestampGroup, basis: Topology.Basis, policy: Policy, r: RawRow)
    requires WellFormedGroup(g) && r in g.rows
    requires Preserved(r, Classified(g, policy.severeBelowPct, policy.maxFrames))
    ensures Kept(FramesOf(g, basis, policy), g.key, r.position, r.fingerprint)
  {
    hide Classified, ToFrames, Listed, Observes, WellFormedGroup, Overflows, DescribeOccupancy, SliceRows, KeptIn,
      AllListed;
    var fs := Classified(g, policy.severeBelowPct, policy.maxFrames);
    ClassifiedListed(g, policy.severeBelowPct, policy.maxFrames);
    FramesAreSlices(g, policy.severeBelowPct, policy.maxFrames);
    var k :| 0 <= k < |fs| && IsCanonical(fs[k].classification) && Observes(fs[k], r.position, r.fingerprint);
    ToFramesAt(g, basis, fs, k);
    assert fs[k].candidate.rowsByPosition == SliceRows(g.rows, k);
    ObservedIsKept(g, basis, fs[k], r.position, r.fingerprint);
    assert KeptIn(ToFrames(g, basis, fs)[k], g.key, r.position, r.fingerprint);
  }

  lemma {:induction false} KeptInFile(
      groups: seq<TimestampGroup>, basis: Topology.Basis, policy: Policy, j: nat, p: Position, d: Digest)
    requires j < |groups| && Kept(FramesOf(groups[j], basis, policy), groups[j].key, p, d)
    ensures Kept(AllFrames(groups, basis, policy), groups[j].key, p, d)
  {
    hide FramesOf, Kept;
    var init, last := groups[..|groups| - 1], groups[|groups| - 1];
    KeptConcat(AllFrames(init, basis, policy), FramesOf(last, basis, policy), groups[j].key, p, d);
    if j < |groups| - 1 {
      KeptInFile(init, basis, policy, j, p, d);
    }
  }

  lemma LosslessPreserves(g: TimestampGroup, pct: real, maxFrames: int, r: RawRow)
    requires Lossless(g, pct, maxFrames) && r in g.rows
    ensures Preserved(r, Classified(g, pct, maxFrames))
  {
    hide Preserved, Classified;
  }

  /** From raw row to canonical frame: in a group whose positions render differently, and
      which stays within the frame limit or departs from its first frame in nothing, every
      assigned row's reading is found, at its position, in a canonical frame of its
      charger and time. */
  lemma EveryReadingKept(src: Source, policy: Policy, expected: set<Position>, basis: Topology.Basis, i: nat)
    requires i < |src.rows| && Dispose(src, i).Assigned?
    requires var g := FileGroup(src, expected, Dispose(src, i).key);
             && (!Overflows(g, policy.maxFrames) || AllRepeatFirst(g.rows))
             && TextInjective(PositionsOf(g.rows))
    ensures Kept(AllFrames(FileGroups(src, expected), basis, policy),
                 Dispose(src, i).key, PositionOf(src.rows[i]), src.rows[i].fingerprint)
  {
    hide Dispose, Overflows, WellFormedGroup, AllFrames, FileGroups, HoldsNumber, AssignedRows, PositionOf, Kept,
      Preserved, TextInjective, FramesOf, PositionsOf, AllRepeatFirst, Lossless;
    var j := GroupOfRow(src, expected, i);
    var r := AssignedRow(src, |src.rows|, i);
    var g := FileGroup(src, expected, Dispose(src, i).key);
    FileGroupWellFormed(src, expected, Dispose(src, i).key);
    NoObservationLost(g, policy.severeBelowPct, policy.maxFrames);
    LosslessPreserves(g, policy.severeBelowPct, policy.maxFrames, r);
    KeptInGroup(g, basis, policy, r);
    KeptInFile(FileGroups(src, expected), basis, policy, j, r.position, r.fingerprint);
  }
}
