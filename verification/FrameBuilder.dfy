/** Occurrence slicing: frame k takes the k-th row of every logical position. */
module FrameBuilder {
  import opened Sorting
  import opened FrameModels
  import opened Rounding

  // ----- occupancy

  datatype Occupancy = Occupancy(
    rawRowCount: nat,
    expectedCount: nat,
    observedCount: nat,
    missing: set<Position>,
    unexpected: set<Position>,
    maxOccurrence: nat,
    minOccurrence: nat,
    isEven: bool)
  {
    function ImpliedFrameCount(): nat {
      if maxOccurrence >= 1 then maxOccurrence else 1
    }
  }

  function MinOf(s: set<nat>): nat {
    if s == {} then 0
    else
      MinExists(s);
      var m :| m in s && forall x :: x in s ==> m <= x;
      m
  }

  lemma MinExists(s: set<nat>)
    requires s != {}
    ensures exists m :: m in s && forall x :: x in s ==> m <= x
  {
    var m := Least(s, (x: nat, y: nat) => x <= y);
  }

  function DescribeOccupancy(g: TimestampGroup): Occupancy {
    Occupancy(
      |g.rows| + |g.unassignedRows|,
      |g.expected|,
      |g.occurrences.Keys|,
      g.expected - g.occurrences.Keys,
      g.occurrences.Keys - g.expected,
      MaxOf(g.occurrences.Values),
      MinOf(g.occurrences.Values),
      |g.occurrences.Values| <= 1)
  }

  // ----- candidates

  datatype Note =
    | NoNote
    | Fragment(observed: nat, first: nat)
    | Uneven
    | Overflow(frameCount: nat, maximum: int)
    | RepeatsCanonical(positions: nat)
    | NoSharedPosition

  datatype FrameCandidate = FrameCandidate(
    sequence: nat,
    order: seq<Position>,
    rowsByPosition: map<Position, RawRow>,
    expected: set<Position>,
    status: FrameStatus,
    isFragment: bool,
    note: Note)
  {
    function Observed(): set<Position> {
      rowsByPosition.Keys
    }

    function Missing(): set<Position> {
      expected - Observed()
    }

    function Unexpected(): set<Position> {
      Observed() - expected
    }

    function Payload(): map<Position, Digest> {
      map p | p in rowsByPosition :: rowsByPosition[p].fingerprint
    }
  }

  /** Unexpected positions dominate, then an unresolved topology. */
  function ClassifyStatus(observed: nat, expected: nat, unexpected: nat, severeBelowPct: real): FrameStatus {
    if unexpected > 0 then MALFORMED
    else if expected == 0 then AMBIGUOUS_STATUS
    else if observed >= expected then COMPLETE
    else if 100.0 * observed as real / expected as real < severeBelowPct then SEVERELY_INCOMPLETE
    else PARTIAL
  }

  predicate SlotLe(a: RawRow, b: RawRow) {
    a.occurrence < b.occurrence || (a.occurrence == b.occurrence && a.number <= b.number)
  }

  /** Positions in order of first appearance: the order of a dictionary's keys. */
  function FirstSeen(rows: seq<RawRow>): seq<Position> {
    if rows == [] then []
    else
      var order, last := FirstSeen(rows[..|rows| - 1]), rows[|rows| - 1].position;
      if last in order then order else order + [last]
  }

  lemma {:induction false} FirstSeenListsPositions(rows: seq<RawRow>)
    ensures Distinct(FirstSeen(rows))
    ensures forall p :: p in FirstSeen(rows) <==> p in PositionsOf(rows)
  {
    if rows != [] {
      var init, last := rows[..|rows| - 1], rows[|rows| - 1];
      FirstSeenListsPositions(init);
      PositionsOfAppend(init, last);
      assert rows == init + [last];
    }
  }

  lemma FirstSeenAppend(rows: seq<RawRow>, r: RawRow)
    ensures FirstSeen(rows + [r])
            == if r.position in FirstSeen(rows) then FirstSeen(rows) else FirstSeen(rows) + [r.position]
  {
    assert (rows + [r])[..|rows|] == rows;
  }

  function BucketOrder(g: TimestampGroup): seq<Position> {
    FirstSeen(Sort(g.rows, SlotLe))
  }

  function DeeperThan(rows: seq<RawRow>, k: nat): Position -> bool {
    (p: Position) => k < CountAt(rows, p)
  }

  /** The positions with a k-th row. */
  function SlicePositions(rows: seq<RawRow>, k: nat): set<Position> {
    set p | p in PositionsOf(rows) && k < CountAt(rows, p)
  }

  function SliceRows(rows: seq<RawRow>, k: nat): map<Position, RawRow> {
    map p | p in SlicePositions(rows, k) :: RowsAt(rows, p)[k]
  }

  /** One frame from its slice. A later frame with fewer positions than the first
      one is a fragment. */
  function AssembleCandidate(
      expected: set<Position>, occupancy: Occupancy, severeBelowPct: real, sequence: nat,
      order: seq<Position>, slice: map<Position, RawRow>, firstSize: Option<nat>): FrameCandidate
  {
    var observed := |slice.Keys|;
    var isFragment := firstSize.Some? && observed < firstSize.value;
    var note :=
      if isFragment then Fragment(observed, firstSize.value)
      else if !occupancy.isEven && sequence == 0 && occupancy.ImpliedFrameCount() > 1 then Uneven
      else NoNote;
    FrameCandidate(
      sequence, order, slice, expected,
      ClassifyStatus(observed, |expected|, |slice.Keys - expected|, severeBelowPct),
      isFragment, note)
  }

  function SliceCandidate(g: TimestampGroup, severeBelowPct: real, k: nat): FrameCandidate {
    AssembleCandidate(
      g.expected, DescribeOccupancy(g), severeBelowPct, k,
      Select(BucketOrder(g), DeeperThan(g.rows, k)),
      SliceRows(g.rows, k),
      if k == 0 then None else Some(|SliceRows(g.rows, 0).Keys|))
  }

  function SliceCandidates(g: TimestampGroup, severeBelowPct: real, n: nat): seq<FrameCandidate> {
    seq(n, (k: nat) => SliceCandidate(g, severeBelowPct, k))
  }

  function OverflowCandidate(g: TimestampGroup, maxFrames: int): FrameCandidate {
    FrameCandidate(
      0,
      BucketOrder(g),
      SliceRows(g.rows, 0),
      g.expected,
      AMBIGUOUS_STATUS,
      false,
      Overflow(DescribeOccupancy(g).ImpliedFrameCount(), maxFrames))
  }

  predicate Overflows(g: TimestampGroup, maxFrames: int) {
    g.rows != [] && DescribeOccupancy(g).ImpliedFrameCount() > maxFrames
  }

  function Candidates(g: TimestampGroup, severeBelowPct: real, maxFrames: int): seq<FrameCandidate> {
    if g.rows == [] then []
    else if Overflows(g, maxFrames) then [OverflowCandidate(g, maxFrames)]
    else SliceCandidates(g, severeBelowPct, DescribeOccupancy(g).ImpliedFrameCount())
  }

  // ----- the builder's loops

  lemma SlotLeIsPreorder()
    ensures TotalPreorder(SlotLe)
  {
  }

  lemma {:induction false} ColumnSorted(rows: seq<RawRow>, p: Position)
    requires SourceIndexed(rows)
    ensures Ascending(RowsAt(rows, p), SlotLe)
  {
    ColumnIndexed(rows, p);
  }

  /** Sorting by occurrence leaves every column as it was in the source. */
  lemma SortedColumns(rows: seq<RawRow>, p: Position)
    requires SourceIndexed(rows)
    ensures RowsAt(Sort(rows, SlotLe), p) == RowsAt(rows, p)
  {
    SlotLeIsPreorder();
    SelectSort(rows, At(p), SlotLe);
    ColumnSorted(rows, p);
    SortOfAscending(RowsAt(rows, p), SlotLe);
  }

  ghost predicate BucketsOf(rows: seq<RawRow>, buckets: map<Position, seq<RawRow>>) {
    && buckets.Keys == PositionsOf(rows)
    && forall p :: p in buckets ==> buckets[p] == RowsAt(rows, p)
  }

  lemma BucketsAppend(rows: seq<RawRow>, buckets: map<Position, seq<RawRow>>, r: RawRow)
    requires BucketsOf(rows, buckets)
    ensures BucketsOf(rows + [r],
                      buckets[r.position := (if r.position in buckets then buckets[r.position] else []) + [r]])
  {
    hide Select, PositionsOf;
    PositionsOfAppend(rows, r);
    PositiveCount(rows, r.position);
    forall p
      ensures RowsAt(rows + [r], p) == if r.position == p then RowsAt(rows, p) + [r] else RowsAt(rows, p)
    {
      RowsAtAppend(rows, r, p);
    }
  }

  /** Fill the buckets: a dictionary from position to its rows, with its key order. */
  method FillBuckets(rows: seq<RawRow>) returns (order: seq<Position>, buckets: map<Position, seq<RawRow>>)
    ensures order == FirstSeen(rows)
    ensures BucketsOf(rows, buckets)
  {
    order, buckets := [], map[];
    for i := 0 to |rows|
      invariant order == FirstSeen(rows[..i])
      invariant BucketsOf(rows[..i], buckets)
    {
      var row := rows[i];
      FirstSeenAppend(rows[..i], row);
      FirstSeenListsPositions(rows[..i]);
      BucketsAppend(rows[..i], buckets, row);
      if row.position in buckets {
        buckets := buckets[row.position := buckets[row.position] + [row]];
      } else {
        order := order + [row.position];
        buckets := buckets[row.position := [] + [row]];
      }
      assert rows[..i + 1] == rows[..i] + [row];
    }
    assert rows[..|rows|] == rows;
  }

  /** The dictionary comprehension that takes the k-th row of every bucket. */
  method TakeSlice(rows: seq<RawRow>, order: seq<Position>, buckets: map<Position, seq<RawRow>>, k: nat)
    returns (sliceOrder: seq<Position>, slice: map<Position, RawRow>)
    requires forall p :: p in order <==> p in buckets
    requires BucketsOf(rows, buckets)
    ensures sliceOrder == Select(order, DeeperThan(rows, k))
    ensures slice == SliceRows(rows, k)
  {
    sliceOrder, slice := [], map[];
    for i := 0 to |order|
      invariant sliceOrder == Select(order[..i], DeeperThan(rows, k))
      invariant forall p :: p in slice <==> p in order[..i] && k < |buckets[p]|
      invariant forall p :: p in slice ==> slice[p] == buckets[p][k]
    {
      var p := order[i];
      SelectPush(order[..i], p, DeeperThan(rows, k));
      assert order[..i + 1] == order[..i] + [p];
      if k < |buckets[p]| {
        sliceOrder := sliceOrder + [p];
        slice := slice[p := buckets[p][k]];
      }
    }
    assert order[..|order|] == order;
    SliceFromBuckets(rows, buckets, k, slice);
  }

  lemma SliceFromBuckets(rows: seq<RawRow>, buckets: map<Position, seq<RawRow>>, k: nat, slice: map<Position, RawRow>)
    requires BucketsOf(rows, buckets)
    requires forall p :: p in slice <==> p in buckets && k < |buckets[p]|
    requires forall p :: p in slice ==> slice[p] == buckets[p][k]
    ensures slice == SliceRows(rows, k)
  {
    assert slice.Keys == SlicePositions(rows, k);
  }

  lemma MaxOccurrence(g: TimestampGroup)
    requires WellFormedGroup(g)
    ensures forall p :: CountAt(g.rows, p) <= DescribeOccupancy(g).maxOccurrence
    ensures g.rows != [] ==>
            exists p :: p in PositionsOf(g.rows) && CountAt(g.rows, p) == DescribeOccupancy(g).maxOccurrence
    ensures g.rows != [] ==> DescribeOccupancy(g).maxOccurrence > 0
  {
    var top := DescribeOccupancy(g).maxOccurrence;
    forall p
      ensures CountAt(g.rows, p) <= top
    {
      PositiveCount(g.rows, p);
      if p in g.occurrences {
        assert g.occurrences[p] in g.occurrences.Values;
      }
    }
    if g.rows != [] {
      var p := g.rows[0].position;
      assert p in PositionsOf(g.rows);
      PositiveCount(g.rows, p);
      assert top in g.occurrences.Values;
    }
  }

  lemma SortedBuckets(rows: seq<RawRow>, buckets: map<Position, seq<RawRow>>)
    requires SourceIndexed(rows)
    requires BucketsOf(Sort(rows, SlotLe), buckets)
    ensures BucketsOf(rows, buckets)
    ensures forall p :: p in FirstSeen(Sort(rows, SlotLe)) <==> p in buckets
  {
    var sorted := Sort(rows, SlotLe);
    MembersFromMultiset(sorted, rows);
    assert PositionsOf(sorted) == PositionsOf(rows);
    FirstSeenListsPositions(sorted);
    forall p | p in buckets
      ensures buckets[p] == RowsAt(rows, p)
    {
      SortedColumns(rows, p);
    }
  }

  /** The overflow branch: the first row of every bucket, boundaries unknown. */
  method MergeOverflow(
      g: TimestampGroup, occupancy: Occupancy, maxFrames: int,
      order: seq<Position>, buckets: map<Position, seq<RawRow>>)
    returns (candidate: FrameCandidate)
    requires order == BucketOrder(g) && BucketsOf(g.rows, buckets)
    requires forall p :: p in order <==> p in buckets
    requires occupancy == DescribeOccupancy(g)
    ensures candidate == OverflowCandidate(g, maxFrames)
  {
    FirstSliceIsWhole(g.rows);
    SelectAll(order, DeeperThan(g.rows, 0));
    var whole, merged := TakeSlice(g.rows, order, buckets, 0);
    candidate := FrameCandidate(0, whole, merged, g.expected, AMBIGUOUS_STATUS, false,
                                Overflow(occupancy.ImpliedFrameCount(), maxFrames));
  }

  method BuildFrameCandidates(g: TimestampGroup, severeBelowPct: real, maxFrames: int)
    returns (candidates: seq<FrameCandidate>, occupancy: Occupancy)
    requires WellFormedGroup(g)
    ensures occupancy == DescribeOccupancy(g)
    ensures candidates == Candidates(g, severeBelowPct, maxFrames)
  {
    hide DescribeOccupancy, SliceRows, AssembleCandidate, BucketsOf, FirstSeen, Sort, Select, SourceIndexed;
    occupancy := DescribeOccupancy(g);
    if g.rows == [] {
      return [], occupancy;
    }
    var order, buckets := FillBuckets(Sort(g.rows, SlotLe));
    SortedBuckets(g.rows, buckets);
    var frameCount := occupancy.ImpliedFrameCount();
    if frameCount > maxFrames {
      var merged := MergeOverflow(g, occupancy, maxFrames, order, buckets);
      return [merged], occupancy;
    }
    candidates := [];
    var firstSize: Option<nat> := None;
    for sequence := 0 to frameCount
      invariant candidates == SliceCandidates(g, severeBelowPct, sequence)
      invariant firstSize == if sequence == 0 then None else Some(|SliceRows(g.rows, 0).Keys|)
    {
      var sliceOrder, slice := TakeSlice(g.rows, order, buckets, sequence);
      var candidate := AssembleCandidate(
        g.expected, occupancy, severeBelowPct, sequence, sliceOrder, slice, firstSize);
      candidates := candidates + [candidate];
      if sequence == 0 {
        firstSize := Some(|slice.Keys|);
      }
    }
  }

  /** The status of a frame that observes these positions. */
  ghost predicate StatusReads(
      observed: set<Position>, expected: set<Position>, severeBelowPct: real, status: FrameStatus)
  {
    var share, limit := 100.0 * |observed| as real, severeBelowPct * |expected| as real;
    && (status == MALFORMED <==> !(observed <= expected))
    && (status == AMBIGUOUS_STATUS <==> observed == {} && expected == {})
    && (status == COMPLETE <==> observed == expected && expected != {})
    && (status == SEVERELY_INCOMPLETE <==> observed < expected && share < limit)
    && (status == PARTIAL <==> observed < expected && share >= limit)
  }

  lemma SubsetCounts(a: set<Position>, b: set<Position>)
    requires a <= b
    ensures |a| <= |b| && (|a| == |b| <==> a == b)
  {
    assert b == a + (b - a);
    assert |b| == |a| + |b - a|;
  }

  lemma ClassifiedReads(observed: set<Position>, expected: set<Position>, pct: real)
    ensures StatusReads(observed, expected, pct, ClassifyStatus(|observed|, |expected|, |observed - expected|, pct))
  {
    forall p | p in observed
      ensures observed - expected == {} ==> p in expected
    {
      assert p in expected || p in observed - expected;
    }
    if observed <= expected {
      SubsetCounts(observed, expected);
    }
    if expected != {} {
      QuotientBelow(100.0 * |observed| as real, |expected| as real, pct);
    }
  }

  /** What a slice's status says about its positions. */
  lemma StatusMeaning(g: TimestampGroup, severeBelowPct: real, k: nat)
    ensures var c := SliceCandidate(g, severeBelowPct, k);
            StatusReads(c.rowsByPosition.Keys, g.expected, severeBelowPct, c.status)
  {
    hide DescribeOccupancy, BucketOrder, SliceRows, ClassifyStatus, StatusReads, Occupancy.ImpliedFrameCount;
    ClassifiedReads(SliceRows(g.rows, k).Keys, g.expected, severeBelowPct);
  }

  // ----- slicing is an exact partition into a chain

  lemma FirstSliceIsWhole(rows: seq<RawRow>)
    ensures SlicePositions(rows, 0) == PositionsOf(rows)
  {
    forall p | p in PositionsOf(rows)
      ensures p in SlicePositions(rows, 0)
    {
      PositiveCount(rows, p);
    }
  }

  /** Frame k holds exactly the rows whose occurrence index is k. */
  lemma SliceHoldsOccurrence(g: TimestampGroup, k: nat, r: RawRow)
    requires SourceIndexed(g.rows)
    ensures (r.position in SliceRows(g.rows, k) && SliceRows(g.rows, k)[r.position] == r)
            <==> (r in g.rows && r.occurrence == k)
  {
    var p := r.position;
    ColumnIndexed(g.rows, p);
    if r in g.rows {
      RowInColumn(g.rows, r);
      assert p in PositionsOf(g.rows);
    }
    if p in SliceRows(g.rows, k) && SliceRows(g.rows, k)[p] == r {
      assert RowsAt(g.rows, p)[k] == r;
    }
  }

  /** The position sets of successive frames descend, from all positions seen. */
  lemma SlicesDescend(g: TimestampGroup, k: nat)
    ensures SlicePositions(g.rows, 0) == PositionsOf(g.rows)
    ensures SlicePositions(g.rows, k + 1) <= SlicePositions(g.rows, k) <= SlicePositions(g.rows, 0)
  {
    FirstSliceIsWhole(g.rows);
  }

  lemma SliceNumbersAscend(g: TimestampGroup, p: Position, j: nat, k: nat)
    requires SourceIndexed(g.rows)
    requires j < k && p in SliceRows(g.rows, k)
    ensures p in SliceRows(g.rows, j)
    ensures SliceRows(g.rows, j)[p].position == SliceRows(g.rows, k)[p].position == p
    ensures SliceRows(g.rows, j)[p].number < SliceRows(g.rows, k)[p].number
  {
    ColumnIndexed(g.rows, p);
    ColumnAscends(g.rows, p);
  }

  /** No sequence number is skipped: every slice below the implied count has a row. */
  lemma SlicesOccupied(g: TimestampGroup, k: nat)
    requires WellFormedGroup(g) && g.rows != []
    ensures SlicePositions(g.rows, k) != {} <==> k < DescribeOccupancy(g).ImpliedFrameCount()
  {
    MaxOccurrence(g);
    var top := DescribeOccupancy(g).maxOccurrence;
    var p :| p in PositionsOf(g.rows) && CountAt(g.rows, p) == top;
    if k < top {
      assert p in SlicePositions(g.rows, k);
    } else {
      assert forall q :: CountAt(g.rows, q) <= k;
    }
  }

  ghost function SliceTotal(rows: seq<RawRow>, n: nat): nat {
    if n == 0 then 0 else SliceTotal(rows, n - 1) + |SlicePositions(rows, n - 1)|
  }

  lemma SliceGrows(init: seq<RawRow>, last: RawRow, k: nat)
    ensures SlicePositions(init + [last], k)
            == if k == CountAt(init, last.position) then SlicePositions(init, k) + {last.position}
               else SlicePositions(init, k)
    ensures k == CountAt(init, last.position) ==> last.position !in SlicePositions(init, k)
  {
    var rows := init + [last];
    assert PositionsOf(rows) == PositionsOf(init) + {last.position};
    forall p
      ensures CountAt(rows, p) == CountAt(init, p) + if p == last.position then 1 else 0
    {
      RowsAtAppend(init, last, p);
    }
    PositiveCount(init, last.position);
  }

  lemma {:induction false} SliceTotalGrows(init: seq<RawRow>, last: RawRow, n: nat)
    ensures SliceTotal(init + [last], n)
            == SliceTotal(init, n) + if CountAt(init, last.position) < n then 1 else 0
  {
    hide SlicePositions, CountAt;
    if n > 0 {
      SliceTotalGrows(init, last, n - 1);
      SliceGrows(init, last, n - 1);
    }
  }

  lemma CountMonotone(init: seq<RawRow>, last: RawRow, p: Position)
    ensures CountAt(init, p) <= CountAt(init + [last], p)
    ensures CountAt(init, last.position) < CountAt(init + [last], last.position)
  {
    RowsAtAppend(init, last, p);
    RowsAtAppend(init, last, last.position);
  }

  /** Every row lands in exactly one slice. */
  lemma {:induction false} SlicesCountEveryRow(rows: seq<RawRow>, n: nat)
    requires forall p :: CountAt(rows, p) <= n
    ensures SliceTotal(rows, n) == |rows|
  {
    if rows == [] {
      SliceTotalEmpty(n);
    } else {
      var init, last := rows[..|rows| - 1], rows[|rows| - 1];
      assert rows == init + [last];
      forall p
        ensures CountAt(init, p) <= n
      {
        CountMonotone(init, last, p);
      }
      CountMonotone(init, last, last.position);
      SlicesCountEveryRow(init, n);
      SliceTotalGrows(init, last, n);
    }
  }

  lemma {:induction false} SliceTotalEmpty(n: nat)
    ensures SliceTotal([], n) == 0
  {
    if n > 0 {
      SliceTotalEmpty(n - 1);
      assert SlicePositions([], n - 1) == {};
    }
  }
}
