/** What each part of a frame says of the group's rows and the expected positions: how many
    frames, which rows, which status, note and issues. */
module FrameFacts {
  import opened Sorting
  import opened FrameModels
  import opened FrameBuilder
  import opened ReplayDetector
  import opened ReplayLaws
  import opened Losslessness

  // ----- the frames of a group

  /** Some row of the group is the k-th, counting from none, at its position `p`. */
  ghost predicate HasOccurrence(rows: seq<RawRow>, p: Position, k: nat) {
    exists r :: r in rows && r.position == p && r.occurrence == k
  }

  /** Two positions have different numbers of rows. */
  ghost predicate UnevenRows(rows: seq<RawRow>) {
    exists q, r :: q in rows && r in rows && !HasOccurrence(rows, q.position, r.occurrence)
  }

  /** The frame with this sequence holds the row of that occurrence at every position
      which has one. */
  ghost predicate RowsRead(rows: seq<RawRow>, slice: map<Position, RawRow>, k: nat) {
    && (forall p :: p in slice <==> HasOccurrence(rows, p, k))
    && forall p :: p in slice ==> slice[p] in rows && slice[p].position == p && slice[p].occurrence == k
  }

  /** Frame k of a group within the limit, read off the group's rows. */
  ghost predicate FrameRead(g: TimestampGroup, pct: real, c: FrameCandidate, first: FrameCandidate, k: nat) {
    && c.sequence == k && c.expected == g.expected
    && RowsRead(g.rows, c.rowsByPosition, k)
    && StatusReads(c.rowsByPosition.Keys, g.expected, pct, c.status)
    && (c.isFragment <==> c.rowsByPosition.Keys != first.rowsByPosition.Keys)
    && c.note == (if c.isFragment then Fragment(|c.rowsByPosition.Keys|, |first.rowsByPosition.Keys|)
                  else if k == 0 && UnevenRows(g.rows) then Uneven else NoNote)
  }

  lemma SliceKeys(rows: seq<RawRow>, k: nat, p: Position)
    requires SourceIndexed(rows)
    ensures p in SlicePositions(rows, k) <==> HasOccurrence(rows, p, k)
  {
    if p in SlicePositions(rows, k) {
      ColumnIndexed(rows, p);
      assert RowsAt(rows, p)[k] in rows;
    }
    if r :| r in rows && r.position == p && r.occurrence == k {
      RowInColumn(rows, r);
      assert p in PositionsOf(rows);
    }
  }

  lemma EvenReads(g: TimestampGroup)
    requires WellFormedGroup(g)
    ensures DescribeOccupancy(g).isEven <==> forall p, q :: p in g.occurrences && q in g.occurrences ==>
                                               g.occurrences[p] == g.occurrences[q]
  {
    var counts := g.occurrences.Values;
    forall p | p in g.occurrences
      ensures g.occurrences[p] in counts
    {
    }
    AtMostOne(counts);
    if forall p, q :: p in g.occurrences && q in g.occurrences ==> g.occurrences[p] == g.occurrences[q] {
      forall a, b | a in counts && b in counts
        ensures a == b
      {
        var p :| p in g.occurrences && g.occurrences[p] == a;
        var q :| q in g.occurrences && g.occurrences[q] == b;
      }
    }
  }

  lemma AtMostOne(counts: set<nat>)
    ensures |counts| <= 1 <==> forall a, b :: a in counts && b in counts ==> a == b
  {
    if a, b :| a in counts && b in counts && a != b {
      assert {a, b} <= counts;
      assert counts == {a, b} + (counts - {a, b});
    }
    if |counts| > 1 {
      var a :| a in counts;
      assert |counts - {a}| > 0;
      var b :| b in counts - {a};
    }
  }

  lemma DepthReads(rows: seq<RawRow>, p: Position, k: nat)
    requires SourceIndexed(rows)
    ensures k < CountAt(rows, p) <==> HasOccurrence(rows, p, k)
  {
    hide CountAt, HasOccurrence, RowsAt;
    SliceKeys(rows, k, p);
    PositiveCount(rows, p);
  }

  lemma UnevenReads(g: TimestampGroup)
    requires WellFormedGroup(g)
    ensures DescribeOccupancy(g).isEven <==> !UnevenRows(g.rows)
  {
    hide HasOccurrence, CountAt, SourceIndexed, DescribeOccupancy;
    var rows := g.rows;
    EvenReads(g);
    if UnevenRows(rows) {
      var q, r :| q in rows && r in rows && !HasOccurrence(rows, q.position, r.occurrence);
      DepthReads(rows, q.position, r.occurrence);
      OwnOccurrence(rows, r);
      DepthReads(rows, r.position, r.occurrence);
      assert q.position in PositionsOf(rows) && r.position in PositionsOf(rows);
    } else {
      forall p, q | p in g.occurrences && q in g.occurrences
        ensures g.occurrences[p] <= g.occurrences[q]
      {
        if CountAt(rows, p) > CountAt(rows, q) {
          DepthReads(rows, p, CountAt(rows, q));
          DepthReads(rows, q, CountAt(rows, q));
          var r := RowOf(rows, p, CountAt(rows, q));
          UnevenAt(rows, q, r);
          assert false;
        }
      }
    }
  }

  lemma UnevenAt(rows: seq<RawRow>, p: Position, r: RawRow)
    requires p in PositionsOf(rows) && r in rows && !HasOccurrence(rows, p, r.occurrence)
    ensures UnevenRows(rows)
  {
    var q :| q in rows && q.position == p;
  }

  lemma OwnOccurrence(rows: seq<RawRow>, r: RawRow)
    requires r in rows
    ensures HasOccurrence(rows, r.position, r.occurrence)
  {
  }

  lemma RowOf(rows: seq<RawRow>, p: Position, k: nat) returns (r: RawRow)
    requires HasOccurrence(rows, p, k)
    ensures r in rows && r.position == p && r.occurrence == k
  {
    r :| r in rows && r.position == p && r.occurrence == k;
  }

  /** With two rows at some position there is more than one frame. */
  lemma UnevenIsDeep(g: TimestampGroup)
    requires WellFormedGroup(g) && UnevenRows(g.rows)
    ensures DescribeOccupancy(g).ImpliedFrameCount() > 1
  {
    hide DescribeOccupancy, HasOccurrence, SlicePositions;
    var q, r :| q in g.rows && r in g.rows && !HasOccurrence(g.rows, q.position, r.occurrence);
    OccurrenceBelowCount(g, r);
    if r.occurrence == 0 {
      PositiveCount(g.rows, q.position);
      assert q.position in PositionsOf(g.rows);
      DepthReads(g.rows, q.position, 0);
      assert false;
    }
  }

  lemma SliceFields(g: TimestampGroup, pct: real, k: nat)
    ensures var c, slice := SliceCandidate(g, pct, k), SliceRows(g.rows, k);
            var observed, first := |slice.Keys|, |SliceRows(g.rows, 0).Keys|;
            && c.sequence == k && c.expected == g.expected && c.rowsByPosition == slice
            && c.status == ClassifyStatus(observed, |g.expected|, |slice.Keys - g.expected|, pct)
            && (c.isFragment <==> k > 0 && observed < first)
            && c.note == (if c.isFragment then Fragment(observed, first)
                          else if !DescribeOccupancy(g).isEven && k == 0 && DescribeOccupancy(g).ImpliedFrameCount() > 1
                          then Uneven else NoNote)
  {
    hide DescribeOccupancy, BucketOrder, SliceRows, ClassifyStatus, Select, Occupancy.ImpliedFrameCount;
  }

  lemma SliceRead(g: TimestampGroup, pct: real, k: nat)
    requires WellFormedGroup(g)
    ensures FrameRead(g, pct, SliceCandidate(g, pct, k), SliceCandidate(g, pct, 0), k)
  {
    hide WellFormedGroup, DescribeOccupancy, SliceCandidate, SliceRows, StatusReads, ClassifyStatus, UnevenRows,
      Occupancy.ImpliedFrameCount, RowsRead, SlicePositions;
    SliceFields(g, pct, k);
    SliceFields(g, pct, 0);
    StatusMeaning(g, pct, k);
    SlicesDescend(g, k);
    SliceKeysAre(g.rows, k);
    SliceKeysAre(g.rows, 0);
    SubsetCounts(SliceRows(g.rows, k).Keys, SliceRows(g.rows, 0).Keys);
    UnevenReads(g);
    if UnevenRows(g.rows) {
      UnevenIsDeep(g);
    }
    SliceRowsRead(g, k);
  }

  /** Every frame of a group within the limit: its rows, status, mark and note. */
  lemma FramesRead(g: TimestampGroup, pct: real, maxFrames: int, k: nat)
    requires WellFormedGroup(g) && !Overflows(g, maxFrames)
    requires k < |Candidates(g, pct, maxFrames)|
    ensures var cs := Candidates(g, pct, maxFrames); FrameRead(g, pct, cs[k], cs[0], k)
  {
    hide WellFormedGroup, DescribeOccupancy, SliceCandidate, FrameRead, Occupancy.ImpliedFrameCount;
    SliceRead(g, pct, k);
  }

  lemma SliceKeysAre(rows: seq<RawRow>, k: nat)
    ensures SliceRows(rows, k).Keys == SlicePositions(rows, k)
  {
  }

  lemma SliceRowsRead(g: TimestampGroup, k: nat)
    requires WellFormedGroup(g)
    ensures RowsRead(g.rows, SliceRows(g.rows, k), k)
  {
    hide SourceIndexed, SlicePositions, HasOccurrence;
    forall p
      ensures p in SliceRows(g.rows, k) <==> HasOccurrence(g.rows, p, k)
    {
      SliceKeys(g.rows, k, p);
    }
    forall p | p in SliceRows(g.rows, k)
      ensures var r := SliceRows(g.rows, k)[p]; r in g.rows && r.position == p && r.occurrence == k
    {
      SliceRowsAreRows(g.rows, k, p);
    }
  }

  // ----- how many frames there are

  lemma TopOccurrence(g: TimestampGroup) returns (r: RawRow)
    requires WellFormedGroup(g) && g.rows != []
    ensures r in g.rows && r.occurrence + 1 == DescribeOccupancy(g).ImpliedFrameCount()
    ensures forall q :: q in g.rows ==> q.occurrence <= r.occurrence
  {
    hide DescribeOccupancy, CountAt, WellFormedGroup, Occupancy.ImpliedFrameCount;
    MaxOccurrence(g);
    TopIsCount(g);
    var top := DescribeOccupancy(g).maxOccurrence;
    var p :| p in PositionsOf(g.rows) && CountAt(g.rows, p) == top;
    GroupIndexed(g);
    DepthReads(g.rows, p, top - 1);
    r := RowOf(g.rows, p, top - 1);
    forall q | q in g.rows
      ensures q.occurrence < top
    {
      OccurrenceBelowCount(g, q);
    }
  }

  lemma GroupIndexed(g: TimestampGroup)
    requires WellFormedGroup(g)
    ensures SourceIndexed(g.rows)
  {
  }

  lemma TopIsCount(g: TimestampGroup)
    ensures DescribeOccupancy(g).maxOccurrence > 0 ==>
              DescribeOccupancy(g).ImpliedFrameCount() == DescribeOccupancy(g).maxOccurrence
  {
    hide DescribeOccupancy;
  }

  /** A group overflows exactly when some row has as many before it at its position as the
      limit allows frames; without one, the frames end with the last row's. */
  lemma FrameCountRead(g: TimestampGroup, pct: real, maxFrames: int)
    requires WellFormedGroup(g)
    ensures var cs := Candidates(g, pct, maxFrames);
            && (Overflows(g, maxFrames) <==> exists r :: r in g.rows && r.occurrence >= maxFrames)
            && (g.rows == [] <==> cs == [])
            && (!Overflows(g, maxFrames) ==>
                  && (forall r :: r in g.rows ==> r.occurrence < |cs|)
                  && forall k :: 0 <= k < |cs| ==> cs[k].rowsByPosition != map[])
  {
    hide WellFormedGroup, DescribeOccupancy, SliceCandidate, OverflowCandidate, Occupancy.ImpliedFrameCount,
      HasOccurrence, FrameRead;
    if g.rows != [] {
      var top := TopOccurrence(g);
      GroupIndexed(g);
      var cs := Candidates(g, pct, maxFrames);
      if !Overflows(g, maxFrames) {
        forall k | 0 <= k < |cs|
          ensures cs[k].rowsByPosition != map[]
        {
          LowerOccurrence(g.rows, top, k);
          FramesRead(g, pct, maxFrames, k);
          HoldsSome(g, pct, cs[k], cs[0], k, top.position);
        }
      }
    }
  }

  lemma HoldsSome(g: TimestampGroup, pct: real, c: FrameCandidate, first: FrameCandidate, k: nat, p: Position)
    requires FrameRead(g, pct, c, first, k) && HasOccurrence(g.rows, p, k)
    ensures c.rowsByPosition != map[]
  {
    assert p in c.rowsByPosition;
  }

  lemma LowerOccurrence(rows: seq<RawRow>, r: RawRow, k: nat)
    requires SourceIndexed(rows)
    requires r in rows && k <= r.occurrence
    ensures HasOccurrence(rows, r.position, k)
  {
    hide HasOccurrence, CountAt;
    OwnOccurrence(rows, r);
    DepthReads(rows, r.position, r.occurrence);
    DepthReads(rows, r.position, k);
  }

  /** The one candidate of an overflowing group: the first row of every position, its
      status and note, with the number of frames the group would have needed. */
  lemma OverflowRead(g: TimestampGroup, pct: real, maxFrames: int)
    requires WellFormedGroup(g) && Overflows(g, maxFrames)
    ensures var cs := Candidates(g, pct, maxFrames);
            && |cs| == 1 && cs[0].sequence == 0 && cs[0].expected == g.expected
            && RowsRead(g.rows, cs[0].rowsByPosition, 0)
            && cs[0].status == AMBIGUOUS_STATUS && !cs[0].isFragment
            && cs[0].note.Overflow? && cs[0].note.maximum == maxFrames
            && (exists r :: r in g.rows && r.occurrence + 1 == cs[0].note.frameCount)
            && forall r :: r in g.rows ==> r.occurrence < cs[0].note.frameCount
  {
    hide WellFormedGroup, DescribeOccupancy, BucketOrder, SliceRows, Occupancy.ImpliedFrameCount, RowsRead;
    SliceRowsRead(g, 0);
    var top := TopOccurrence(g);
  }

  // ----- successive frames

  /** A frame's boundary is called ambiguous exactly when its group overflows. Without
      expected positions every frame is malformed, not ambiguous. */
  lemma AmbiguousIffOverflow(g: TimestampGroup, pct: real, maxFrames: int, k: nat)
    requires WellFormedGroup(g) && k < |Candidates(g, pct, maxFrames)|
    ensures var c := Candidates(g, pct, maxFrames)[k];
            && (c.status == AMBIGUOUS_STATUS <==> Overflows(g, maxFrames))
            && (g.expected == {} && !Overflows(g, maxFrames) ==> c.status == MALFORMED)
  {
    hide WellFormedGroup, Candidates, Overflows, HasOccurrence, UnevenRows;
    if Overflows(g, maxFrames) {
      OverflowRead(g, pct, maxFrames);
    } else {
      FramesRead(g, pct, maxFrames, k);
      FrameCountRead(g, pct, maxFrames);
      var c := Candidates(g, pct, maxFrames)[k];
      assert c.rowsByPosition.Keys != {};
    }
  }

  function Grade(status: FrameStatus): nat {
    match status
    case COMPLETE => 0
    case PARTIAL => 1
    case SEVERELY_INCOMPLETE => 2
    case MALFORMED => 3
    case AMBIGUOUS_STATUS => 4
  }

  lemma FewerIsNoMilder(a: set<Position>, b: set<Position>, expected: set<Position>, pct: real,
                        status: FrameStatus, other: FrameStatus)
    requires a <= b <= expected && expected != {}
    requires StatusReads(a, expected, pct, status) && StatusReads(b, expected, pct, other)
    ensures Grade(other) <= Grade(status) <= 2
  {
    SubsetCounts(a, b);
    SubsetCounts(a, expected);
    SubsetCounts(b, expected);
  }

  /** Once a frame stays within a non-empty expectation all later ones do, and none of them
      has a milder status. */
  lemma StatusesNeverMilder(g: TimestampGroup, pct: real, maxFrames: int, j: nat, k: nat)
    requires WellFormedGroup(g) && !Overflows(g, maxFrames)
    requires j <= k < |Candidates(g, pct, maxFrames)|
    requires g.expected != {}
    requires Candidates(g, pct, maxFrames)[j].rowsByPosition.Keys <= g.expected
    ensures var cs := Candidates(g, pct, maxFrames);
            && cs[k].rowsByPosition.Keys <= cs[j].rowsByPosition.Keys
            && cs[k].status != MALFORMED
            && Grade(cs[j].status) <= Grade(cs[k].status)
  {
    hide WellFormedGroup, Candidates, Overflows, HasOccurrence, UnevenRows, StatusReads, Grade;
    var cs := Candidates(g, pct, maxFrames);
    FramesRead(g, pct, maxFrames, j);
    FramesRead(g, pct, maxFrames, k);
    GroupIndexed(g);
    forall p | p in cs[k].rowsByPosition
      ensures p in cs[j].rowsByPosition
    {
      var r := RowOf(g.rows, p, k);
      LowerOccurrence(g.rows, r, j);
    }
    FewerIsNoMilder(cs[k].rowsByPosition.Keys, cs[j].rowsByPosition.Keys, g.expected, pct, cs[k].status, cs[j].status);
    GradeOfMalformed();
  }

  lemma GradeOfMalformed()
    ensures forall s :: s == MALFORMED <==> Grade(s) == 3
  {
  }

  // ----- occupancy

  /** What a group's occupancy says of its rows. */
  lemma OccupancyRead(g: TimestampGroup)
    requires WellFormedGroup(g)
    ensures var o := DescribeOccupancy(g);
            && o.rawRowCount == |g.rows| + |g.unassignedRows|
            && o.expectedCount == |g.expected|
            && o.observedCount == |PositionsOf(g.rows)|
            && (forall p :: p in o.missing <==> p in g.expected && p !in PositionsOf(g.rows))
            && (forall p :: p in o.unexpected <==> p in PositionsOf(g.rows) && p !in g.expected)
            && (forall p :: p in PositionsOf(g.rows) ==> o.minOccurrence <= CountAt(g.rows, p) <= o.maxOccurrence)
            && (g.rows == [] ==> o.minOccurrence == o.maxOccurrence == 0)
            && (g.rows != [] ==>
                  && (exists p :: p in PositionsOf(g.rows) && CountAt(g.rows, p) == o.minOccurrence)
                  && exists p :: p in PositionsOf(g.rows) && CountAt(g.rows, p) == o.maxOccurrence)
            && (o.isEven <==> !UnevenRows(g.rows))
  {
    hide SourceIndexed, CountAt, UnevenRows;
    UnevenReads(g);
    var counts := g.occurrences.Values;
    forall p | p in PositionsOf(g.rows)
      ensures CountAt(g.rows, p) in counts
    {
      assert p in g.occurrences && g.occurrences[p] in counts;
    }
    if g.rows == [] {
      assert counts == {};
    } else {
      assert g.rows[0].position in PositionsOf(g.rows);
      MaxAttained(counts);
      MinAttained(counts);
    }
    MinBounds(counts);
  }

  lemma MinBounds(s: set<nat>)
    ensures forall x :: x in s ==> MinOf(s) <= x
  {
    if s != {} {
      MinExists(s);
    }
  }

  lemma MinAttained(s: set<nat>)
    requires s != {}
    ensures MinOf(s) in s
  {
    MinExists(s);
  }

  lemma MaxAttained(s: set<nat>)
    requires s != {}
    ensures MaxOf(s) in s
  {
    var x: nat :| x in s;
    assert x <= MaxOf(s);
  }

  // ----- the order of a frame's positions

  /** The first row of the group at `p` comes before the first at `q`. */
  ghost predicate Precedes(rows: seq<RawRow>, p: Position, q: Position) {
    forall a, b :: a in rows && b in rows && a.position == p && b.position == q && a.occurrence == b.occurrence == 0 ==>
      a.number < b.number
  }

  lemma {:induction false} FirstSeenEarlier(rows: seq<RawRow>, i: nat, j: nat) returns (at: int)
    requires i < j < |FirstSeen(rows)|
    ensures 0 <= at < |rows| && rows[at].position == FirstSeen(rows)[i]
    ensures forall b :: 0 <= b < |rows| && rows[b].position == FirstSeen(rows)[j] ==> at < b
  {
    var n := |rows| - 1;
    var init := rows[..n];
    FirstSeenListsPositions(init);
    if j < |FirstSeen(init)| {
      at := FirstSeenEarlier(init, i, j);
    } else {
      assert FirstSeen(rows)[i] in PositionsOf(init);
      var r :| r in init && r.position == FirstSeen(rows)[i];
      at :| 0 <= at < n && init[at] == r;
    }
    assert forall b :: 0 <= b < n ==> init[b] == rows[b];
  }

  lemma {:induction false} BucketsPrecede(g: TimestampGroup, i: nat, j: nat)
    requires WellFormedGroup(g) && i < j < |BucketOrder(g)|
    ensures Precedes(g.rows, BucketOrder(g)[i], BucketOrder(g)[j])
  {
    hide FirstSeen, Sort, SourceIndexed, PositionsOf, CountAt;
    var sorted := Sort(g.rows, SlotLe);
    MembersFromMultiset(sorted, g.rows);
    SlotLeIsPreorder();
    SortAscends(g.rows, SlotLe);
    var at := FirstSeenEarlier(sorted, i, j);
    var p, q := BucketOrder(g)[i], BucketOrder(g)[j];
    forall a, b | a in g.rows && b in g.rows && a.position == p && b.position == q && a.occurrence == b.occurrence == 0
      ensures a.number < b.number
    {
      var k :| 0 <= k < |sorted| && sorted[k] == b;
      assert SlotLe(sorted[at], sorted[k]);
      assert sorted[at] in g.rows;
      RowInColumn(g.rows, a);
      RowInColumn(g.rows, sorted[at]);
      BucketsDiffer(g, i, j);
      NumbersName(g.rows, a, b);
    }
  }

  lemma BucketsDiffer(g: TimestampGroup, i: nat, j: nat)
    requires i < j < |BucketOrder(g)|
    ensures BucketOrder(g)[i] != BucketOrder(g)[j]
  {
    hide FirstSeen, Sort;
    FirstSeenListsPositions(Sort(g.rows, SlotLe));
  }

  /** A frame lists each of its positions once, in the order of the group's first rows. */
  lemma OrderRead(g: TimestampGroup, pct: real, maxFrames: int, k: nat)
    requires WellFormedGroup(g) && k < |Candidates(g, pct, maxFrames)|
    ensures var c := Candidates(g, pct, maxFrames)[k];
            && (forall p :: p in c.order <==> p in c.rowsByPosition)
            && Distinct(c.order)
            && forall i, j :: 0 <= i < j < |c.order| ==> Precedes(g.rows, c.order[i], c.order[j])
  {
    hide WellFormedGroup, DescribeOccupancy, Precedes, BucketOrder, Select, SliceRows, ClassifyStatus,
      Occupancy.ImpliedFrameCount, Sort, FirstSeen;
    CandidatesListed(g, pct, maxFrames);
    var order := BucketOrder(g);
    var precedes := (p, q) => Precedes(g.rows, p, q);
    forall i, j | 0 <= i < j < |order|
      ensures precedes(order[i], order[j]) && order[i] != order[j]
    {
      BucketsPrecede(g, i, j);
      BucketsDiffer(g, i, j);
    }
    SelectAscends(order, DeeperThan(g.rows, k), precedes);
    SelectDistinct(order, DeeperThan(g.rows, k));
    var c := Candidates(g, pct, maxFrames)[k];
    assert c.order == order || c.order == Select(order, DeeperThan(g.rows, k));
    ListsOwn(c);
    assert Ascending(c.order, precedes);
  }

  lemma ListsOwn(c: FrameCandidate)
    requires Listed(c)
    ensures forall p :: p in c.order <==> p in c.rowsByPosition
  {
    assert c.Payload().Keys == c.rowsByPosition.Keys;
  }
}
