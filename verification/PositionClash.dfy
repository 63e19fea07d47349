/** Frames are fingerprinted under the text of their positions. When two positions
    render to the same text, one reading hides another and a row can be lost. */
module PositionClash {
  import opened Sorting
  import opened FrameModels
  import opened CanonicalSerializer
  import opened FrameBuilder
  import opened ReplayDetector
  import opened ReplayLaws

  function ZeroDigest(): Digest {
    seq(64, _ => '0')
  }

  function OneDigest(): Digest {
    seq(64, _ => '1')
  }

  function TwoDigest(): Digest {
    seq(64, _ => '2')
  }

  /** Two frames over p and q that differ at p only; no row is read alike at both. */
  function ClashRows(p: Position, q: Position): seq<RawRow> {
    [RawRow(0, p, 0, ZeroDigest(), false), RawRow(1, q, 0, TwoDigest(), false),
     RawRow(2, p, 1, OneDigest(), false), RawRow(3, q, 1, TwoDigest(), false)]
  }

  function ClashGroup(p: Position, q: Position): TimestampGroup {
    TimestampGroup(GroupKey("charger", 0), ClashRows(p, q), {p, q}, map[p := 2, q := 2], [])
  }

  lemma ClashPrefixes(p: Position, q: Position)
    ensures var rows := ClashRows(p, q);
            && rows[..1] == [] + [rows[0]] && rows[..2] == rows[..1] + [rows[1]]
            && rows[..3] == rows[..2] + [rows[2]] && rows == rows[..3] + [rows[3]]
  {
  }

  lemma ClashColumn(p: Position, q: Position, x: Position)
    requires p != q && (x == p || x == q)
    ensures var rows := ClashRows(p, q);
            && RowsAt(rows[..1], x) == (if x == p then [rows[0]] else [])
            && RowsAt(rows[..2], x) == (if x == p then [rows[0]] else [rows[1]])
            && RowsAt(rows[..3], x) == (if x == p then [rows[0], rows[2]] else [rows[1]])
            && RowsAt(rows, x) == (if x == p then [rows[0], rows[2]] else [rows[1], rows[3]])
  {
    hide RowsAt;
    var rows := ClashRows(p, q);
    ClashPrefixes(p, q);
    NoRowsAt(x);
    RowsAtAppend([], rows[0], x);
    RowsAtAppend(rows[..1], rows[1], x);
    RowsAtAppend(rows[..2], rows[2], x);
    RowsAtAppend(rows[..3], rows[3], x);
  }

  lemma NoRowsAt(x: Position)
    ensures RowsAt([], x) == []
  {
  }

  lemma ClashColumns(p: Position, q: Position)
    requires p != q
    ensures var rows := ClashRows(p, q);
            && RowsAt(rows, p) == [rows[0], rows[2]]
            && RowsAt(rows, q) == [rows[1], rows[3]]
            && RowsAt(rows[..1], q) == [] && RowsAt(rows[..2], p) == [rows[0]] && RowsAt(rows[..3], q) == [rows[1]]
  {
    hide RowsAt, ClashRows;
    ClashColumn(p, q, p);
    ClashColumn(p, q, q);
  }

  lemma ClashWellFormed(p: Position, q: Position)
    requires p != q
    ensures WellFormedGroup(ClashGroup(p, q))
    ensures PositionsOf(ClashRows(p, q)) == {p, q}
  {
    hide RowsAt, Select;
    var rows := ClashRows(p, q);
    ClashColumns(p, q);
    assert rows[..4] == rows;
    assert rows[..4][..3] == rows[..3] && rows[..3][..2] == rows[..2] && rows[..2][..1] == rows[..1];
    assert RowsAt([], p) == [] by {
      SelectMembers([], At(p));
      RowsAtMembers([], p);
      PositiveCount([], p);
    }
    assert rows[..1][..0] == [];
    assert SourceIndexed(rows[..1]);
    assert SourceIndexed(rows[..2]);
    assert SourceIndexed(rows[..3]);
    assert SourceIndexed(rows);
    assert rows[0] in rows && rows[1] in rows;
    assert PositionsOf(rows) == {p, q};
  }

  lemma ClashFrameCount(p: Position, q: Position)
    requires p != q
    ensures DescribeOccupancy(ClashGroup(p, q)).ImpliedFrameCount() == 2
  {
    var values := ClashGroup(p, q).occurrences.Values;
    assert map[p := 2, q := 2][p] in values;
    assert values == {2};
  }

  lemma FirstSeenNext(rows: seq<RawRow>, r: RawRow, order: seq<Position>)
    requires FirstSeen(rows) == order
    ensures r.position in order ==> FirstSeen(rows + [r]) == order
    ensures r.position !in order ==> FirstSeen(rows + [r]) == order + [r.position]
  {
    hide FirstSeen;
    FirstSeenAppend(rows, r);
  }

  lemma FirstSeenOfOne(a: RawRow)
    ensures FirstSeen([a]) == [a.position]
  {
    assert [a][..0] == [];
  }

  lemma FirstSeenOfFour(a: RawRow, b: RawRow, c: RawRow, d: RawRow)
    requires a.position != b.position && c.position == a.position && d.position == b.position
    ensures FirstSeen([a] + [b] + [c] + [d]) == [a.position, b.position]
  {
    hide FirstSeen;
    var order := [a.position] + [b.position];
    assert order[0] == a.position && order[1] == b.position;
    FirstSeenOfOne(a);
    FirstSeenNext([a], b, [a.position]);
    FirstSeenNext([a] + [b], c, order);
    FirstSeenNext([a] + [b] + [c], d, order);
  }

  lemma ClashBucketOrder(p: Position, q: Position)
    requires p != q
    ensures BucketOrder(ClashGroup(p, q)) == [p, q]
  {
    hide FirstSeen, Sort;
    var rows := ClashRows(p, q);
    SortOfAscending(rows, SlotLe);
    FirstSeenOfFour(rows[0], rows[1], rows[2], rows[3]);
    assert rows == [rows[0]] + [rows[1]] + [rows[2]] + [rows[3]];
  }

  lemma ClashOrder(p: Position, q: Position, pct: real, k: nat)
    requires p != q && k < 2
    ensures SliceCandidate(ClashGroup(p, q), pct, k).order == [p, q]
  {
    hide RowsAt, Select, DescribeOccupancy, SliceRows, BucketOrder;
    ClashBucketOrder(p, q);
    ClashColumns(p, q);
    SelectAll([p, q], DeeperThan(ClashRows(p, q), k));
  }

  lemma ClashSlice(p: Position, q: Position, k: nat)
    requires p != q && k < 2
    ensures SlicePayload(ClashRows(p, q), k) == map[p := if k == 0 then ZeroDigest() else OneDigest(), q := TwoDigest()]
    ensures SliceRows(ClashRows(p, q), k).Keys == {p, q}
  {
    hide RowsAt, Select, WellFormedGroup;
    ClashColumns(p, q);
    ClashWellFormed(p, q);
    assert SlicePositions(ClashRows(p, q), k) == {p, q};
  }

  lemma ClashFingerprint(p: Position, q: Position, pct: real, k: nat)
    requires p != q && p.Text() == q.Text() && k < 2
    ensures Listed(SliceCandidate(ClashGroup(p, q), pct, k))
    ensures Fingerprint(SliceCandidate(ClashGroup(p, q), pct, k)) == FrameFingerprint(map[q.Text() := TwoDigest()])
  {
    hide SliceCandidate, FrameFingerprint, SlicePayload, Position.Text;
    var g := ClashGroup(p, q);
    SliceListed(g, pct, k);
    CandidatePayload(g, pct, k);
    ClashOrder(p, q, pct, k);
    ClashSlice(p, q, k);
    var payload: Payload := map[p := if k == 0 then ZeroDigest() else OneDigest(), q := TwoDigest()];
    assert SliceCandidate(g, pct, k).Payload() == payload;
    ClashDictionary(p, q, payload);
  }

  lemma ClashDictionary(p: Position, q: Position, payload: Payload)
    requires p in payload && q in payload && p.Text() == q.Text()
    ensures PositionFingerprints([p, q], payload) == map[q.Text() := payload[q]]
  {
    hide Position.Text;
    assert [p, q][..1] == [p] && [p][..0] == [];
    assert PositionFingerprints([], payload) == map[];
    assert PositionFingerprints([p], payload) == map[][p.Text() := payload[p]];
    assert PositionFingerprints([p, q], payload) == PositionFingerprints([p], payload)[q.Text() := payload[q]];
  }

  lemma ReplayByFingerprint(a: FrameCandidate, b: FrameCandidate)
    requires forall c :: c in [a, b] ==> Listed(c)
    requires Listed(a) && Listed(b) && Fingerprint(a) == Fingerprint(b)
    ensures var rs := Classify([a, b]);
            && |rs| == 2
            && rs[0].classification == UNIQUE && rs[0].candidate == a
            && rs[1].classification == FULL_FRAME_REPLAY && !IsCanonical(rs[1].classification)
  {
    hide *;
    ClassifyAppend([], a);
    assert [] + [a] == [a];
    ClassifyAppend([a], b);
    assert [a] + [b] == [a, b];
    var first := Verdict([], a);
    NothingClassified();
    VerdictOfFirst(a);
    RepresentedByFirst(first, Fingerprint(b));
    VerdictOfReplay([first], b);
    assert [] + [first] == [first];
    assert Classify([a, b]) == [first] + [Verdict([first], b)];
  }

  lemma NothingClassified()
    ensures Classify([]) == []
  {
  }

  lemma VerdictOfFirst(c: FrameCandidate)
    requires Listed(c)
    ensures Verdict([], c).classification == UNIQUE && Verdict([], c).candidate == c
    ensures Verdict([], c).fingerprint == Fingerprint(c)
  {
    hide Fingerprint, StructuralIssues;
  }

  lemma RepresentedByFirst(first: ClassifiedFrame, fingerprint: string)
    requires first.classification == UNIQUE && first.fingerprint == fingerprint
    ensures FirstRepresentative([first], fingerprint).Some?
  {
    assert [first][..0] == [];
  }

  lemma VerdictOfReplay(earlier: seq<ClassifiedFrame>, c: FrameCandidate)
    requires Listed(c) && earlier != []
    requires FirstRepresentative(earlier, Fingerprint(c)).Some?
    ensures Verdict(earlier, c).classification == FULL_FRAME_REPLAY
    ensures !IsCanonical(Verdict(earlier, c).classification)
  {
    hide Fingerprint, StructuralIssues, FirstRepresentative, Matching, Differing;
  }

  lemma TwoSlices(g: TimestampGroup, pct: real, maxFrames: int)
    requires g.rows != [] && DescribeOccupancy(g).ImpliedFrameCount() == 2 <= maxFrames
    ensures !Overflows(g, maxFrames)
    ensures Candidates(g, pct, maxFrames) == [SliceCandidate(g, pct, 0), SliceCandidate(g, pct, 1)]
  {
    hide DescribeOccupancy, SliceCandidate;
  }

  lemma LostReading(rs: seq<ClassifiedFrame>, r: RawRow)
    requires |rs| == 2 && !IsCanonical(rs[1].classification)
    requires r.position in rs[0].candidate.rowsByPosition
    requires rs[0].candidate.rowsByPosition[r.position].fingerprint != r.fingerprint
    ensures !Preserved(r, rs)
  {
    assert !Observes(rs[0], r.position, r.fingerprint);
  }

  /** Two frames with one fingerprint: a reading of the second that differs is lost. */
  lemma EqualFingerprintsLose(g: TimestampGroup, r: RawRow, pct: real, maxFrames: int)
    requires r in g.rows && DescribeOccupancy(g).ImpliedFrameCount() == 2 <= maxFrames
    requires Listed(SliceCandidate(g, pct, 0)) && Listed(SliceCandidate(g, pct, 1))
    requires Fingerprint(SliceCandidate(g, pct, 0)) == Fingerprint(SliceCandidate(g, pct, 1))
    requires r.position in SliceRows(g.rows, 0) && SliceRows(g.rows, 0)[r.position].fingerprint != r.fingerprint
    ensures !Overflows(g, maxFrames)
    ensures !Lossless(g, pct, maxFrames)
  {
    hide *;
    TwoSlices(g, pct, maxFrames);
    CandidatesListed(g, pct, maxFrames);
    var a, b := SliceCandidate(g, pct, 0), SliceCandidate(g, pct, 1);
    SliceCandidateRows(g, pct, 0);
    ReplayByFingerprint(a, b);
    UnfoldClassified(g, pct, maxFrames);
    LostReading(Classified(g, pct, maxFrames), r);
    LostRow(g, r, pct, maxFrames);
  }

  lemma SliceCandidateRows(g: TimestampGroup, pct: real, k: nat)
    ensures SliceCandidate(g, pct, k).rowsByPosition == SliceRows(g.rows, k)
  {
    hide DescribeOccupancy, SliceRows, BucketOrder, Select;
  }

  lemma UnfoldClassified(g: TimestampGroup, pct: real, maxFrames: int)
    requires forall c :: c in Candidates(g, pct, maxFrames) ==> Listed(c)
    ensures Classified(g, pct, maxFrames) == Classify(Candidates(g, pct, maxFrames))
  {
    hide Candidates, Listed, Classify, InSequenceOrder;
  }

  lemma LostRow(g: TimestampGroup, r: RawRow, pct: real, maxFrames: int)
    requires r in g.rows && !Preserved(r, Classified(g, pct, maxFrames))
    ensures !Lossless(g, pct, maxFrames)
  {
    hide Preserved, Classified;
  }

  lemma ClashHasRows(p: Position, q: Position)
    ensures |ClashGroup(p, q).rows| == 4
  {
  }

  lemma ClashFirstReading(p: Position, q: Position)
    requires p != q
    ensures var g := ClashGroup(p, q);
            && g.rows[2] in g.rows
            && g.rows[2].position in SliceRows(g.rows, 0)
            && SliceRows(g.rows, 0)[g.rows[2].position].fingerprint != g.rows[2].fingerprint
  {
    hide RowsAt, Select;
    var rows := ClashRows(p, q);
    ClashColumns(p, q);
    ClashSlice(p, q, 0);
    assert rows[2] in rows;
    assert SliceRows(rows, 0)[p] == rows[0];
    assert ZeroDigest()[0] != OneDigest()[0];
  }

  /** The second frame is taken for a replay of the first, and its reading at p is
      in no canonical frame. */
  lemma ClashLosesRow(p: Position, q: Position, pct: real, maxFrames: int)
    requires p != q && p.Text() == q.Text() && maxFrames >= 2
    ensures !Overflows(ClashGroup(p, q), maxFrames)
    ensures !Lossless(ClashGroup(p, q), pct, maxFrames)
  {
    hide *;
    var g := ClashGroup(p, q);
    ClashHasRows(p, q);
    ClashFrameCount(p, q);
    ClashFingerprint(p, q, pct, 0);
    ClashFingerprint(p, q, pct, 1);
    ClashFirstReading(p, q);
    EqualFingerprintsLose(g, g.rows[2], pct, maxFrames);
  }

  /** With room for one frame only, that frame holds everything. */
  lemma OneFrameKeepsAll(g: TimestampGroup, pct: real, maxFrames: int, r: RawRow)
    requires WellFormedGroup(g) && !Overflows(g, maxFrames) && maxFrames < 2
    requires r in g.rows
    ensures Preserved(r, Classified(g, pct, maxFrames))
  {
    OneFrameOnly(g, pct, maxFrames, r);
    hide *;
    CandidatesListed(g, pct, maxFrames);
    UnfoldClassified(g, pct, maxFrames);
    var c := SliceCandidate(g, pct, 0);
    SliceListed(g, pct, 0);
    ClassifyAppend([], c);
    NothingClassified();
    VerdictOfFirst(c);
    SliceCandidateRows(g, pct, 0);
    SliceHoldsOccurrence(g, 0, r);
    assert [] + [c] == [c];
    assert [] + [Verdict([], c)] == [Verdict([], c)];
    KeptByFirst(Verdict([], c), r);
  }

  lemma OneFrameOnly(g: TimestampGroup, pct: real, maxFrames: int, r: RawRow)
    requires WellFormedGroup(g) && !Overflows(g, maxFrames) && maxFrames < 2
    requires r in g.rows
    ensures SourceIndexed(g.rows) && r.occurrence == 0
    ensures Candidates(g, pct, maxFrames) == [SliceCandidate(g, pct, 0)]
  {
    hide DescribeOccupancy, SliceCandidate;
    SliceHoldsOccurrence(g, r.occurrence, r);
    SlicesOccupied(g, r.occurrence);
    assert r.position in SlicePositions(g.rows, r.occurrence);
  }

  lemma KeptByFirst(first: ClassifiedFrame, r: RawRow)
    requires first.classification == UNIQUE
    requires r.position in first.candidate.rowsByPosition && first.candidate.rowsByPosition[r.position] == r
    ensures Preserved(r, [first])
  {
    assert Observes([first][0], r.position, r.fingerprint);
  }

  /** Over a set of positions, canonical frames keep every observation of every group
      within the frame limit exactly when no two positions render alike, or there is
      room for one frame only. */
  lemma LosslessIffTextsDiffer(ps: set<Position>, pct: real, maxFrames: int)
    ensures TextInjective(ps) || maxFrames < 2
            <==> (forall g: TimestampGroup ::
                    WellFormedGroup(g) && PositionsOf(g.rows) <= ps && !Overflows(g, maxFrames)
                    ==> Lossless(g, pct, maxFrames))
  {
    hide WellFormedGroup, Overflows, Lossless, Position.Text, AllRepeatFirst;
    if TextInjective(ps) || maxFrames < 2 {
      forall g: TimestampGroup | WellFormedGroup(g) && PositionsOf(g.rows) <= ps && !Overflows(g, maxFrames)
        ensures Lossless(g, pct, maxFrames)
      {
        if maxFrames < 2 {
          OneFrameLossless(g, pct, maxFrames);
        } else {
          NoObservationLost(g, pct, maxFrames);
        }
      }
    } else {
      var p, q :| p in ps && q in ps && p.Text() == q.Text() && p != q;
      ClashWellFormed(p, q);
      ClashLosesRow(p, q, pct, maxFrames);
      var g := ClashGroup(p, q);
      assert PositionsOf(g.rows) <= ps;
    }
  }

  lemma OneFrameLossless(g: TimestampGroup, pct: real, maxFrames: int)
    requires WellFormedGroup(g) && !Overflows(g, maxFrames) && maxFrames < 2
    ensures Lossless(g, pct, maxFrames)
  {
    hide WellFormedGroup, Overflows, Preserved, Classified;
    forall r | r in g.rows
      ensures Preserved(r, Classified(g, pct, maxFrames))
    {
      OneFrameKeepsAll(g, pct, maxFrames, r);
    }
  }

  /** Connector ids without "/S" in them are enough. */
  lemma PlainConnectorsReadBack(ps: set<Position>)
    requires forall p :: p in ps ==> !ContainsSlashS(p.connector)
    ensures TextInjective(ps)
  {
    forall p, q | p in ps && q in ps && p.Text() == q.Text()
      ensures p == q
    {
      TextReadsBack(p, q);
    }
  }

  /** Two positions of the kind that clash. */
  lemma ClashExists()
    ensures Position("1/S2", "3").Text() == Position("1", "2/S3").Text()
  {
    assert Position("1/S2", "3").Text() == "C1/S2/S3";
    assert Position("1", "2/S3").Text() == "C1/S2/S3";
  }
}
