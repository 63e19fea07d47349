/** What a frame's fragment mark says, and when it agrees with the comparison its comment
    describes. */
module Fragments {
  import opened Sorting
  import opened FrameModels
  import opened CanonicalSerializer
  import opened FrameBuilder
  import opened ReplayLaws

  /** A frame is marked exactly when some position of the first frame is missing in it,
      that is, when some position has no more rows than the frame's index. */
  lemma FragmentMeans(g: TimestampGroup, pct: real, k: nat)
    ensures SliceCandidate(g, pct, k).isFragment
            <==> k > 0 && SlicePositions(g.rows, k) != SlicePositions(g.rows, 0)
    ensures SliceCandidate(g, pct, k).isFragment
            <==> k > 0 && exists p :: p in PositionsOf(g.rows) && CountAt(g.rows, p) <= k
  {
    hide DescribeOccupancy, BucketOrder, ClassifyStatus, CountAt, PositionsOf, RowsAt;
    FirstSliceIsWhole(g.rows);
    SubsetCounts(SlicePositions(g.rows, k), SlicePositions(g.rows, 0));
    assert SliceRows(g.rows, k).Keys == SlicePositions(g.rows, k);
    assert SliceRows(g.rows, 0).Keys == SlicePositions(g.rows, 0);
  }

  /** The frame holds fewer positions than the one before it. */
  ghost predicate Shrinks(g: TimestampGroup, k: nat) {
    k > 0 && |SlicePositions(g.rows, k)| < |SlicePositions(g.rows, k - 1)|
  }

  lemma ShrinksIff(g: TimestampGroup, k: nat)
    requires k > 0
    ensures Shrinks(g, k) <==> exists p :: p in PositionsOf(g.rows) && CountAt(g.rows, p) == k
  {
    hide CountAt, PositionsOf;
    SubsetCounts(SlicePositions(g.rows, k), SlicePositions(g.rows, k - 1));
    if p :| p in PositionsOf(g.rows) && CountAt(g.rows, p) == k {
      assert p in SlicePositions(g.rows, k - 1) && p !in SlicePositions(g.rows, k);
    }
  }

  /** The mark is the comparison with the preceding frame exactly when some position has
      as many rows as the frame's index, or none has fewer. */
  lemma FragmentIsShrinkIff(g: TimestampGroup, pct: real, k: nat)
    requires k > 0
    ensures (SliceCandidate(g, pct, k).isFragment <==> Shrinks(g, k))
            <==> || (exists p :: p in PositionsOf(g.rows) && CountAt(g.rows, p) == k)
                 || (forall p :: p in PositionsOf(g.rows) ==> CountAt(g.rows, p) >= k)
  {
    hide Shrinks, SliceCandidate, CountAt, PositionsOf;
    FragmentMeans(g, pct, k);
    ShrinksIff(g, k);
  }

  /** A frame that shrinks is always marked. */
  lemma ShrinkIsFragment(g: TimestampGroup, pct: real, k: nat)
    requires Shrinks(g, k)
    ensures SliceCandidate(g, pct, k).isFragment
  {
    hide Shrinks, SliceCandidate, CountAt, PositionsOf;
    ShrinksPositive(g, k);
    FragmentMeans(g, pct, k);
    ShrinksIff(g, k);
  }

  lemma ShrinksPositive(g: TimestampGroup, k: nat)
    requires Shrinks(g, k)
    ensures k > 0
  {
  }

  // ----- a group where they differ

  function UnevenRows(p: Position, q: Position, r: Position, d: Digest): seq<RawRow> {
    [RawRow(0, p, 0, d, false), RawRow(1, q, 0, d, false), RawRow(2, r, 0, d, false),
     RawRow(3, p, 1, d, false), RawRow(4, q, 1, d, false),
     RawRow(5, p, 2, d, false), RawRow(6, q, 2, d, false)]
  }

  function One(b: bool): nat {
    if b then 1 else 0
  }

  lemma {:induction false} UnevenPrefix(p: Position, q: Position, r: Position, d: Digest, x: Position, k: nat)
    requires p != q && q != r && p != r && k <= 7
    ensures CountAt(UnevenRows(p, q, r, d)[..k], x)
            == if x == p then One(k > 0) + One(k > 3) + One(k > 5)
               else if x == q then One(k > 1) + One(k > 4) + One(k > 6)
               else if x == r then One(k > 2) else 0
  {
    hide Select;
    var rows := UnevenRows(p, q, r, d);
    if k == 0 {
      SelectOfNone(At(x));
    } else {
      UnevenPrefix(p, q, r, d, x, k - 1);
      RowsAtAppend(rows[..k - 1], rows[k - 1], x);
      assert rows[..k] == rows[..k - 1] + [rows[k - 1]];
    }
  }

  lemma {:induction false} UnevenIndexed(p: Position, q: Position, r: Position, d: Digest, k: nat)
    requires p != q && q != r && p != r && k <= 7
    ensures SourceIndexed(UnevenRows(p, q, r, d)[..k])
  {
    hide CountAt;
    var rows := UnevenRows(p, q, r, d);
    if k > 0 {
      UnevenIndexed(p, q, r, d, k - 1);
      UnevenPrefix(p, q, r, d, rows[k - 1].position, k - 1);
      assert forall i :: 0 <= i < 7 ==> rows[i].number == i;
      assert rows[..k] == rows[..k - 1] + [rows[k - 1]];
      SourceIndexedAppend(rows[..k - 1], rows[k - 1]);
    }
  }

  function UnevenGroup(p: Position, q: Position, r: Position, d: Digest): TimestampGroup {
    TimestampGroup(GroupKey("charger", 0), UnevenRows(p, q, r, d), {p, q, r}, map[p := 3, q := 3, r := 1], [])
  }

  lemma UnevenWellFormed(p: Position, q: Position, r: Position, d: Digest)
    requires p != q && q != r && p != r
    ensures WellFormedGroup(UnevenGroup(p, q, r, d))
  {
    hide CountAt, SourceIndexed;
    var rows := UnevenRows(p, q, r, d);
    assert rows[..7] == rows;
    UnevenIndexed(p, q, r, d, 7);
    UnevenPositions(p, q, r, d);
    UnevenPrefix(p, q, r, d, p, 7);
    UnevenPrefix(p, q, r, d, q, 7);
    UnevenPrefix(p, q, r, d, r, 7);
  }

  /** Frames of three, two and two positions: the third is marked, though it is no smaller
      than the second. */
  lemma FragmentWithoutShrink(p: Position, q: Position, r: Position, d: Digest, pct: real)
    requires p != q && q != r && p != r
    ensures var g := UnevenGroup(p, q, r, d);
            && WellFormedGroup(g)
            && SlicePositions(g.rows, 0) == {p, q, r}
            && SlicePositions(g.rows, 1) == {p, q} && SlicePositions(g.rows, 2) == {p, q}
            && SliceCandidate(g, pct, 2).isFragment && !Shrinks(g, 2)
  {
    hide SliceCandidate, CountAt, WellFormedGroup;
    var rows := UnevenRows(p, q, r, d);
    UnevenWellFormed(p, q, r, d);
    UnevenPositions(p, q, r, d);
    assert rows[..7] == rows;
    forall x
      ensures CountAt(rows, x) == if x == p || x == q then 3 else if x == r then 1 else 0
    {
      UnevenPrefix(p, q, r, d, x, 7);
    }
    FragmentMeans(UnevenGroup(p, q, r, d), pct, 2);
    assert CountAt(rows, r) <= 2;
  }

  lemma UnevenPositions(p: Position, q: Position, r: Position, d: Digest)
    ensures PositionsOf(UnevenRows(p, q, r, d)) == {p, q, r}
  {
    var rows := UnevenRows(p, q, r, d);
    assert rows[0] in rows && rows[1] in rows && rows[2] in rows;
  }

  /** The third of these frames has the payload of the second, and is a partial replay
      nevertheless, since both are parts of the first. */
  lemma RepeatedFragmentIsPartial(p: Position, q: Position, r: Position, d: Digest, pct: real, maxFrames: int)
    requires p.Text() != q.Text() && q.Text() != r.Text() && p.Text() != r.Text() && maxFrames >= 3
    ensures var rs := Classified(UnevenGroup(p, q, r, d), pct, maxFrames);
            && |rs| == 3 && rs[1].candidate.Payload() == rs[2].candidate.Payload()
            && rs[2].classification == PARTIAL_FRAME_REPLAY && rs[2].replayOf == Some(0)
  {
    hide Position.Text, WellFormedGroup, Classified, Overflows, DescribeOccupancy, SlicePayload, SubMap, TextInjective,
      PositionsOf, UnevenRows, FrameCandidate.Payload, AsPayloadsDictate;
    var g := UnevenGroup(p, q, r, d);
    UnevenFrameCount(p, q, r, d, pct);
    UnevenFrames(p, q, r, d, pct);
    UnevenTexts(p, q, r, d);
    WithinLimit(g, maxFrames);
    ClassifiedSlices(g, pct, maxFrames);
    VerdictsFromPayloads(g, pct, maxFrames, 1);
    VerdictsFromPayloads(g, pct, maxFrames, 2);
    RepeatIsFullIff(g, pct, maxFrames, 1, 2);
    ReplayPointersSound(g, pct, maxFrames, 2);
  }

  lemma UnevenTexts(p: Position, q: Position, r: Position, d: Digest)
    requires p.Text() != q.Text() && q.Text() != r.Text() && p.Text() != r.Text()
    ensures TextInjective(PositionsOf(UnevenRows(p, q, r, d)))
  {
    hide Position.Text, PositionsOf, UnevenRows;
    UnevenPositions(p, q, r, d);
  }

  lemma WithinLimit(g: TimestampGroup, maxFrames: int)
    requires DescribeOccupancy(g).ImpliedFrameCount() <= maxFrames
    ensures !Overflows(g, maxFrames)
  {
    hide DescribeOccupancy;
  }

  lemma UnevenFrameCount(p: Position, q: Position, r: Position, d: Digest, pct: real)
    requires p != q && q != r && p != r
    ensures WellFormedGroup(UnevenGroup(p, q, r, d)) && UnevenGroup(p, q, r, d).rows != []
    ensures DescribeOccupancy(UnevenGroup(p, q, r, d)).ImpliedFrameCount() == 3
  {
    hide WellFormedGroup, DescribeOccupancy, SliceCandidate, SlicePositions;
    var g := UnevenGroup(p, q, r, d);
    UnevenWellFormed(p, q, r, d);
    FragmentWithoutShrink(p, q, r, d, pct);
    UnevenDepth(p, q, r, d);
    SlicesOccupied(g, 2);
    SlicesOccupied(g, 3);
  }

  lemma UnevenFrames(p: Position, q: Position, r: Position, d: Digest, pct: real)
    requires p != q && q != r && p != r
    ensures var rows := UnevenRows(p, q, r, d);
            && SlicePayload(rows, 1) == SlicePayload(rows, 2)
            && SubMap(SlicePayload(rows, 2), SlicePayload(rows, 0)) && SlicePayload(rows, 2) != SlicePayload(rows, 0)
  {
    hide WellFormedGroup, SliceCandidate, SlicePositions, SlicePayload, UnevenRows;
    FragmentWithoutShrink(p, q, r, d, pct);
    UnevenDigests(p, q, r, d, 0);
    UnevenDigests(p, q, r, d, 1);
    UnevenDigests(p, q, r, d, 2);
    var rows := UnevenRows(p, q, r, d);
    assert r in SlicePayload(rows, 0) && r !in SlicePayload(rows, 2);
  }

  lemma UnevenDepth(p: Position, q: Position, r: Position, d: Digest)
    requires p != q && q != r && p != r
    ensures SlicePositions(UnevenRows(p, q, r, d), 3) == {}
  {
    hide CountAt, PositionsOf;
    var rows := UnevenRows(p, q, r, d);
    assert rows[..7] == rows;
    forall x
      ensures CountAt(rows, x) <= 3
    {
      UnevenPrefix(p, q, r, d, x, 7);
    }
  }

  /** Every row of the group reads the same. */
  lemma UnevenDigests(p: Position, q: Position, r: Position, d: Digest, k: nat)
    ensures var rows := UnevenRows(p, q, r, d);
            SlicePayload(rows, k) == map x | x in SlicePositions(rows, k) :: d
  {
    hide SlicePositions, Select, UnevenRows;
    var rows := UnevenRows(p, q, r, d);
    AllRead(p, q, r, d);
    forall x | x in SlicePositions(rows, k)
      ensures k < |RowsAt(rows, x)| && RowsAt(rows, x)[k].fingerprint == d
    {
      DeepEnough(rows, k, x);
      RowsAtMembers(rows, x);
      assert RowsAt(rows, x)[k] in rows;
    }
  }

  lemma DeepEnough(rows: seq<RawRow>, k: nat, x: Position)
    requires x in SlicePositions(rows, k)
    ensures k < |RowsAt(rows, x)|
  {
  }

  lemma AllRead(p: Position, q: Position, r: Position, d: Digest)
    ensures forall row :: row in UnevenRows(p, q, r, d) ==> row.fingerprint == d
  {
  }
}
