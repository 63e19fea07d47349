/** What classification means for the frames the builder makes: verdicts read off the
    payloads alone, no observation lost, and replay pointers one level deep. */
module ReplayLaws {
  import opened Sorting
  import opened FrameModels
  import opened CanonicalSerializer
  import opened FrameBuilder
  import opened ReplayDetector

  function SlicePayload(rows: seq<RawRow>, k: nat): Payload {
    map p | p in SlicePositions(rows, k) :: RowsAt(rows, p)[k].fingerprint
  }

  ghost predicate SubMap(a: Payload, b: Payload) {
    forall p :: p in a ==> p in b && a[p] == b[p]
  }

  /** The earliest frame from `j` on with the payload of frame k. */
  ghost function Earliest(rows: seq<RawRow>, k: nat, j: nat): (r: nat)
    requires j <= k
    ensures j <= r <= k && SlicePayload(rows, r) == SlicePayload(rows, k)
    ensures forall i :: j <= i < r ==> SlicePayload(rows, i) != SlicePayload(rows, k)
    decreases k - j
  {
    if SlicePayload(rows, j) == SlicePayload(rows, k) then j else Earliest(rows, k, j + 1)
  }

  /** Classification and replay target of frame k, read off the payloads alone. */
  ghost function PayloadVerdict(rows: seq<RawRow>, k: nat): (Classification, Option<nat>) {
    var first, own := SlicePayload(rows, 0), SlicePayload(rows, k);
    if k == 0 then (UNIQUE, None)
    else if own == first then (FULL_FRAME_REPLAY, Some(0))
    else if SubMap(own, first) then (PARTIAL_FRAME_REPLAY, Some(0))
    else if Earliest(rows, k, 0) < k then (FULL_FRAME_REPLAY, Some(Earliest(rows, k, 0)))
    else (SAME_TIMESTAMP_DISTINCT_FRAME, None)
  }

  // ----- the builder's candidates, as the classifier sees them

  lemma CandidatePayload(g: TimestampGroup, pct: real, k: nat)
    ensures SliceCandidate(g, pct, k).Payload() == SlicePayload(g.rows, k)
    ensures SlicePayload(g.rows, k).Keys == SlicePositions(g.rows, k)
  {
    hide DescribeOccupancy, BucketOrder, RowsAt, CountAt, PositionsOf, SlicePositions, ClassifyStatus;
  }

  lemma BucketOrderLists(g: TimestampGroup)
    ensures forall p :: p in BucketOrder(g) <==> p in PositionsOf(g.rows)
  {
    hide FirstSeen, Sort;
    var sorted := Sort(g.rows, SlotLe);
    FirstSeenListsPositions(sorted);
    MembersFromMultiset(sorted, g.rows);
    assert PositionsOf(sorted) == PositionsOf(g.rows);
  }

  lemma SliceOrder(g: TimestampGroup, pct: real, k: nat)
    ensures forall p :: p in SliceCandidate(g, pct, k).order <==> p in SlicePositions(g.rows, k)
  {
    hide BucketOrder, DescribeOccupancy, SliceRows, Select;
    BucketOrderLists(g);
    SelectMembers(BucketOrder(g), DeeperThan(g.rows, k));
  }

  lemma SliceListed(g: TimestampGroup, pct: real, k: nat)
    ensures Listed(SliceCandidate(g, pct, k))
  {
    hide SliceCandidate, SlicePositions;
    SliceOrder(g, pct, k);
    CandidatePayload(g, pct, k);
  }

  lemma SlicesListed(g: TimestampGroup, pct: real, n: nat)
    ensures forall c :: c in SliceCandidates(g, pct, n) ==> Listed(c)
    ensures InSequenceOrder(SliceCandidates(g, pct, n))
  {
    hide Listed;
    forall k: nat
      ensures Listed(SliceCandidate(g, pct, k))
    {
      SliceListed(g, pct, k);
    }
  }

  lemma FingerprintsMatch(g: TimestampGroup, pct: real, j: nat, k: nat)
    requires TextInjective(PositionsOf(g.rows))
    requires j <= k
    ensures Listed(SliceCandidate(g, pct, j)) && Listed(SliceCandidate(g, pct, k))
    ensures Fingerprint(SliceCandidate(g, pct, j)) == Fingerprint(SliceCandidate(g, pct, k))
            <==> SlicePayload(g.rows, j) == SlicePayload(g.rows, k)
  {
    hide SliceCandidate, PayloadFingerprint, SlicePayload;
    SliceListed(g, pct, j);
    SliceListed(g, pct, k);
    CandidatePayload(g, pct, j);
    CandidatePayload(g, pct, k);
    var a, b := SliceCandidate(g, pct, j), SliceCandidate(g, pct, k);
    SamePayload(a.order, a.Payload(), b.order, b.Payload());
  }

  // ----- looking back

  lemma {:induction false} NoRepresentative(rs: seq<ClassifiedFrame>, fingerprint: string)
    requires forall i :: 0 <= i < |rs| ==> !(Represents(rs[i]) && rs[i].fingerprint == fingerprint)
    ensures FirstRepresentative(rs, fingerprint) == None
  {
    if rs != [] {
      NoRepresentative(rs[..|rs| - 1], fingerprint);
    }
  }

  lemma {:induction false} FirstRepresentativeIs(rs: seq<ClassifiedFrame>, fingerprint: string, j: nat)
    requires j < |rs| && Represents(rs[j]) && rs[j].fingerprint == fingerprint
    requires forall i :: 0 <= i < j ==> !(Represents(rs[i]) && rs[i].fingerprint == fingerprint)
    ensures FirstRepresentative(rs, fingerprint) == Some(rs[j].candidate.sequence)
  {
    var init := rs[..|rs| - 1];
    if j < |init| {
      FirstRepresentativeIs(init, fingerprint, j);
    } else {
      NoRepresentative(init, fingerprint);
    }
  }

  /** The verdicts so far are those the payloads dictate. */
  ghost predicate AsPayloadsDictate(g: TimestampGroup, pct: real, rs: seq<ClassifiedFrame>) {
    forall k :: 0 <= k < |rs| ==>
      && rs[k].candidate == SliceCandidate(g, pct, k)
      && Listed(rs[k].candidate)
      && rs[k].fingerprint == Fingerprint(rs[k].candidate)
      && (rs[k].classification, rs[k].replayOf) == PayloadVerdict(g.rows, k)
  }

  lemma RepresentativeByPayload(g: TimestampGroup, pct: real, rs: seq<ClassifiedFrame>, k: nat)
    requires TextInjective(PositionsOf(g.rows))
    requires AsPayloadsDictate(g, pct, rs) && |rs| == k > 0
    ensures Listed(SliceCandidate(g, pct, k))
    ensures var (c, target) := PayloadVerdict(g.rows, k);
            FirstRepresentative(rs, Fingerprint(SliceCandidate(g, pct, k)))
            == if c == FULL_FRAME_REPLAY then target else None
  {
    hide SliceCandidate, Fingerprint, Listed, SlicePayload, FirstRepresentative;
    SliceListed(g, pct, k);
    var fingerprint := Fingerprint(SliceCandidate(g, pct, k));
    var own, first := SlicePayload(g.rows, k), SlicePayload(g.rows, 0);
    forall i | 0 <= i < k
      ensures rs[i].fingerprint == fingerprint <==> SlicePayload(g.rows, i) == own
    {
      FingerprintsMatch(g, pct, i, k);
    }
    SequenceOf(g, pct, rs);
    if own == first {
      FirstRepresentativeIs(rs, fingerprint, 0);
    } else if SubMap(own, first) {
      NoRepresentative(rs, fingerprint);
    } else {
      var j := Earliest(g.rows, k, 0);
      if j < k {
        assert Earliest(g.rows, j, 0) == j;
        FirstRepresentativeIs(rs, fingerprint, j);
      } else {
        NoRepresentative(rs, fingerprint);
      }
    }
  }

  lemma SequenceOf(g: TimestampGroup, pct: real, rs: seq<ClassifiedFrame>)
    requires AsPayloadsDictate(g, pct, rs)
    ensures forall k :: 0 <= k < |rs| ==> rs[k].candidate.sequence == k
  {
    hide SliceRows, BucketOrder, DescribeOccupancy, Fingerprint, Listed, PayloadVerdict;
  }

  lemma ComparedWithFirst(rows: seq<RawRow>, k: nat)
    requires SlicePositions(rows, k) != {}
    ensures var own, first := SlicePayload(rows, k), SlicePayload(rows, 0);
            && (Differing(own, first) == {} <==> SubMap(own, first))
            && (Differing(own, first) == {} ==> Matching(own, first) != {})
  {
    var own, first := SlicePayload(rows, k), SlicePayload(rows, 0);
    assert own.Keys == SlicePositions(rows, k);
    assert first.Keys == SlicePositions(rows, 0);
    assert own.Keys <= first.Keys;
    if Differing(own, first) == {} {
      forall p | p in own
        ensures p in Matching(own, first)
      {
        assert p !in Differing(own, first);
      }
      var p :| p in own.Keys;
      assert p in Matching(own, first);
    }
    if SubMap(own, first) {
      assert forall p :: p !in Differing(own, first);
    }
  }

  lemma NextVerdict(g: TimestampGroup, pct: real, rs: seq<ClassifiedFrame>, k: nat)
    requires WellFormedGroup(g) && g.rows != [] && TextInjective(PositionsOf(g.rows))
    requires AsPayloadsDictate(g, pct, rs) && |rs| == k < DescribeOccupancy(g).ImpliedFrameCount()
    ensures Listed(SliceCandidate(g, pct, k))
    ensures var f := Verdict(rs, SliceCandidate(g, pct, k));
            (f.classification, f.replayOf) == PayloadVerdict(g.rows, k)
  {
    hide SliceCandidate, Fingerprint, Listed, SlicePayload, FirstRepresentative, StructuralIssues,
      Matching, Differing, SubMap, WellFormedGroup, DescribeOccupancy, SlicePositions;
    SliceListed(g, pct, k);
    if k > 0 {
      RepresentativeByPayload(g, pct, rs, k);
      SlicesOccupied(g, k);
      ComparedWithFirst(g.rows, k);
      SequenceOf(g, pct, rs);
      CandidatePayload(g, pct, k);
      CandidatePayload(g, pct, 0);
      assert rs[0].candidate == SliceCandidate(g, pct, 0);
    }
  }

  lemma {:induction false} VerdictsUpTo(g: TimestampGroup, pct: real, n: nat)
    requires WellFormedGroup(g) && g.rows != [] && TextInjective(PositionsOf(g.rows))
    requires n <= DescribeOccupancy(g).ImpliedFrameCount()
    ensures forall c :: c in SliceCandidates(g, pct, n) ==> Listed(c)
    ensures AsPayloadsDictate(g, pct, Classify(SliceCandidates(g, pct, n)))
  {
    hide SliceCandidate, Fingerprint, Listed, PayloadVerdict, Verdict, WellFormedGroup,
      DescribeOccupancy, TextInjective, InSequenceOrder, PositionsOf;
    SlicesListed(g, pct, n);
    if n > 0 {
      VerdictsUpTo(g, pct, n - 1);
      var earlier, c := SliceCandidates(g, pct, n - 1), SliceCandidate(g, pct, n - 1);
      assert SliceCandidates(g, pct, n) == earlier + [c];
      ClassifyAppend(earlier, c);
      NextVerdict(g, pct, Classify(earlier), n - 1);
      VerdictShape(Classify(earlier), c);
    }
  }

  // ----- a whole group

  lemma CandidatesListed(g: TimestampGroup, pct: real, maxFrames: int)
    ensures forall c :: c in Candidates(g, pct, maxFrames) ==> Listed(c)
    ensures InSequenceOrder(Candidates(g, pct, maxFrames))
  {
    hide SliceCandidate, Listed, DescribeOccupancy, OverflowCandidate;
    if Overflows(g, maxFrames) {
      OverflowListed(g, maxFrames);
    } else if g.rows != [] {
      SlicesListed(g, pct, DescribeOccupancy(g).ImpliedFrameCount());
    }
  }

  lemma OverflowListed(g: TimestampGroup, maxFrames: int)
    ensures Listed(OverflowCandidate(g, maxFrames))
    ensures OverflowCandidate(g, maxFrames).Payload() == SlicePayload(g.rows, 0)
    ensures InSequenceOrder([OverflowCandidate(g, maxFrames)])
  {
    hide DescribeOccupancy, BucketOrder, RowsAt, CountAt, PositionsOf;
    BucketOrderLists(g);
    FirstSliceIsWhole(g.rows);
  }

  /** Every frame of a group with its verdict. */
  ghost function Classified(g: TimestampGroup, pct: real, maxFrames: int): seq<ClassifiedFrame> {
    CandidatesListed(g, pct, maxFrames);
    Classify(Candidates(g, pct, maxFrames))
  }

  lemma ClassifiedSlices(g: TimestampGroup, pct: real, maxFrames: int)
    requires WellFormedGroup(g) && TextInjective(PositionsOf(g.rows))
    requires g.rows != [] && !Overflows(g, maxFrames)
    ensures |Classified(g, pct, maxFrames)| == DescribeOccupancy(g).ImpliedFrameCount()
    ensures AsPayloadsDictate(g, pct, Classified(g, pct, maxFrames))
  {
    hide AsPayloadsDictate, WellFormedGroup, DescribeOccupancy, SliceCandidate, Listed;
    VerdictsUpTo(g, pct, DescribeOccupancy(g).ImpliedFrameCount());
  }

  /** Verdict k is the one its payload dictates: no lookup table is observable. */
  lemma VerdictsFromPayloads(g: TimestampGroup, pct: real, maxFrames: int, k: nat)
    requires WellFormedGroup(g) && TextInjective(PositionsOf(g.rows))
    requires g.rows != [] && !Overflows(g, maxFrames)
    requires k < |Classified(g, pct, maxFrames)|
    ensures var f := Classified(g, pct, maxFrames)[k];
            && (f.classification, f.replayOf) == PayloadVerdict(g.rows, k)
            && f.candidate.sequence == k
            && f.candidate.rowsByPosition == SliceRows(g.rows, k)
            && f.candidate.Payload() == SlicePayload(g.rows, k)
  {
    hide WellFormedGroup, DescribeOccupancy, Listed, TextInjective, Overflows, PayloadVerdict, SlicePayload,
      SliceRows, BucketOrder, Fingerprint, Classified;
    ClassifiedSlices(g, pct, maxFrames);
    CandidatePayload(g, pct, k);
  }

  /** Replay pointers are sound and one level deep, the disjoint branch is never
      taken, and no two canonical frames carry the same payload. */
  lemma ReplayPointersSound(g: TimestampGroup, pct: real, maxFrames: int, k: nat)
    requires WellFormedGroup(g) && TextInjective(PositionsOf(g.rows))
    requires g.rows != [] && !Overflows(g, maxFrames)
    requires k < |Classified(g, pct, maxFrames)|
    ensures var rs := Classified(g, pct, maxFrames);
            var own := SlicePayload(g.rows, k);
            && rs[k].classification !in {AMBIGUOUS, EXACT_ROW_DUPLICATE}
            && (rs[k].classification == UNIQUE <==> k == 0)
            && (rs[k].replayOf.None? <==> IsCanonical(rs[k].classification))
            && (rs[k].replayOf.Some? ==>
                  var target := rs[k].replayOf.value;
                  && target < k && IsCanonical(rs[target].classification) && rs[target].replayOf.None?
                  && SubMap(own, SlicePayload(g.rows, target)))
            && (rs[k].classification == FULL_FRAME_REPLAY ==>
                  var target := rs[k].replayOf.value;
                  && SlicePayload(g.rows, target) == own
                  && forall i :: 0 <= i < target ==> SlicePayload(g.rows, i) != own)
            && (rs[k].classification == PARTIAL_FRAME_REPLAY ==>
                  rs[k].replayOf == Some(0) && own != SlicePayload(g.rows, 0))
            && (IsCanonical(rs[k].classification) <==>
                  (k == 0 || !SubMap(own, SlicePayload(g.rows, 0)))
                  && forall i :: 0 <= i < k ==> SlicePayload(g.rows, i) != own)
  {
    hide WellFormedGroup, DescribeOccupancy, TextInjective, Overflows, SlicePayload, SliceRows, Classified;
    VerdictsFromPayloads(g, pct, maxFrames, k);
    var target := PayloadVerdict(g.rows, k).1;
    if target.Some? {
      VerdictsFromPayloads(g, pct, maxFrames, target.value);
      assert Earliest(g.rows, target.value, 0) == target.value;
    }
  }

  lemma CanonicalPayloadsDiffer(g: TimestampGroup, pct: real, maxFrames: int, j: nat, k: nat)
    requires WellFormedGroup(g) && TextInjective(PositionsOf(g.rows))
    requires g.rows != [] && !Overflows(g, maxFrames)
    requires j < k < |Classified(g, pct, maxFrames)|
    requires IsCanonical(Classified(g, pct, maxFrames)[j].classification)
    requires IsCanonical(Classified(g, pct, maxFrames)[k].classification)
    ensures Classified(g, pct, maxFrames)[j].candidate.Payload() != Classified(g, pct, maxFrames)[k].candidate.Payload()
  {
    hide WellFormedGroup, DescribeOccupancy, TextInjective, Overflows, SlicePayload, SliceRows, Classified,
      FrameCandidate.Payload;
    ReplayPointersSound(g, pct, maxFrames, k);
    VerdictsFromPayloads(g, pct, maxFrames, j);
    VerdictsFromPayloads(g, pct, maxFrames, k);
  }

  /** A frame that repeats an earlier frame's payload is a full replay exactly when that
      is the first frame's payload, or no part of it; else it is a partial one. */
  lemma RepeatIsFullIff(g: TimestampGroup, pct: real, maxFrames: int, j: nat, k: nat)
    requires WellFormedGroup(g) && TextInjective(PositionsOf(g.rows))
    requires g.rows != [] && !Overflows(g, maxFrames)
    requires j < k < |Classified(g, pct, maxFrames)|
    requires SlicePayload(g.rows, j) == SlicePayload(g.rows, k)
    ensures var rs := Classified(g, pct, maxFrames);
            var own, first := SlicePayload(g.rows, k), SlicePayload(g.rows, 0);
            && (rs[k].classification == FULL_FRAME_REPLAY <==> own == first || !SubMap(own, first))
            && (rs[k].classification == PARTIAL_FRAME_REPLAY <==> own != first && SubMap(own, first))
  {
    hide WellFormedGroup, DescribeOccupancy, TextInjective, Overflows, SlicePayload, SliceRows, Classified, SubMap;
    VerdictsFromPayloads(g, pct, maxFrames, k);
    assert Earliest(g.rows, k, 0) <= j;
  }

  // ----- no observation is lost

  ghost predicate Observes(f: ClassifiedFrame, p: Position, d: Digest) {
    p in f.candidate.rowsByPosition && f.candidate.rowsByPosition[p].fingerprint == d
  }

  /** Each row's reading appears at its position in some frame that is consumed. */
  ghost predicate Preserved(r: RawRow, rs: seq<ClassifiedFrame>) {
    exists k :: 0 <= k < |rs| && IsCanonical(rs[k].classification) && Observes(rs[k], r.position, r.fingerprint)
  }

  ghost predicate Lossless(g: TimestampGroup, pct: real, maxFrames: int) {
    forall r :: r in g.rows ==> Preserved(r, Classified(g, pct, maxFrames))
  }

  /** Every later row repeats the first reading of its position. */
  ghost predicate AllRepeatFirst(rows: seq<RawRow>) {
    forall r :: r in rows ==>
      r.position in SliceRows(rows, 0) && SliceRows(rows, 0)[r.position].fingerprint == r.fingerprint
  }

  lemma RowPreserved(g: TimestampGroup, pct: real, maxFrames: int, r: RawRow)
    requires WellFormedGroup(g) && TextInjective(PositionsOf(g.rows))
    requires r in g.rows && !Overflows(g, maxFrames)
    ensures Preserved(r, Classified(g, pct, maxFrames))
  {
    var rs := Classified(g, pct, maxFrames);
    var k := r.occurrence;
    SliceHoldsOccurrence(g, k, r);
    assert r.position in SlicePositions(g.rows, k);
    SlicesOccupied(g, k);
    ClassifiedSlices(g, pct, maxFrames);
    hide WellFormedGroup, DescribeOccupancy, TextInjective, Overflows, SlicePositions, Classified, AsPayloadsDictate;
    VerdictsFromPayloads(g, pct, maxFrames, k);
    ReplayPointersSound(g, pct, maxFrames, k);
    assert SlicePayload(g.rows, k)[r.position] == r.fingerprint;
    if IsCanonical(rs[k].classification) {
      assert Observes(rs[k], r.position, r.fingerprint);
    } else {
      var target := rs[k].replayOf.value;
      VerdictsFromPayloads(g, pct, maxFrames, target);
      assert SlicePayload(g.rows, target)[r.position] == r.fingerprint;
      assert Observes(rs[target], r.position, r.fingerprint);
    }
  }

  lemma OverflowVerdict(g: TimestampGroup, pct: real, maxFrames: int)
    requires Overflows(g, maxFrames)
    ensures var rs := Classified(g, pct, maxFrames);
            && |rs| == 1 && rs[0].classification == UNIQUE
            && rs[0].candidate.rowsByPosition == SliceRows(g.rows, 0)
  {
    hide DescribeOccupancy, SliceRows, Fingerprint, Listed, StructuralIssues, FirstRepresentative;
    OverflowListed(g, maxFrames);
    var c := OverflowCandidate(g, maxFrames);
    ClassifyAppend([], c);
    assert [] + [c] == [c];
    assert Classified(g, pct, maxFrames) == [Verdict([], c)];
  }

  lemma OverflowKeepsFirst(g: TimestampGroup, pct: real, maxFrames: int, r: RawRow)
    requires Overflows(g, maxFrames) && r in g.rows
    ensures Preserved(r, Classified(g, pct, maxFrames))
            <==> r.position in SliceRows(g.rows, 0) && SliceRows(g.rows, 0)[r.position].fingerprint == r.fingerprint
  {
    hide Overflows, SliceRows, Classified;
    OverflowVerdict(g, pct, maxFrames);
    var rs := Classified(g, pct, maxFrames);
    assert Observes(rs[0], r.position, r.fingerprint)
      <==> r.position in SliceRows(g.rows, 0) && SliceRows(g.rows, 0)[r.position].fingerprint == r.fingerprint;
  }

  /** Keeping canonical frames only loses no observation, exactly when the group
      stays within the frame limit or nothing in it departs from its first frame. */
  lemma NoObservationLost(g: TimestampGroup, pct: real, maxFrames: int)
    requires WellFormedGroup(g) && TextInjective(PositionsOf(g.rows))
    ensures Lossless(g, pct, maxFrames) <==> !Overflows(g, maxFrames) || AllRepeatFirst(g.rows)
  {
    hide WellFormedGroup, TextInjective, Overflows, Preserved, Classified, SliceRows;
    forall r | r in g.rows
      ensures !Overflows(g, maxFrames) ==> Preserved(r, Classified(g, pct, maxFrames))
      ensures Overflows(g, maxFrames) ==>
                (Preserved(r, Classified(g, pct, maxFrames))
                 <==> r.position in SliceRows(g.rows, 0)
                      && SliceRows(g.rows, 0)[r.position].fingerprint == r.fingerprint)
    {
      if Overflows(g, maxFrames) {
        OverflowKeepsFirst(g, pct, maxFrames, r);
      } else {
        RowPreserved(g, pct, maxFrames, r);
      }
    }
    OverflowsOnlyWithRows(g, maxFrames);
  }

  lemma OverflowsOnlyWithRows(g: TimestampGroup, maxFrames: int)
    ensures Overflows(g, maxFrames) ==> g.rows != []
  {
  }
}
