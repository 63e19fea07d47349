/** Which timestamp groups hold a frame that genuinely differs from their first one. */
module Departures {
  import opened Sorting
  import opened FrameModels
  import opened CanonicalSerializer
  import opened FrameBuilder
  import opened ReplayDetector
  import opened ReplayLaws

  lemma {:induction false} UniqueIsFirst(cs: seq<FrameCandidate>)
    requires forall c :: c in cs ==> Listed(c)
    ensures forall i :: 0 <= i < |cs| ==> (Classify(cs)[i].classification == UNIQUE <==> i == 0)
  {
    hide Listed, Fingerprint, StructuralIssues, Matching, Differing, FirstRepresentative;
    if cs != [] {
      UniqueIsFirst(cs[..|cs| - 1]);
    }
  }

  // ----- which groups have a distinct frame

  ghost predicate Nested(cs: seq<FrameCandidate>) {
    forall c :: c in cs ==> c.Payload().Keys != {} && c.Payload().Keys <= cs[0].Payload().Keys
  }

  /** Candidate k contradicts the first at a shared position, and its fingerprint shows. */
  ghost predicate Departure(cs: seq<FrameCandidate>, k: nat)
    requires forall c :: c in cs ==> Listed(c)
  {
    k < |cs| && Differing(cs[k].Payload(), cs[0].Payload()) != {} && Fingerprint(cs[k]) != Fingerprint(cs[0])
  }

  ghost predicate DistinctAt(rs: seq<ClassifiedFrame>, k: nat) {
    k < |rs| && rs[k].classification == SAME_TIMESTAMP_DISTINCT_FRAME
  }

  /** Without a distinct frame so far, only the first one represents a payload. */
  ghost predicate FirstOnlyRepresents(rs: seq<ClassifiedFrame>) {
    forall k :: 0 < k < |rs| ==> !Represents(rs[k])
  }

  lemma SharedOrSame(own: Payload, first: Payload)
    requires own.Keys != {} && own.Keys <= first.Keys
    ensures Differing(own, first) != {} || Matching(own, first) != {}
  {
    var p :| p in own.Keys;
    assert p in Differing(own, first) || p in Matching(own, first);
  }

  lemma RepresentedByFirstOnly(rs: seq<ClassifiedFrame>, fingerprint: string)
    requires rs != [] && Represents(rs[0]) && FirstOnlyRepresents(rs)
    ensures FirstRepresentative(rs, fingerprint).Some? <==> rs[0].fingerprint == fingerprint
  {
    if rs[0].fingerprint == fingerprint {
      FirstRepresentativeIs(rs, fingerprint, 0);
    } else {
      NoRepresentative(rs, fingerprint);
    }
  }

  lemma VerdictAfterFirst(rs: seq<ClassifiedFrame>, c: FrameCandidate)
    requires Listed(c) && rs != []
    requires Represents(rs[0]) && FirstOnlyRepresents(rs)
    requires c.Payload().Keys != {} && c.Payload().Keys <= rs[0].candidate.Payload().Keys
    ensures var f := Verdict(rs, c);
            && (f.classification == SAME_TIMESTAMP_DISTINCT_FRAME
                <==> Differing(c.Payload(), rs[0].candidate.Payload()) != {} && Fingerprint(c) != rs[0].fingerprint)
            && (f.classification != SAME_TIMESTAMP_DISTINCT_FRAME ==> !Represents(f))
  {
    hide Fingerprint, Listed, StructuralIssues, Matching, Differing, FirstRepresentative, FrameCandidate.Payload;
    RepresentedByFirstOnly(rs, Fingerprint(c));
    SharedOrSame(c.Payload(), rs[0].candidate.Payload());
  }

  lemma FirstVerdict(c: FrameCandidate)
    requires Listed(c)
    ensures Classify([c]) == [Verdict([], c)]
    ensures Verdict([], c).classification == UNIQUE
  {
    hide Fingerprint, StructuralIssues;
    assert [c][..0] == [];
  }

  lemma {:induction false} DistinctIffDeparture(cs: seq<FrameCandidate>)
    requires cs != [] && Nested(cs)
    requires forall c :: c in cs ==> Listed(c)
    ensures (exists k: nat :: DistinctAt(Classify(cs), k)) <==> (exists k: nat :: Departure(cs, k))
    ensures !(exists k: nat :: DistinctAt(Classify(cs), k)) ==> FirstOnlyRepresents(Classify(cs))
  {
    hide Fingerprint, Listed, Verdict, Differing, FrameCandidate.Payload, Classify, Represents;
    if |cs| == 1 {
      FirstVerdict(cs[0]);
      NeverDepartsFromItself(cs[0].Payload());
      assert cs == [cs[0]];
    } else {
      var init, c := cs[..|cs| - 1], cs[|cs| - 1];
      assert cs == init + [c];
      assert init[0] == cs[0];
      ClassifyAppend(init, c);
      DistinctIffDeparture(init);
      DeparturePush(init, c);
      DistinctPush(Classify(init), Verdict(Classify(init), c));
      if !(exists k: nat :: DistinctAt(Classify(init), k)) {
        FirstRepresents(init);
        VerdictAfterFirst(Classify(init), c);
      }
    }
  }

  lemma NeverDepartsFromItself(p: Payload)
    ensures Differing(p, p) == {}
  {
  }

  lemma FirstRepresents(cs: seq<FrameCandidate>)
    requires cs != [] && forall c :: c in cs ==> Listed(c)
    ensures var first := Classify(cs)[0];
            Represents(first) && first.candidate == cs[0] && first.fingerprint == Fingerprint(cs[0])
  {
    UniqueIsFirst(cs);
    VerdictKeepsCandidate(cs);
  }

  lemma DeparturePush(init: seq<FrameCandidate>, c: FrameCandidate)
    requires init != [] && forall d :: d in init + [c] ==> Listed(d)
    ensures forall d :: d in init ==> Listed(d)
    ensures (exists k: nat :: Departure(init + [c], k)) <==>
              (exists k: nat :: Departure(init, k))
              || (Differing(c.Payload(), init[0].Payload()) != {} && Listed(c)
                && Fingerprint(c) != Fingerprint(init[0]))
  {
    hide Fingerprint, Listed, Differing, FrameCandidate.Payload;
    var cs := init + [c];
    assert forall d :: d in init ==> d in cs;
    assert cs[|init|] == c && c in cs && cs[0] == init[0];
    if k: nat :| Departure(init, k) {
      assert cs[k] == init[k];
      assert Departure(cs, k);
    }
    if Differing(c.Payload(), init[0].Payload()) != {} && Fingerprint(c) != Fingerprint(init[0]) {
      assert Departure(cs, |init|);
    }
    if k: nat :| Departure(cs, k) {
      if k < |init| {
        assert cs[k] == init[k];
        assert Departure(init, k);
      }
    }
  }

  lemma DistinctPush(rs: seq<ClassifiedFrame>, f: ClassifiedFrame)
    ensures (exists k: nat :: DistinctAt(rs + [f], k)) <==>
              (exists k: nat :: DistinctAt(rs, k)) || f.classification == SAME_TIMESTAMP_DISTINCT_FRAME
  {
    var all := rs + [f];
    if k: nat :| DistinctAt(rs, k) {
      assert DistinctAt(all, k);
    }
    if f.classification == SAME_TIMESTAMP_DISTINCT_FRAME {
      assert DistinctAt(all, |rs|);
    }
    if k: nat :| DistinctAt(all, k) {
      assert k < |rs| ==> DistinctAt(rs, k);
    }
  }

  // ----- read off the group

  ghost function SliceFingerprint(g: TimestampGroup, k: nat): string {
    SliceListed(g, 0.0, k);
    Fingerprint(SliceCandidate(g, 0.0, k))
  }

  /** Row column by row column: the k-th rows contradict the first ones somewhere, and
      their fingerprint shows it. */
  ghost predicate DepartsAt(g: TimestampGroup, k: nat) {
    Differing(SlicePayload(g.rows, k), SlicePayload(g.rows, 0)) != {}
      && SliceFingerprint(g, k) != SliceFingerprint(g, 0)
  }

  ghost predicate Departs(g: TimestampGroup, maxFrames: int) {
    !Overflows(g, maxFrames) && exists k: nat :: DepartsAt(g, k)
  }

  lemma FingerprintIgnoresThreshold(g: TimestampGroup, pct: real, k: nat)
    ensures Listed(SliceCandidate(g, pct, k))
    ensures Fingerprint(SliceCandidate(g, pct, k)) == SliceFingerprint(g, k)
  {
    hide PayloadFingerprint, DescribeOccupancy, BucketOrder, SliceRows, ClassifyStatus, Select;
    SliceListed(g, pct, k);
    SliceListed(g, 0.0, k);
    CandidatePayload(g, pct, k);
    CandidatePayload(g, 0.0, k);
  }

  lemma DepartsOnlyWithin(g: TimestampGroup, k: nat)
    requires WellFormedGroup(g)
    ensures DepartsAt(g, k) ==> g.rows != [] && k < DescribeOccupancy(g).ImpliedFrameCount()
  {
    hide WellFormedGroup, DescribeOccupancy, SliceFingerprint, SlicePositions;
    if DepartsAt(g, k) {
      var p :| p in Differing(SlicePayload(g.rows, k), SlicePayload(g.rows, 0));
      assert p in SlicePositions(g.rows, k);
      RowsAtSlice(g.rows, p, k);
      SlicesOccupied(g, k);
    }
  }

  lemma RowsAtSlice(rows: seq<RawRow>, p: Position, k: nat)
    ensures p in SlicePositions(rows, k) ==> rows != []
  {
  }

  lemma SlicesNested(g: TimestampGroup, pct: real)
    requires WellFormedGroup(g) && g.rows != []
    ensures Nested(SliceCandidates(g, pct, DescribeOccupancy(g).ImpliedFrameCount()))
    ensures DescribeOccupancy(g).ImpliedFrameCount() > 0
  {
    var n := DescribeOccupancy(g).ImpliedFrameCount();
    hide WellFormedGroup, DescribeOccupancy, SliceCandidate, SlicePositions, FrameCandidate.Payload;
    CountPositive(g);
    forall k: nat | k < n
      ensures SliceCandidate(g, pct, k).Payload().Keys != {}
      ensures SliceCandidate(g, pct, k).Payload().Keys <= SliceCandidate(g, pct, 0).Payload().Keys
    {
      CandidatePayload(g, pct, k);
      CandidatePayload(g, pct, 0);
      SlicesOccupied(g, k);
      SlicesWithinFirst(g.rows, k);
    }
  }

  lemma SlicesWithinFirst(rows: seq<RawRow>, k: nat)
    ensures SlicePositions(rows, k) <= SlicePositions(rows, 0)
  {
  }

  lemma CountPositive(g: TimestampGroup)
    ensures DescribeOccupancy(g).ImpliedFrameCount() > 0
  {
    hide DescribeOccupancy;
  }

  lemma SliceDeparture(g: TimestampGroup, pct: real, n: nat, k: nat)
    requires k < n
    ensures forall c :: c in SliceCandidates(g, pct, n) ==> Listed(c)
    ensures Departure(SliceCandidates(g, pct, n), k) <==> DepartsAt(g, k)
  {
    hide SliceCandidate, Fingerprint, Listed, Differing, SliceFingerprint, SlicePayload, FrameCandidate.Payload;
    SlicesListed(g, pct, n);
    FingerprintIgnoresThreshold(g, pct, k);
    FingerprintIgnoresThreshold(g, pct, 0);
    CandidatePayload(g, pct, k);
    CandidatePayload(g, pct, 0);
  }

  /** Some frame of a group is a distinct one exactly when the group does not overflow
      and some of its row columns departs from its first rows. */
  lemma DistinctFrameIff(g: TimestampGroup, pct: real, maxFrames: int)
    requires WellFormedGroup(g)
    ensures (exists k: nat :: DistinctAt(Classified(g, pct, maxFrames), k)) <==> Departs(g, maxFrames)
  {
    hide WellFormedGroup, Overflows, DepartsAt, Classified, Classify, Listed, SliceCandidates, Departure;
    var n := DescribeOccupancy(g).ImpliedFrameCount();
    if g.rows == [] {
      NoRowsNoFrames(g, pct, maxFrames);
      forall k: nat
        ensures !DepartsAt(g, k)
      {
        DepartsOnlyWithin(g, k);
      }
    } else if Overflows(g, maxFrames) {
      OverflowNotDistinct(g, pct, maxFrames);
    } else {
      ClassifiedAsSlices(g, pct, maxFrames);
      var cs := SliceCandidates(g, pct, n);
      SlicesNested(g, pct);
      SliceCount(g, pct, n);
      DistinctIffDeparture(cs);
      forall k: nat
        ensures Departure(cs, k) <==> DepartsAt(g, k)
      {
        DepartsOnlyWithin(g, k);
        if k < n {
          SliceDeparture(g, pct, n, k);
        } else {
          DepartureWithin(cs, k);
        }
      }
    }
  }

  lemma DepartureWithin(cs: seq<FrameCandidate>, k: nat)
    requires forall c :: c in cs ==> Listed(c)
    ensures Departure(cs, k) ==> k < |cs|
  {
  }

  lemma SliceCount(g: TimestampGroup, pct: real, n: nat)
    ensures |SliceCandidates(g, pct, n)| == n
  {
  }

  lemma ClassifiedAsSlices(g: TimestampGroup, pct: real, maxFrames: int)
    requires g.rows != [] && !Overflows(g, maxFrames)
    ensures var cs := SliceCandidates(g, pct, DescribeOccupancy(g).ImpliedFrameCount());
            && (forall c :: c in cs ==> Listed(c))
            && Classified(g, pct, maxFrames) == Classify(cs)
  {
    hide Listed, SliceCandidates, DescribeOccupancy;
    CandidatesListed(g, pct, maxFrames);
  }

  lemma NoRowsNoFrames(g: TimestampGroup, pct: real, maxFrames: int)
    requires g.rows == []
    ensures Classified(g, pct, maxFrames) == []
  {
    hide Listed;
  }

  lemma OverflowNotDistinct(g: TimestampGroup, pct: real, maxFrames: int)
    requires Overflows(g, maxFrames)
    ensures !(exists k: nat :: DistinctAt(Classified(g, pct, maxFrames), k))
  {
    hide OverflowCandidate, Listed, DescribeOccupancy;
    OverflowListed(g, maxFrames);
    CandidatesListed(g, pct, maxFrames);
    FirstVerdict(OverflowCandidate(g, maxFrames));
  }

  /** Where positions render differently, departing is having a row that does not repeat
      the first reading of its position. */
  lemma DepartsIffNotAllRepeat(g: TimestampGroup)
    requires WellFormedGroup(g) && TextInjective(PositionsOf(g.rows))
    ensures (exists k: nat :: DepartsAt(g, k)) <==> !AllRepeatFirst(g.rows)
  {
    hide SliceFingerprint, TextInjective, SlicePositions, SliceRows, DepartsAt;
    if k: nat :| DepartsAt(g, k) {
      DepartureHasRow(g, k);
    }
    if !AllRepeatFirst(g.rows) {
      var r :| r in g.rows
               && !(r.position in SliceRows(g.rows, 0)
                  && SliceRows(g.rows, 0)[r.position].fingerprint == r.fingerprint);
      RowDeparts(g, r);
    }
  }

  lemma DepartureHasRow(g: TimestampGroup, k: nat)
    requires WellFormedGroup(g) && DepartsAt(g, k)
    ensures !AllRepeatFirst(g.rows)
  {
    hide SliceFingerprint, TextInjective, RowsAt;
    var p :| p in Differing(SlicePayload(g.rows, k), SlicePayload(g.rows, 0));
    ColumnIndexed(g.rows, p);
    var r := RowsAt(g.rows, p)[k];
    assert r in g.rows && r.position == p;
  }

  lemma RowDeparts(g: TimestampGroup, r: RawRow)
    requires WellFormedGroup(g) && TextInjective(PositionsOf(g.rows))
    requires r in g.rows
    requires !(r.position in SliceRows(g.rows, 0) && SliceRows(g.rows, 0)[r.position].fingerprint == r.fingerprint)
    ensures DepartsAt(g, r.occurrence)
  {
    hide *;
    RowDiffers(g, r);
    ContradictionShows(g, r.occurrence);
  }

  lemma RowDiffers(g: TimestampGroup, r: RawRow)
    requires WellFormedGroup(g) && r in g.rows
    requires !(r.position in SliceRows(g.rows, 0) && SliceRows(g.rows, 0)[r.position].fingerprint == r.fingerprint)
    ensures Differing(SlicePayload(g.rows, r.occurrence), SlicePayload(g.rows, 0)) != {}
  {
    var k := r.occurrence;
    SliceHoldsOccurrence(g, k, r);
    SlicesWithinFirst(g.rows, k);
    assert r.position in SlicePositions(g.rows, k) && r.position in SlicePositions(g.rows, 0);
    hide WellFormedGroup, SourceIndexed, SlicePositions, RowsAt;
    assert SlicePayload(g.rows, k)[r.position] == r.fingerprint;
    assert r.position in Differing(SlicePayload(g.rows, k), SlicePayload(g.rows, 0));
  }

  lemma ContradictionShows(g: TimestampGroup, k: nat)
    requires TextInjective(PositionsOf(g.rows))
    requires Differing(SlicePayload(g.rows, k), SlicePayload(g.rows, 0)) != {}
    ensures DepartsAt(g, k)
  {
    hide SlicePayload, Differing, Fingerprint, TextInjective, SliceCandidate, Listed;
    SlicePayloadsDiffer(SlicePayload(g.rows, k), SlicePayload(g.rows, 0));
    FingerprintsMatch(g, 0.0, 0, k);
  }

  lemma SlicePayloadsDiffer(a: Payload, b: Payload)
    ensures Differing(a, b) != {} ==> a != b
  {
  }
}
