/** What each verdict, and each frame as it is stored, says of the candidates before it:
    classification, replay target, issues, differing positions and note, for candidates
    in any order. */
module VerdictFacts {
  import opened Sorting
  import opened FrameModels
  import opened FrameBuilder
  import opened ReplayDetector
  import opened ReplayLaws
  import Topology
  import opened Diagnostics
  import opened Reconstruction
  import opened Losslessness
  import opened FrameFacts

  // ----- issues

  /** Which issues a judged frame carries. */
  ghost predicate IssuesRead(f: ClassifiedFrame) {
    var c := f.candidate;
    && (FRAME_UNEXPECTED_POSITION in f.issues <==> exists p :: p in c.rowsByPosition && p !in c.expected)
    && (FRAME_MISSING_POSITION in f.issues
        <==> c.status != AMBIGUOUS_STATUS && exists p :: p in c.expected && p !in c.rowsByPosition)
    && (AMBIGUOUS_FRAME_BOUNDARY in f.issues <==> c.status == AMBIGUOUS_STATUS || f.classification == AMBIGUOUS)
    && (FULL_REPLAY_ISSUE in f.issues <==> f.classification == FULL_FRAME_REPLAY)
    && (PARTIAL_REPLAY_ISSUE in f.issues <==> f.classification == PARTIAL_FRAME_REPLAY)
    && (DISTINCT_FRAME_ISSUE in f.issues <==> f.classification == SAME_TIMESTAMP_DISTINCT_FRAME)
    && INCONSISTENT_TOPOLOGY !in f.issues
  }

  /** Among candidates in any order. */
  lemma IssuesFollow(cs: seq<FrameCandidate>, k: nat)
    requires (forall c :: c in cs ==> Listed(c)) && k < |cs|
    ensures ClassifyAny(cs)[k].candidate == cs[k] && IssuesRead(ClassifyAny(cs)[k])
  {
    hide Listed, ClassifyAny, AnyVerdict, IssuesRead;
    ClassifiedAt(cs, k);
    JudgedIssues(ClassifyAny(cs[..k]), cs[k]);
  }

  lemma StructuralRead(c: FrameCandidate)
    ensures var issues := StructuralIssues(c);
            && (FRAME_UNEXPECTED_POSITION in issues <==> exists p :: p in c.rowsByPosition && p !in c.expected)
            && (FRAME_MISSING_POSITION in issues
                <==> c.status != AMBIGUOUS_STATUS && exists p :: p in c.expected && p !in c.rowsByPosition)
            && (AMBIGUOUS_FRAME_BOUNDARY in issues <==> c.status == AMBIGUOUS_STATUS)
            && forall i :: i in issues ==>
                 i in {FRAME_UNEXPECTED_POSITION, FRAME_MISSING_POSITION, AMBIGUOUS_FRAME_BOUNDARY}
  {
    if p :| p in c.rowsByPosition && p !in c.expected {
      assert p in c.Unexpected();
    }
    if p :| p in c.expected && p !in c.rowsByPosition {
      assert p in c.Missing();
    }
  }

  lemma JudgedIssues(earlier: seq<ClassifiedFrame>, c: FrameCandidate)
    requires Listed(c)
    ensures AnyVerdict(earlier, c).candidate == c && IssuesRead(AnyVerdict(earlier, c))
  {
    hide Listed, Judge, AnchorOf, FrameCandidate.Payload, IssuesRead;
    var anchor := AnchorOf(earlier);
    JudgeIssues(earlier, c, 0, map[]);
    if anchor.Some? {
      JudgeIssues(earlier, c, anchor.value.sequence, anchor.value.payload);
    }
  }

  lemma JudgeIssues(earlier: seq<ClassifiedFrame>, c: FrameCandidate, sequence: nat, reference: Payload)
    requires Listed(c)
    ensures var f := Judge(earlier, c, sequence, reference); f.candidate == c && IssuesRead(f)
  {
    hide Listed, Fingerprint, FirstRepresentative, StructuralIssues, Matching, Differing, FrameCandidate.Payload;
    StructuralRead(c);
  }

  lemma {:induction false} ClassifiedAt(cs: seq<FrameCandidate>, k: nat)
    requires (forall c :: c in cs ==> Listed(c)) && k < |cs|
    ensures ClassifyAny(cs)[..k] == ClassifyAny(cs[..k])
    ensures ClassifyAny(cs)[k] == AnyVerdict(ClassifyAny(cs[..k]), cs[k])
  {
    hide Listed, AnyVerdict;
    var n := |cs| - 1;
    if k < n {
      ClassifiedAt(cs[..n], k);
      assert cs[..n][..k] == cs[..k];
    }
  }

  // ----- classification

  /** Frame i represents what it reads: it is no replay. */
  ghost predicate Original(rs: seq<ClassifiedFrame>, i: int)
    requires 0 <= i < |rs|
  {
    rs[i].classification != FULL_FRAME_REPLAY && rs[i].classification != PARTIAL_FRAME_REPLAY
  }

  /** Before frame k, frame i is the first original that fingerprints as k does. */
  ghost predicate RepeatedFrom(rs: seq<ClassifiedFrame>, k: nat, i: int)
    requires k < |rs|
  {
    && 0 <= i < k && Original(rs, i) && rs[i].fingerprint == rs[k].fingerprint
    && forall j :: 0 <= j < i && Original(rs, j) ==> rs[j].fingerprint != rs[k].fingerprint
  }

  /** Before frame k, frame i is the original of least sequence, the last of equals. */
  ghost predicate Reference(rs: seq<ClassifiedFrame>, k: nat, i: int)
    requires k <= |rs|
  {
    && 0 <= i < k && Original(rs, i)
    && forall j :: 0 <= j < k && Original(rs, j) ==>
         && rs[i].candidate.sequence <= rs[j].candidate.sequence
         && (rs[i].candidate.sequence == rs[j].candidate.sequence ==> j <= i)
  }

  /** Both frames have a row at the position. */
  predicate Shared(a: FrameCandidate, b: FrameCandidate, p: Position) {
    p in a.rowsByPosition && p in b.rowsByPosition
  }

  predicate SameReading(a: FrameCandidate, b: FrameCandidate, p: Position) {
    Shared(a, b, p) && a.rowsByPosition[p].fingerprint == b.rowsByPosition[p].fingerprint
  }

  predicate OtherReading(a: FrameCandidate, b: FrameCandidate, p: Position) {
    Shared(a, b, p) && a.rowsByPosition[p].fingerprint != b.rowsByPosition[p].fingerprint
  }

  /** The verdict on frame k, which no earlier original repeats, against frame i. */
  ghost predicate ComparedRead(f: ClassifiedFrame, reference: FrameCandidate) {
    var c := f.candidate;
    && (f.classification == SAME_TIMESTAMP_DISTINCT_FRAME <==> exists p :: OtherReading(c, reference, p))
    && (f.classification == PARTIAL_FRAME_REPLAY
        <==> (exists p :: SameReading(c, reference, p)) && !exists p :: OtherReading(c, reference, p))
    && (f.classification == AMBIGUOUS <==> !exists p :: Shared(c, reference, p))
    && (forall p :: p in f.differing <==> OtherReading(c, reference, p))
    && f.replayOf == (if f.classification == PARTIAL_FRAME_REPLAY then Some(reference.sequence) else None)
    && f.note == (if f.classification == AMBIGUOUS then NoSharedPosition
                  else if f.classification == PARTIAL_FRAME_REPLAY && c.note == NoNote
                  then RepeatsCanonical(|set p | p in c.rowsByPosition && SameReading(c, reference, p)|)
                  else c.note)
  }

  /** The verdict on frame k, read off the verdicts and rows of the frames before it. */
  ghost predicate VerdictRead(rs: seq<ClassifiedFrame>, k: nat)
    requires k < |rs|
  {
    var f := rs[k];
    && (f.classification == UNIQUE <==> k == 0)
    && (f.classification == FULL_FRAME_REPLAY <==> exists i :: RepeatedFrom(rs, k, i))
    && (forall i :: RepeatedFrom(rs, k, i) ==> f.replayOf == Some(rs[i].candidate.sequence))
    && (f.classification == UNIQUE || f.classification == FULL_FRAME_REPLAY ==>
          f.differing == {} && f.note == f.candidate.note)
    && (f.classification == UNIQUE ==> f.replayOf == None)
    && (k > 0 ==> exists i :: Reference(rs, k, i))
    && (k > 0 && f.classification != FULL_FRAME_REPLAY ==>
          forall i :: Reference(rs, k, i) ==> ComparedRead(f, rs[i].candidate))
  }

  lemma {:induction false} FirstRepresentativeRead(rs: seq<ClassifiedFrame>, fingerprint: string)
    ensures var found := FirstRepresentative(rs, fingerprint);
            if found.None? then forall i :: 0 <= i < |rs| && Represents(rs[i]) ==> rs[i].fingerprint != fingerprint
            else exists i :: && 0 <= i < |rs| && Represents(rs[i]) && rs[i].fingerprint == fingerprint
                             && rs[i].candidate.sequence == found.value
                             && forall j :: 0 <= j < i && Represents(rs[j]) ==> rs[j].fingerprint != fingerprint
  {
    if rs != [] {
      var init := rs[..|rs| - 1];
      FirstRepresentativeRead(init, fingerprint);
      assert forall i :: 0 <= i < |init| ==> init[i] == rs[i];
    }
  }

  lemma {:induction false} AnchorRead(rs: seq<ClassifiedFrame>) returns (a: int)
    ensures AnchorOf(rs).None? ==> forall i :: 0 <= i < |rs| ==> !Represents(rs[i])
    ensures AnchorOf(rs).Some? ==>
              && 0 <= a < |rs| && Represents(rs[a])
              && AnchorOf(rs).value == Anchor(rs[a].candidate.sequence, rs[a].candidate.Payload())
              && forall j :: 0 <= j < |rs| && Represents(rs[j]) ==>
                   && rs[a].candidate.sequence <= rs[j].candidate.sequence
                   && (rs[a].candidate.sequence == rs[j].candidate.sequence ==> j <= a)
  {
    hide FrameCandidate.Payload;
    if rs == [] {
      a := 0;
    } else {
      var n := |rs| - 1;
      a := AnchorRead(rs[..n]);
      assert forall i :: 0 <= i < n ==> rs[..n][i] == rs[i];
      var found := AnchorOf(rs[..n]);
      if Represents(rs[n]) && (found.None? || rs[n].candidate.sequence <= found.value.sequence) {
        a := n;
      }
    }
  }

  lemma Compared(c: FrameCandidate, reference: FrameCandidate)
    ensures forall p :: p in Differing(c.Payload(), reference.Payload()) <==> OtherReading(c, reference, p)
    ensures forall p :: p in Matching(c.Payload(), reference.Payload()) <==> SameReading(c, reference, p)
    ensures Matching(c.Payload(), reference.Payload())
            == set p | p in c.rowsByPosition && SameReading(c, reference, p)
  {
  }

  lemma JudgedCompared(earlier: seq<ClassifiedFrame>, c: FrameCandidate, reference: FrameCandidate)
    requires Listed(c) && earlier != [] && FirstRepresentative(earlier, Fingerprint(c)).None?
    ensures var f := Judge(earlier, c, reference.sequence, reference.Payload());
            f.classification != FULL_FRAME_REPLAY && f.classification != UNIQUE && ComparedRead(f, reference)
  {
    hide Listed, Fingerprint, FirstRepresentative, StructuralIssues, Matching, Differing, SameReading, OtherReading,
      FrameCandidate.Payload;
    Compared(c, reference);
    var matching, differing := Matching(c.Payload(), reference.Payload()), Differing(c.Payload(), reference.Payload());
    SharedEither(c, reference);
    EmptyIff(matching);
    EmptyIff(differing);
  }

  lemma SharedEither(a: FrameCandidate, b: FrameCandidate)
    ensures forall p :: Shared(a, b, p) <==> SameReading(a, b, p) || OtherReading(a, b, p)
    ensures forall p :: !(SameReading(a, b, p) && OtherReading(a, b, p))
  {
  }

  lemma EmptyIff(ps: set<Position>)
    ensures ps == {} <==> !exists p :: p in ps
  {
  }

  lemma JudgedRepeated(earlier: seq<ClassifiedFrame>, c: FrameCandidate, sequence: nat, reference: Payload)
    requires Listed(c)
    ensures var f := Judge(earlier, c, sequence, reference);
            var found := FirstRepresentative(earlier, f.fingerprint);
            && f.candidate == c && f.fingerprint == Fingerprint(c)
            && f.classification != EXACT_ROW_DUPLICATE
            && (f.classification == UNIQUE <==> earlier == [])
            && (f.classification == FULL_FRAME_REPLAY <==> earlier != [] && found.Some?)
            && (earlier == [] || found.Some? ==>
                  f.differing == {} && f.note == c.note && f.replayOf == if earlier == [] then None else found)
  {
    hide Listed, Fingerprint, FirstRepresentative, StructuralIssues, Matching, Differing, FrameCandidate.Payload;
  }

  ghost predicate AllOriginal(rs: seq<ClassifiedFrame>) {
    forall i :: 0 <= i < |rs| ==> (Represents(rs[i]) <==> Original(rs, i))
  }

  lemma NoRowDuplicates(cs: seq<FrameCandidate>)
    requires forall c :: c in cs ==> Listed(c)
    ensures var rs := ClassifyAny(cs);
            AllOriginal(rs) && forall i :: 0 <= i < |rs| ==> rs[i].candidate == cs[i]
  {
    hide Listed, ClassifyAny;
    var rs := ClassifyAny(cs);
    forall i | 0 <= i < |rs|
      ensures rs[i].candidate == cs[i] && (Represents(rs[i]) <==> Original(rs, i))
    {
      ClassifiedAt(cs, i);
      JudgedAny(ClassifyAny(cs[..i]), cs[i]);
    }
  }

  lemma JudgedAny(earlier: seq<ClassifiedFrame>, c: FrameCandidate)
    requires Listed(c)
    ensures var f := AnyVerdict(earlier, c);
            f.candidate == c && f.fingerprint == Fingerprint(c) && f.classification != EXACT_ROW_DUPLICATE
  {
    hide Listed, Judge, AnchorOf, FrameCandidate.Payload;
    var anchor := AnchorOf(earlier);
    JudgedRepeated(earlier, c, 0, map[]);
    if anchor.Some? {
      JudgedRepeated(earlier, c, anchor.value.sequence, anchor.value.payload);
    }
  }

  lemma RepeatsFound(rs: seq<ClassifiedFrame>, k: nat)
    requires k < |rs| && AllOriginal(rs)
    ensures var found := FirstRepresentative(rs[..k], rs[k].fingerprint);
            && (found.Some? <==> exists i :: RepeatedFrom(rs, k, i))
            && forall i :: RepeatedFrom(rs, k, i) ==> found == Some(rs[i].candidate.sequence)
  {
    hide FirstRepresentative, Represents, Original;
    var earlier, fingerprint := rs[..k], rs[k].fingerprint;
    FirstRepresentativeRead(earlier, fingerprint);
    if FirstRepresentative(earlier, fingerprint).Some? {
      var i :| && 0 <= i < |earlier| && Represents(earlier[i]) && earlier[i].fingerprint == fingerprint
               && earlier[i].candidate.sequence == FirstRepresentative(earlier, fingerprint).value
               && forall j :: 0 <= j < i && Represents(earlier[j]) ==> earlier[j].fingerprint != fingerprint;
      assert forall j :: 0 <= j < i ==> earlier[j] == rs[j];
      assert RepeatedFrom(rs, k, i);
    }
    forall i | RepeatedFrom(rs, k, i)
      ensures FirstRepresentative(earlier, fingerprint) == Some(rs[i].candidate.sequence)
    {
      assert earlier[i] == rs[i];
    }
  }

  lemma ReferenceFound(rs: seq<ClassifiedFrame>, k: nat) returns (a: int)
    requires 0 < k < |rs| && AllOriginal(rs) && Represents(rs[0])
    ensures Reference(rs, k, a)
    ensures AnchorOf(rs[..k]) == Some(Anchor(rs[a].candidate.sequence, rs[a].candidate.Payload()))
    ensures forall i :: Reference(rs, k, i) ==> i == a
  {
    hide AnchorOf, Represents, Original, FrameCandidate.Payload;
    a := AnchorRead(rs[..k]);
    assert forall j :: 0 <= j < k ==> rs[..k][j] == rs[j];
    assert Reference(rs, k, a);
  }

  /** Every verdict of candidates in any order. */
  lemma VerdictsRead(cs: seq<FrameCandidate>, k: nat)
    requires (forall c :: c in cs ==> Listed(c)) && k < |cs|
    ensures VerdictRead(ClassifyAny(cs), k)
  {
    hide Listed, ClassifyAny, Judge, AnchorOf, ComparedRead, FirstRepresentative, Represents, Original, Fingerprint,
      FrameCandidate.Payload, RepeatedFrom, Reference;
    var rs := ClassifyAny(cs);
    ClassifiedAt(cs, k);
    NoRowDuplicates(cs);
    RepeatsFound(rs, k);
    if k == 0 {
      JudgedRepeated([], cs[k], 0, map[]);
      NoneBefore(rs);
    } else {
      FirstIsOriginal(cs);
      var a := ReferenceFound(rs, k);
      ReferenceBefore(rs, k, a);
      JudgedRepeated(rs[..k], cs[k], cs[a].sequence, cs[a].Payload());
      if FirstRepresentative(rs[..k], Fingerprint(cs[k])).None? {
        JudgedCompared(rs[..k], cs[k], cs[a]);
      }
    }
  }

  lemma ReferenceBefore(rs: seq<ClassifiedFrame>, k: nat, a: int)
    requires k <= |rs| && Reference(rs, k, a)
    ensures 0 <= a < k
  {
  }

  lemma NoneBefore(rs: seq<ClassifiedFrame>)
    requires rs != []
    ensures AnchorOf(rs[..0]).None? && FirstRepresentative(rs[..0], rs[0].fingerprint).None?
    ensures forall i :: !RepeatedFrom(rs, 0, i)
  {
  }

  lemma FirstIsOriginal(cs: seq<FrameCandidate>)
    requires (forall c :: c in cs ==> Listed(c)) && cs != []
    ensures Represents(ClassifyAny(cs)[0])
  {
    hide Listed, AnyVerdict, ClassifyAny;
    ClassifiedAt(cs, 0);
    FirstAnyRepresents(ClassifyAny(cs[..0]), cs[0]);
  }

  /** Every verdict on the frames of a group. */
  lemma GroupVerdictsRead(g: TimestampGroup, pct: real, maxFrames: int, k: nat)
    requires k < |Classified(g, pct, maxFrames)|
    ensures VerdictRead(Classified(g, pct, maxFrames), k) && IssuesRead(Classified(g, pct, maxFrames)[k])
  {
    hide Listed, Candidates, Classify, ClassifyAny, InSequenceOrder, VerdictRead, IssuesRead, LedByFirst;
    CandidatesListed(g, pct, maxFrames);
    InOrderAgrees(Candidates(g, pct, maxFrames));
    VerdictsRead(Candidates(g, pct, maxFrames), k);
    IssuesFollow(Candidates(g, pct, maxFrames), k);
  }

  // ----- the frame as it is stored

  lemma {:induction false} UnrepeatedRead(issues: seq<Issue>)
    ensures Distinct(Unrepeated(issues))
    ensures forall i :: i in Unrepeated(issues) <==> i in issues
  {
    if issues != [] {
      var init, last := issues[..|issues| - 1], issues[|issues| - 1];
      UnrepeatedRead(init);
      assert issues == init + [last];
    }
  }

  /** The row numbers of a frame ascend. */
  ghost predicate NumbersAscend(rows: seq<RawRow>) {
    forall i, j :: 0 <= i < j < |rows| ==> rows[i].number < rows[j].number
  }

  lemma {:induction false} RowsInOrderAt(order: seq<Position>, rows: map<Position, RawRow>)
    requires forall p :: p in order ==> p in rows
    ensures |RowsInOrder(order, rows)| == |order|
    ensures forall i :: 0 <= i < |order| ==> RowsInOrder(order, rows)[i] == rows[order[i]]
  {
    if order != [] {
      RowsInOrderAt(order[..|order| - 1], rows);
    }
  }

  lemma NumbersAscendSorted(rows: seq<RawRow>)
    requires forall i, j :: 0 <= i < j < |rows| ==> rows[i].number != rows[j].number
    ensures NumbersAscend(Sort(rows, NumberLe))
  {
    hide Sort, Select;
    var sorted := Sort(rows, NumberLe);
    SortAscends(rows, NumberLe);
    MembersFromMultiset(sorted, rows);
    DistinctSorted(rows);
    forall i, j | 0 <= i < j < |sorted|
      ensures sorted[i].number < sorted[j].number
    {
      assert NumberLe(sorted[i], sorted[j]) && sorted[i] != sorted[j];
      NumbersTell(rows, sorted[i], sorted[j]);
    }
  }

  lemma DistinctSorted(rows: seq<RawRow>)
    requires forall i, j :: 0 <= i < j < |rows| ==> rows[i].number != rows[j].number
    ensures Distinct(Sort(rows, NumberLe))
  {
    hide Sort;
    Topology.DistinctOnce(rows);
    Topology.DistinctOnce(Sort(rows, NumberLe));
  }

  lemma NumbersTell(rows: seq<RawRow>, a: RawRow, b: RawRow)
    requires forall i, j :: 0 <= i < j < |rows| ==> rows[i].number != rows[j].number
    requires a in rows && b in rows && a != b
    ensures a.number != b.number
  {
    var i :| 0 <= i < |rows| && rows[i] == a;
    var j :| 0 <= j < |rows| && rows[j] == b;
  }

  /** How a frame is stored: its rows ascending, its counts, positions, issues and detail. */
  ghost predicate StoredRead(g: TimestampGroup, basis: Topology.Basis, f: ClassifiedFrame, r: ReconstructedFrame) {
    var c := f.candidate;
    && r.key == g.key && r.sequence == c.sequence && r.fingerprint == f.fingerprint
    && r.status == c.status && r.classification == f.classification && r.replayOf == f.replayOf
    && NumbersAscend(r.rows)
    && (forall row :: row in r.rows <==> exists p :: p in c.rowsByPosition && c.rowsByPosition[p] == row)
    && r.expectedCount == |g.expected| && r.observedCount == |c.rowsByPosition.Keys|
    && (forall p :: p in r.missing <==> p in c.expected && p !in c.rowsByPosition)
    && (forall p :: p in r.unexpected <==> p in c.rowsByPosition && p !in c.expected)
    && Distinct(r.issues)
    && (forall i :: i in r.issues <==> i in f.issues || (i == INCONSISTENT_TOPOLOGY && basis == Topology.UNRESOLVED))
    && r.detail.basis == basis && r.detail.groupRows == |g.rows| + |g.unassignedRows|
    && (forall p :: p in PositionsOf(g.rows) ==> CountAt(g.rows, p) <= r.detail.maxOccurrence)
    && (g.rows != [] ==> exists p :: p in PositionsOf(g.rows) && CountAt(g.rows, p) == r.detail.maxOccurrence)
    && (r.detail.evenOccupancy <==> !UnevenRows(g.rows))
    && r.detail.differing == f.differing && r.detail.note == f.note
  }

  lemma FrameNumbers(g: TimestampGroup, c: FrameCandidate, k: nat)
    requires SourceIndexed(g.rows) && c.rowsByPosition == SliceRows(g.rows, k)
    requires Distinct(c.order) && forall p :: p in c.order ==> p in c.rowsByPosition
    ensures NumbersAscend(Sort(RowsInOrder(c.order, c.rowsByPosition), NumberLe))
  {
    hide Sort, SourceIndexed, SliceRows, RowsInOrder, NumbersAscend;
    var rows := RowsInOrder(c.order, c.rowsByPosition);
    RowsInOrderAt(c.order, c.rowsByPosition);
    forall i, j | 0 <= i < j < |rows|
      ensures rows[i].number != rows[j].number
    {
      assert c.order[i] in c.rowsByPosition && c.order[j] in c.rowsByPosition;
      SliceRowsAreRows(g.rows, k, c.order[i]);
      SliceRowsAreRows(g.rows, k, c.order[j]);
      NumbersName(g.rows, rows[i], rows[j]);
    }
    NumbersAscendSorted(rows);
  }

  lemma DetailRead(g: TimestampGroup, basis: Topology.Basis, f: ClassifiedFrame)
    requires Listed(f.candidate)
    ensures var r, c := ToFrame(g, basis, f), f.candidate;
            && r.key == g.key && r.sequence == c.sequence && r.fingerprint == f.fingerprint
            && r.status == c.status && r.classification == f.classification && r.replayOf == f.replayOf
            && r.expectedCount == |g.expected| && r.observedCount == |c.rowsByPosition.Keys|
            && r.missing == c.expected - c.rowsByPosition.Keys && r.unexpected == c.rowsByPosition.Keys - c.expected
            && r.issues == Unrepeated(f.issues + if basis.UNRESOLVED? then [INCONSISTENT_TOPOLOGY] else [])
            && r.detail.basis == basis && r.detail.groupRows == DescribeOccupancy(g).rawRowCount
            && r.detail.maxOccurrence == DescribeOccupancy(g).maxOccurrence
            && r.detail.evenOccupancy == DescribeOccupancy(g).isEven
            && r.detail.differing == f.differing && r.detail.note == f.note
            && (forall p :: p in c.order ==> p in c.rowsByPosition)
            && r.rows == Sort(RowsInOrder(c.order, c.rowsByPosition), NumberLe)
  {
    hide Sort, Unrepeated, RowsInOrder, Listed, DescribeOccupancy;
    ListedRows(f.candidate);
  }

  /** Every frame of a group as it is stored, beside its verdict. */
  lemma FramesStored(g: TimestampGroup, basis: Topology.Basis, policy: Policy, k: nat)
    requires WellFormedGroup(g)
    requires k < |FramesOf(g, basis, policy)|
    ensures var fs := Classified(g, policy.severeBelowPct, policy.maxFrames);
            |FramesOf(g, basis, policy)| == |fs| && StoredRead(g, basis, fs[k], FramesOf(g, basis, policy)[k])
  {
    hide Classified, ToFrames, ToFrame, Listed, AllListed, WellFormedGroup, Unrepeated, Sort, RowsInOrder,
      DescribeOccupancy, CountAt, NumbersAscend, Candidates, SliceRows, UnevenRows, Precedes, Overflows;
    var pct, maxFrames := policy.severeBelowPct, policy.maxFrames;
    var fs := Classified(g, pct, maxFrames);
    ClassifiedListed(g, pct, maxFrames);
    FramesAreSlices(g, pct, maxFrames);
    ToFramesAt(g, basis, fs, k);
    var f := fs[k];
    OrderRead(g, pct, maxFrames, k);
    GroupIndexed(g);
    DetailRead(g, basis, f);
    FrameNumbers(g, f.candidate, k);
    forall row
      ensures row in ToFrame(g, basis, f).rows
              <==> exists p :: p in f.candidate.rowsByPosition && f.candidate.rowsByPosition[p] == row
    {
      FrameRows(g, basis, f, row);
    }
    UnrepeatedRead(f.issues + if basis.UNRESOLVED? then [INCONSISTENT_TOPOLOGY] else []);
    OccupancyRead(g);
  }
}