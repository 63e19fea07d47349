/** Replay and collision classification of the frames at one event timestamp. */
module ReplayDetector {
  import opened FrameModels
  import opened CanonicalSerializer
  import opened FrameBuilder

  type Payload = map<Position, Digest>

  datatype ClassifiedFrame = ClassifiedFrame(
    candidate: FrameCandidate,
    fingerprint: string,
    classification: Classification,
    replayOf: Option<nat>,
    issues: seq<Issue>,
    differing: set<Position>,
    note: Note)

  /** The candidate's key order lists exactly its positions. */
  ghost predicate Listed(c: FrameCandidate) {
    Lists(c.order, c.Payload())
  }

  function Fingerprint(c: FrameCandidate): string
    requires Listed(c)
  {
    PayloadFingerprint(c.order, c.Payload())
  }

  function Matching(subject: Payload, canonical: Payload): set<Position> {
    set p | p in subject && p in canonical && subject[p] == canonical[p]
  }

  function Differing(subject: Payload, canonical: Payload): set<Position> {
    set p | p in subject && p in canonical && subject[p] != canonical[p]
  }

  /** Structural issues, independent of duplication. */
  function StructuralIssues(c: FrameCandidate): seq<Issue> {
    (if c.Unexpected() != {} then [FRAME_UNEXPECTED_POSITION] else [])
    + (if c.status == AMBIGUOUS_STATUS then [AMBIGUOUS_FRAME_BOUNDARY]
       else if c.Missing() != {} then [FRAME_MISSING_POSITION]
       else [])
  }

  // ----- the simple form: look back over the earlier verdicts

  /** Frames a later one can be a full replay of. */
  predicate Represents(f: ClassifiedFrame) {
    f.classification == UNIQUE || f.classification == SAME_TIMESTAMP_DISTINCT_FRAME || f.classification == AMBIGUOUS
  }

  function FirstRepresentative(earlier: seq<ClassifiedFrame>, fingerprint: string): Option<nat> {
    if earlier == [] then None
    else
      var init, last := earlier[..|earlier| - 1], earlier[|earlier| - 1];
      var found := FirstRepresentative(init, fingerprint);
      if found.Some? then found
      else if Represents(last) && last.fingerprint == fingerprint then Some(last.candidate.sequence)
      else None
  }

  /** The verdict on a frame that is compared with this payload of this sequence. */
  function Judge(earlier: seq<ClassifiedFrame>, c: FrameCandidate, sequence: nat, reference: Payload): ClassifiedFrame
    requires Listed(c)
  {
    var payload, fingerprint, issues := c.Payload(), Fingerprint(c), StructuralIssues(c);
    if earlier == [] then
      ClassifiedFrame(c, fingerprint, UNIQUE, None, issues, {}, c.note)
    else if FirstRepresentative(earlier, fingerprint).Some? then
      ClassifiedFrame(c, fingerprint, FULL_FRAME_REPLAY, FirstRepresentative(earlier, fingerprint),
                      issues + [FULL_REPLAY_ISSUE], {}, c.note)
    else
      var matching, differing := Matching(payload, reference), Differing(payload, reference);
      if differing != {} then
        ClassifiedFrame(c, fingerprint, SAME_TIMESTAMP_DISTINCT_FRAME, None,
                        issues + [DISTINCT_FRAME_ISSUE], differing, c.note)
      else if matching != {} then
        ClassifiedFrame(c, fingerprint, PARTIAL_FRAME_REPLAY, Some(sequence),
                        issues + [PARTIAL_REPLAY_ISSUE], {},
                        if c.note.NoNote? then RepeatsCanonical(|matching|) else c.note)
      else
        ClassifiedFrame(c, fingerprint, AMBIGUOUS, None,
                        issues + [AMBIGUOUS_FRAME_BOUNDARY], {}, NoSharedPosition)
  }

  /** In sequence order, the frame compared with is the first one. */
  function Verdict(earlier: seq<ClassifiedFrame>, c: FrameCandidate): ClassifiedFrame
    requires Listed(c)
  {
    if earlier == [] then Judge(earlier, c, 0, map[])
    else Judge(earlier, c, earlier[0].candidate.sequence, earlier[0].candidate.Payload())
  }

  function Classify(cs: seq<FrameCandidate>): (rs: seq<ClassifiedFrame>)
    requires forall c :: c in cs ==> Listed(c)
    ensures |rs| == |cs|
  {
    if cs == [] then []
    else
      var earlier := Classify(cs[..|cs| - 1]);
      earlier + [Verdict(earlier, cs[|cs| - 1])]
  }

  /** In any order, it is the representing frame of least sequence, the latest of equals. */
  datatype Anchor = Anchor(sequence: nat, payload: Payload)

  function AnchorOf(earlier: seq<ClassifiedFrame>): Option<Anchor> {
    if earlier == [] then None
    else
      var found, last := AnchorOf(earlier[..|earlier| - 1]), earlier[|earlier| - 1];
      if Represents(last) && (found.None? || last.candidate.sequence <= found.value.sequence)
      then Some(Anchor(last.candidate.sequence, last.candidate.Payload()))
      else found
  }

  function AnyVerdict(earlier: seq<ClassifiedFrame>, c: FrameCandidate): ClassifiedFrame
    requires Listed(c)
  {
    var anchor := AnchorOf(earlier);
    if anchor.None? then Judge(earlier, c, 0, map[])
    else Judge(earlier, c, anchor.value.sequence, anchor.value.payload)
  }

  function ClassifyAny(cs: seq<FrameCandidate>): (rs: seq<ClassifiedFrame>)
    requires forall c :: c in cs ==> Listed(c)
    ensures |rs| == |cs|
  {
    if cs == [] then []
    else
      var earlier := ClassifyAny(cs[..|cs| - 1]);
      earlier + [AnyVerdict(earlier, cs[|cs| - 1])]
  }

  // ----- the source's form: two lookup tables

  ghost predicate InSequenceOrder(cs: seq<FrameCandidate>) {
    forall i, j :: 0 <= i < j < |cs| ==> cs[i].sequence < cs[j].sequence
  }

  function Recorded(seen: map<string, nat>, fingerprint: string): Option<nat> {
    if fingerprint in seen then Some(seen[fingerprint]) else None
  }

  ghost predicate TablesAgree(
      results: seq<ClassifiedFrame>, seen: map<string, nat>, canonical: map<nat, Payload>)
  {
    && (forall f :: Recorded(seen, f) == FirstRepresentative(results, f))
    && (results == [] <==> canonical == map[])
    && (results == [] <==> AnchorOf(results).None?)
    && (results != [] ==>
          var anchor := AnchorOf(results).value;
          && anchor.sequence in canonical
          && canonical[anchor.sequence] == anchor.payload
          && forall s :: s in canonical ==> anchor.sequence <= s)
  }

  lemma RepresentativeAppend(earlier: seq<ClassifiedFrame>, f: ClassifiedFrame, fingerprint: string)
    ensures FirstRepresentative(earlier + [f], fingerprint)
            == if FirstRepresentative(earlier, fingerprint).Some? then FirstRepresentative(earlier, fingerprint)
               else if Represents(f) && f.fingerprint == fingerprint then Some(f.candidate.sequence)
               else None
  {
    assert (earlier + [f])[..|earlier|] == earlier;
  }

  lemma ClassifyAppend(cs: seq<FrameCandidate>, c: FrameCandidate)
    requires forall d :: d in cs + [c] ==> Listed(d)
    ensures forall d :: d in cs ==> Listed(d)
    ensures Listed(c)
    ensures Classify(cs + [c]) == Classify(cs) + [Verdict(Classify(cs), c)]
  {
    assert forall d :: d in cs ==> d in cs + [c];
    assert c in cs + [c];
    assert (cs + [c])[..|cs|] == cs;
  }

  lemma VerdictShape(earlier: seq<ClassifiedFrame>, c: FrameCandidate)
    requires Listed(c)
    ensures Verdict(earlier, c).candidate == c && Verdict(earlier, c).fingerprint == Fingerprint(c)
    ensures earlier == [] ==> Represents(Verdict(earlier, c))
  {
    hide StructuralIssues, Matching, Differing, Fingerprint, FirstRepresentative;
  }

  lemma {:induction false} VerdictKeepsCandidate(cs: seq<FrameCandidate>)
    requires forall c :: c in cs ==> Listed(c)
    ensures forall i :: 0 <= i < |cs| ==>
              Classify(cs)[i].candidate == cs[i] && Classify(cs)[i].fingerprint == Fingerprint(cs[i])
  {
    hide Verdict, Fingerprint, Listed;
    if cs != [] {
      VerdictKeepsCandidate(cs[..|cs| - 1]);
      VerdictShape(Classify(cs[..|cs| - 1]), cs[|cs| - 1]);
    }
  }

  lemma AnchorPush(earlier: seq<ClassifiedFrame>, f: ClassifiedFrame)
    ensures AnchorOf(earlier + [f])
            == var found := AnchorOf(earlier);
               if Represents(f) && (found.None? || f.candidate.sequence <= found.value.sequence)
               then Some(Anchor(f.candidate.sequence, f.candidate.Payload())) else found
  {
    hide FrameCandidate.Payload;
    assert (earlier + [f])[..|earlier|] == earlier;
  }

  lemma TablesLookup(
      results: seq<ClassifiedFrame>, seen: map<string, nat>, canonical: map<nat, Payload>, fingerprint: string)
    requires TablesAgree(results, seen, canonical)
    ensures Recorded(seen, fingerprint) == FirstRepresentative(results, fingerprint)
    ensures results == [] ==> fingerprint !in seen && AnchorOf(results).None?
    ensures results != [] ==>
              && AnchorOf(results).Some?
              && MinOf(canonical.Keys) == AnchorOf(results).value.sequence
              && MinOf(canonical.Keys) in canonical
              && canonical[MinOf(canonical.Keys)] == AnchorOf(results).value.payload
  {
    assert FirstRepresentative([], fingerprint) == None;
    hide FirstRepresentative, AnchorOf;
    if results != [] {
      assert AnchorOf(results).value.sequence in canonical.Keys;
    }
  }

  /** One iteration: classify against the tables. */
  method ClassifyNext(
      c: FrameCandidate, results: seq<ClassifiedFrame>, seen: map<string, nat>, canonical: map<nat, Payload>)
    returns (f: ClassifiedFrame, seen': map<string, nat>, canonical': map<nat, Payload>)
    requires Listed(c)
    requires TablesAgree(results, seen, canonical)
    ensures f == AnyVerdict(results, c)
    ensures f.candidate == c
    ensures seen' == if Represents(f) then seen[f.fingerprint := c.sequence] else seen
    ensures canonical' == if Represents(f) then canonical[c.sequence := c.Payload()] else canonical
    ensures Represents(f) ==> f.fingerprint !in seen
  {
    hide TablesAgree, StructuralIssues, Matching, Differing, Fingerprint, FirstRepresentative, MinOf, Listed, AnchorOf;
    seen', canonical' := seen, canonical;
    var payload, fingerprint, issues := c.Payload(), Fingerprint(c), StructuralIssues(c);
    TablesLookup(results, seen, canonical, fingerprint);
    if results == [] {
      seen', canonical' := seen[fingerprint := c.sequence], canonical[c.sequence := payload];
      f := ClassifiedFrame(c, fingerprint, UNIQUE, None, issues, {}, c.note);
      return;
    }
    if fingerprint in seen {
      f := ClassifiedFrame(c, fingerprint, FULL_FRAME_REPLAY, Some(seen[fingerprint]),
                           issues + [FULL_REPLAY_ISSUE], {}, c.note);
      return;
    }
    var canonicalSequence := MinOf(canonical.Keys);
    var canonicalPayload := canonical[canonicalSequence];
    var matching, differing := Matching(payload, canonicalPayload), Differing(payload, canonicalPayload);
    if differing != {} {
      seen', canonical' := seen[fingerprint := c.sequence], canonical[c.sequence := payload];
      f := ClassifiedFrame(c, fingerprint, SAME_TIMESTAMP_DISTINCT_FRAME, None,
                           issues + [DISTINCT_FRAME_ISSUE], differing, c.note);
      return;
    }
    if matching != {} {
      f := ClassifiedFrame(c, fingerprint, PARTIAL_FRAME_REPLAY, Some(canonicalSequence),
                           issues + [PARTIAL_REPLAY_ISSUE], {},
                           if c.note.NoNote? then RepeatsCanonical(|matching|) else c.note);
      return;
    }
    seen', canonical' := seen[fingerprint := c.sequence], canonical[c.sequence := payload];
    f := ClassifiedFrame(c, fingerprint, AMBIGUOUS, None,
                         issues + [AMBIGUOUS_FRAME_BOUNDARY], {}, NoSharedPosition);
  }

  lemma TablesStillAgree(
      results: seq<ClassifiedFrame>, seen: map<string, nat>, canonical: map<nat, Payload>, f: ClassifiedFrame)
    requires TablesAgree(results, seen, canonical)
    requires results == [] ==> Represents(f)
    requires Represents(f) ==> f.fingerprint !in seen
    ensures TablesAgree(
              results + [f],
              if Represents(f) then seen[f.fingerprint := f.candidate.sequence] else seen,
              if Represents(f) then canonical[f.candidate.sequence := f.candidate.Payload()] else canonical)
  {
    hide FirstRepresentative, AnchorOf, FrameCandidate.Payload;
    var seen' := if Represents(f) then seen[f.fingerprint := f.candidate.sequence] else seen;
    var canonical' := if Represents(f) then canonical[f.candidate.sequence := f.candidate.Payload()] else canonical;
    forall fp
      ensures Recorded(seen', fp) == FirstRepresentative(results + [f], fp)
    {
      RepresentativeAppend(results, f, fp);
      assert Recorded(seen, fp) == FirstRepresentative(results, fp);
    }
    AnchorPush(results, f);
    if Represents(f) {
      assert f.candidate.sequence in canonical';
    }
  }

  ghost predicate Processed(
      cs: seq<FrameCandidate>, results: seq<ClassifiedFrame>, seen: map<string, nat>, canonical: map<nat, Payload>)
  {
    && (forall c :: c in cs ==> Listed(c))
    && results == ClassifyAny(cs)
    && TablesAgree(results, seen, canonical)
  }

  lemma ProcessedAppend(
      cs: seq<FrameCandidate>, c: FrameCandidate,
      results: seq<ClassifiedFrame>, seen: map<string, nat>, canonical: map<nat, Payload>)
    requires Processed(cs, results, seen, canonical) && Listed(c)
    requires var f := AnyVerdict(results, c); f.candidate == c && (Represents(f) ==> f.fingerprint !in seen)
    ensures var f := AnyVerdict(results, c);
            Processed(
              cs + [c],
              results + [f],
              if Represents(f) then seen[f.fingerprint := c.sequence] else seen,
              if Represents(f) then canonical[c.sequence := c.Payload()] else canonical)
  {
    hide TablesAgree, AnyVerdict, Listed, FrameCandidate.Payload;
    assert (cs + [c])[..|cs|] == cs;
    assert forall d :: d in cs + [c] ==> Listed(d);
    FirstAnyRepresents(results, c);
    TablesStillAgree(results, seen, canonical, AnyVerdict(results, c));
  }

  lemma FirstAnyRepresents(earlier: seq<ClassifiedFrame>, c: FrameCandidate)
    requires Listed(c)
    ensures earlier == [] ==> Represents(AnyVerdict(earlier, c))
  {
    hide StructuralIssues, Matching, Differing, Fingerprint, FirstRepresentative, AnchorOf;
  }

  lemma ProcessedNothing()
    ensures Processed([], [], map[], map[])
  {
  }

  lemma ProcessedTables(
      cs: seq<FrameCandidate>, results: seq<ClassifiedFrame>, seen: map<string, nat>, canonical: map<nat, Payload>)
    requires Processed(cs, results, seen, canonical)
    ensures TablesAgree(results, seen, canonical)
    ensures (forall c :: c in cs ==> Listed(c)) && results == ClassifyAny(cs)
  {
    hide TablesAgree, Listed, ClassifyAny;
  }

  // ----- in sequence order both agree

  /** The first frame represents, and has the least sequence of all. */
  ghost predicate LedByFirst(rs: seq<ClassifiedFrame>) {
    rs != [] ==>
      && Represents(rs[0])
      && forall i :: 0 < i < |rs| ==> rs[0].candidate.sequence < rs[i].candidate.sequence
  }

  lemma {:induction false} FirstIsAnchor(rs: seq<ClassifiedFrame>)
    requires LedByFirst(rs)
    ensures rs == [] ==> AnchorOf(rs).None?
    ensures rs != [] ==> AnchorOf(rs) == Some(Anchor(rs[0].candidate.sequence, rs[0].candidate.Payload()))
  {
    hide FrameCandidate.Payload;
    if rs != [] {
      FirstIsAnchor(rs[..|rs| - 1]);
    }
  }

  lemma LedStill(rs: seq<ClassifiedFrame>, f: ClassifiedFrame)
    requires LedByFirst(rs)
    requires rs == [] ==> Represents(f)
    requires rs != [] ==> rs[0].candidate.sequence < f.candidate.sequence
    ensures LedByFirst(rs + [f])
  {
  }

  lemma {:induction false} InOrderAgrees(cs: seq<FrameCandidate>)
    requires (forall c :: c in cs ==> Listed(c)) && InSequenceOrder(cs)
    ensures ClassifyAny(cs) == Classify(cs) && LedByFirst(Classify(cs))
  {
    hide Listed, Judge, LedByFirst, AnchorOf, FrameCandidate.Payload;
    if cs == [] {
      LedOfNone();
    } else {
      var init, c := cs[..|cs| - 1], cs[|cs| - 1];
      InOrderAgrees(init);
      var rs := Classify(init);
      FirstIsAnchor(rs);
      VerdictKeepsCandidate(init);
      VerdictShape(rs, c);
      LedStill(rs, Verdict(rs, c));
    }
  }

  lemma LedOfNone()
    ensures LedByFirst([])
  {
  }

  /** The loop, with its two lookup tables, for candidates in any order; in sequence order
      every frame is compared with the first. */
  method ClassifyGroup(cs: seq<FrameCandidate>) returns (results: seq<ClassifiedFrame>)
    requires forall c :: c in cs ==> Listed(c)
    ensures results == ClassifyAny(cs)
    ensures InSequenceOrder(cs) ==> results == Classify(cs)
  {
    hide Processed, AnyVerdict, Listed, InSequenceOrder, TablesAgree, Fingerprint, ClassifyAny, Classify;
    results := [];
    var seen: map<string, nat> := map[];
    var canonical: map<nat, Payload> := map[];
    ProcessedNothing();
    assert cs[..0] == [];
    for i := 0 to |cs|
      invariant Processed(cs[..i], results, seen, canonical)
    {
      assert cs[..i + 1] == cs[..i] + [cs[i]];
      assert cs[i] in cs;
      ProcessedTables(cs[..i], results, seen, canonical);
      var f, seen', canonical' := ClassifyNext(cs[i], results, seen, canonical);
      ProcessedAppend(cs[..i], cs[i], results, seen, canonical);
      results, seen, canonical := results + [f], seen', canonical';
    }
    assert cs[..|cs|] == cs;
    ProcessedTables(cs, results, seen, canonical);
    if InSequenceOrder(cs) {
      InOrderAgrees(cs);
    }
  }
}
