/** Sessions partition the observation stream, their times are ordered, and
    reconstruction is local at idle points. */
module SessionLaws {
  import opened Sorting
  import opened FrameModels
  import opened Instants
  import opened SessionReconstructor
  import opened SessionTracker

  ghost predicate Chronological(s: seq<Observation>) {
    forall i, j :: 0 <= i < j < |s| ==> s[i].time <= s[j].time
  }

  /** The order reconstruction works in is chronological, and at one time by sequence. */
  lemma OrderedIsChronological(observations: seq<Observation>)
    ensures var s := Sort(observations, ObservedLe);
            && Chronological(s) && multiset(s) == multiset(observations)
            && forall i, j :: 0 <= i < j < |s| && s[i].time == s[j].time ==> s[i].sequence <= s[j].sequence
  {
    assert TotalPreorder(ObservedLe);
    SortAscends(observations, ObservedLe);
    var s := Sort(observations, ObservedLe);
    forall i, j | 0 <= i < j < |s|
      ensures s[i].time < s[j].time || (s[i].time == s[j].time && s[i].sequence <= s[j].sequence)
    {
      assert ObservedLe(s[i], s[j]);
    }
  }

  // ----- partition

  predicate Holds(seg: Segment, k: nat) {
    seg.from <= k < seg.to
  }

  ghost predicate HeldBySome(segs: seq<Segment>, k: nat) {
    exists i :: 0 <= i < |segs| && Holds(segs[i], k)
  }

  /** Segments are non-empty and follow one another. */
  ghost predicate Successive(segs: seq<Segment>) {
    && (forall i :: 0 <= i < |segs| ==>
          segs[i].from < segs[i].to && (segs[i].closer == segs[i].to || segs[i].closer == segs[i].to - 1))
    && (forall i, j :: 0 <= i < j < |segs| ==> segs[i].to <= segs[j].from)
  }

  /** The segment in progress starts after everything closed. */
  ghost predicate WellCut(p: Progress, n: nat) {
    && Successive(p.closed)
    && (forall i :: 0 <= i < |p.closed| ==> p.closed[i].to <= n)
    && (p.open.Some? ==> p.open.value < n && forall i :: 0 <= i < |p.closed| ==> p.closed[i].to <= p.open.value)
  }

  ghost predicate Claimed(p: Progress, k: nat) {
    HeldBySome(p.closed, k) || (p.open.Some? && p.open.value <= k)
  }

  lemma ClaimStays(closed: seq<Segment>, seg: Segment, k: nat)
    ensures HeldBySome(closed, k) ==> HeldBySome(closed + [seg], k)
    ensures Holds(seg, k) ==> HeldBySome(closed + [seg], k)
  {
    if HeldBySome(closed, k) {
      var i :| 0 <= i < |closed| && Holds(closed[i], k);
      assert (closed + [seg])[i] == closed[i];
    }
    assert (closed + [seg])[|closed|] == seg;
  }

  lemma SuccessiveAppend(closed: seq<Segment>, seg: Segment)
    requires Successive(closed)
    requires seg.from < seg.to && (seg.closer == seg.to || seg.closer == seg.to - 1)
    requires forall i :: 0 <= i < |closed| ==> closed[i].to <= seg.from
    ensures Successive(closed + [seg])
  {
  }

  lemma AdvanceWellCut(s: seq<Observation>, p: Progress, o: Observation)
    requires WellCut(p, |s|)
    ensures WellCut(Advance(s, p, o), |s| + 1)
  {
    hide IdChanges, Completes, Indicates, Successive;
    if p.open.Some? {
      SuccessiveAppend(p.closed, Segment(p.open.value, |s|, |s|));
      SuccessiveAppend(p.closed, Segment(p.open.value, |s| + 1, |s|));
    }
  }

  lemma {:induction false} ScanWellCut(s: seq<Observation>)
    ensures WellCut(Scan(s), |s|)
  {
    hide WellCut, Advance;
    if s == [] {
      NothingCut();
    } else {
      ScanWellCut(s[..|s| - 1]);
      AdvanceWellCut(s[..|s| - 1], Scan(s[..|s| - 1]), s[|s| - 1]);
    }
  }

  lemma NothingCut()
    ensures WellCut(Progress([], None), 0)
  {
  }

  lemma {:induction false} ScanClaims(s: seq<Observation>, k: nat)
    requires k < |s| && Indicates(s[k])
    ensures Claimed(Scan(s), k)
  {
    hide IdChanges, Completes, Indicates, HeldBySome;
    var n := |s| - 1;
    var before := Scan(s[..n]);
    if k < n {
      ScanClaims(s[..n], k);
    }
    if before.open.Some? {
      ClaimStays(before.closed, Segment(before.open.value, n, n), k);
      ClaimStays(before.closed, Segment(before.open.value, n + 1, n), k);
    }
  }

  /** Every observation that indicates a session is accumulated by exactly one, and
      each session claims a contiguous run. */
  lemma SessionsPartition(s: seq<Observation>, k: nat)
    requires k < |s|
    ensures Successive(Segments(s))
    ensures Indicates(s[k]) ==> HeldBySome(Segments(s), k)
    ensures forall i, j ::
              0 <= i < |Segments(s)| && 0 <= j < |Segments(s)| && Holds(Segments(s)[i], k) && Holds(Segments(s)[j], k)
              ==> i == j
  {
    hide Scan, Indicates, HeldBySome;
    var p := Scan(s);
    ScanWellCut(s);
    if Indicates(s[k]) {
      ScanClaims(s, k);
    }
    if p.open.Some? {
      var seg := Segment(p.open.value, |s|, |s| - 1);
      SuccessiveAppend(p.closed, seg);
      ClaimStays(p.closed, seg, k);
    }
  }

  // ----- each session

  lemma {:induction false} ScanStarts(s: seq<Observation>)
    ensures var p := Scan(s);
            && (forall i :: 0 <= i < |p.closed| ==> p.closed[i].from < |s| && Indicates(s[p.closed[i].from]))
            && (p.open.Some? ==> Indicates(s[p.open.value]))
  {
    hide IdChanges, Completes, Indicates;
    if s != [] {
      ScanStarts(s[..|s| - 1]);
    }
  }

  /** A session opens only on an observation that indicates one. */
  lemma SessionsStartOnIndicators(s: seq<Observation>, i: nat)
    requires i < |Segments(s)|
    ensures Segments(s)[i].from < |s| && Indicates(s[Segments(s)[i].from])
  {
    hide Scan, Indicates;
    ScanStarts(s);
  }

  /** Every real id in a run is the run's id. */
  ghost predicate OneId(run: seq<Observation>)
    requires run != []
  {
    forall k :: 0 <= k < |run| && Truthy(IdOf(run[k])) ==> IdOf(run[k]) == RunId(run)
  }

  lemma OneIdAppend(run: seq<Observation>, o: Observation)
    requires run != [] && OneId(run) && !IdChanges(run, o)
    ensures OneId(run + [o])
  {
    hide IdOf;
    var more := run + [o];
    assert more[..|run|] == run;
    forall k | 0 <= k < |more| && Truthy(IdOf(more[k]))
      ensures IdOf(more[k]) == RunId(more)
    {
      if k < |run| {
        assert more[k] == run[k];
        RunIdTruthy(run, k);
      }
    }
  }

  lemma {:induction false} RunIdTruthy(run: seq<Observation>, k: nat)
    requires k < |run| && Truthy(IdOf(run[k]))
    ensures Truthy(RunId(run))
  {
    hide IdOf;
    if k < |run| - 1 {
      RunIdTruthy(run[..|run| - 1], k);
    }
  }

  ghost predicate IdsAgree(s: seq<Observation>, p: Progress) {
    && (forall i :: 0 <= i < |p.closed| ==> SegmentIdsAgree(s, p.closed[i]))
    && (p.open.Some? ==> p.open.value < |s| && OneId(s[p.open.value..]))
  }

  ghost predicate SegmentIdsAgree(s: seq<Observation>, seg: Segment) {
    seg.from < seg.to <= |s| && OneId(s[seg.from..seg.to])
  }

  lemma SegmentExtends(s: seq<Observation>, o: Observation, seg: Segment)
    requires SegmentIdsAgree(s, seg)
    ensures SegmentIdsAgree(s + [o], seg)
  {
    hide OneId;
    assert (s + [o])[seg.from..seg.to] == s[seg.from..seg.to];
  }

  lemma {:induction false} ScanIdsAgree(s: seq<Observation>)
    ensures IdsAgree(s, Scan(s))
  {
    hide Completes, Indicates, OneId, SegmentIdsAgree, IdChanges;
    if s != [] {
      var n := |s| - 1;
      var init, o := s[..n], s[n];
      assert s == init + [o];
      ScanIdsAgree(init);
      var before := Scan(init);
      forall i | 0 <= i < |before.closed|
        ensures SegmentIdsAgree(s, before.closed[i])
      {
        SegmentExtends(init, o, before.closed[i]);
      }
      if before.open.Some? {
        var from := before.open.value;
        var run := init[from..];
        OpenIdsAgree(init, from, o);
      }
      if before.open.None? || IdChanges(init[before.open.value..], o) {
        FreshId(o);
        assert s[n..] == [o];
      }
    }
  }

  lemma FreshId(o: Observation)
    ensures OneId([o])
  {
    hide IdOf;
  }

  lemma OpenIdsAgree(init: seq<Observation>, from: nat, o: Observation)
    requires from < |init| && OneId(init[from..])
    ensures SegmentIdsAgree(init + [o], Segment(from, |init|, |init|))
    ensures !IdChanges(init[from..], o) ==>
              OneId((init + [o])[from..]) && SegmentIdsAgree(init + [o], Segment(from, |init| + 1, |init|))
  {
    hide OneId, IdChanges;
    var s := init + [o];
    assert s[from..|init|] == init[from..];
    assert s[from..] == init[from..] + [o] == s[from..|init| + 1];
    if !IdChanges(init[from..], o) {
      OneIdAppend(init[from..], o);
    }
  }

  /** All real ids within a session agree with the session's own. */
  lemma SessionIdsAgree(s: seq<Observation>, i: nat, k: nat)
    requires i < |Segments(s)| && Holds(Segments(s)[i], k)
    ensures AllFit(Segments(s), |s|)
    ensures k < |s|
    ensures Truthy(IdOf(s[k])) ==> IdOf(s[k]) == RunId(s[Segments(s)[i].from..Segments(s)[i].to])
  {
    hide Scan, IdOf, RunId;
    SegmentsFit(s);
    ScanIdsAgree(s);
    var seg := Segments(s)[i];
    var p := Scan(s);
    if i < |p.closed| {
      assert SegmentIdsAgree(s, p.closed[i]);
    } else {
      assert s[seg.from..seg.to] == s[p.open.value..];
    }
    var run := s[seg.from..seg.to];
    assert OneId(run);
    assert run[k - seg.from] == s[k];
  }

  // ----- session times

  lemma {:induction false} FirstChargingTime(run: seq<Observation>)
    requires Chronological(run)
    ensures var first, last := FirstSome(Along(run, ChargingTime)), LastSome(Along(run, ChargingTime));
            && (first.Some? <==> last.Some?)
            && (first.Some? ==> first.value <= last.value && run != []
                                && run[0].time <= first.value && last.value <= run[|run| - 1].time)
  {
    hide Charges;
    if run != [] {
      var init := run[..|run| - 1];
      FirstChargingTime(init);
      var xs := Along(run, ChargingTime);
      AlongLength(init, ChargingTime);
      assert xs[..|xs| - 1] == Along(init, ChargingTime);
      assert init != [] ==> init[|init| - 1].time <= run[|run| - 1].time && init[0] == run[0];
      assert run[0].time <= run[|run| - 1].time;
    }
  }

  lemma {:induction false} AlongLength<T>(run: seq<Observation>, field: Observation -> T)
    ensures |Along(run, field)| == |run|
  {
    if run != [] {
      AlongLength(run[..|run| - 1], field);
    }
  }

  lemma {:induction false} SessionsAt(s: seq<Observation>, segs: seq<Segment>, gaps: set<GapInterval>, i: nat)
    requires AllFit(segs, |s|) && i < |segs|
    ensures SessionsOf(s, segs, gaps)[i] == SessionOf(s, segs[i], gaps)
  {
    hide SessionOf;
    if i < |segs| - 1 {
      SessionsAt(s, segs[..|segs| - 1], gaps, i);
    }
  }

  lemma SessionFields(s: seq<Observation>, gaps: set<GapInterval>, i: nat)
    requires i < |Segments(s)|
    ensures AllFit(Segments(s), |s|)
    ensures |Sessions(s, gaps)| == |Segments(s)|
    ensures var seg, session := Segments(s)[i], Sessions(s, gaps)[i];
            var run := s[seg.from..seg.to];
            && session.end == s[seg.closer].time
            && session.data.chargingStart == FirstSome(Along(run, ChargingTime))
            && session.data.chargingEnd == LastSome(Along(run, ChargingTime))
            && session.data.id == RunId(run)
  {
    hide Segments, RunId, Along, FirstSome, LastSome, MaxSome, EndSoc, EnergyDelivered;
    SegmentsFit(s);
    SessionsAt(s, Segments(s), gaps, i);
  }

  /** A session's charging window is ordered and lies within its observations, and it
      ends no later than the session does. */
  lemma ChargingWindow(s: seq<Observation>, gaps: set<GapInterval>, i: nat)
    requires Chronological(s)
    requires i < |Sessions(s, gaps)|
    ensures i < |Segments(s)|
    ensures Segments(s)[i].from < |s|
    ensures var session := Sessions(s, gaps)[i];
            && (session.data.chargingStart.Some? <==> session.data.chargingEnd.Some?)
            && (session.data.chargingStart.Some? ==>
                  s[Segments(s)[i].from].time <= session.data.chargingStart.value
                  <= session.data.chargingEnd.value <= session.end)
  {
    hide Scan, RunId, Along, FirstSome, LastSome, Sessions;
    SegmentCount(s, gaps);
    SessionFields(s, gaps, i);
    var seg := Segments(s)[i];
    var run := s[seg.from..seg.to];
    SessionsPartition(s, seg.from);
    FirstChargingTime(run);
    assert run[0] == s[seg.from] && run[|run| - 1] == s[seg.to - 1];
    assert seg.closer == seg.to - 1 || s[seg.to - 1].time <= s[seg.closer].time;
  }

  lemma SegmentCount(s: seq<Observation>, gaps: set<GapInterval>)
    ensures |Sessions(s, gaps)| == |Segments(s)|
  {
    hide Segments;
    SegmentsFit(s);
  }

  /** The next session's charging starts no earlier than this one ends. */
  lemma SessionsInOrder(s: seq<Observation>, gaps: set<GapInterval>, i: nat, j: nat)
    requires Chronological(s)
    requires i < j < |Sessions(s, gaps)|
    ensures Sessions(s, gaps)[j].data.chargingStart.Some? ==>
              Sessions(s, gaps)[i].end <= Sessions(s, gaps)[j].data.chargingStart.value
  {
    hide Scan, RunId, Along, FirstSome, LastSome, Sessions;
    SegmentCount(s, gaps);
    SessionFields(s, gaps, i);
    ChargingWindow(s, gaps, j);
    var a, b := Segments(s)[i], Segments(s)[j];
    SessionsPartition(s, b.from);
    assert a.closer == b.from || s[a.closer].time <= s[b.from].time;
  }

  /** A closed session's confidence follows from its flags and whether it charged. */
  lemma ConfidenceFollowsFlags(a: Accumulated, end: int, finalState: SessionState, gaps: set<GapInterval>)
    requires a.start.Some?
    ensures var s := Close(a, end, finalState, gaps);
            && (s.confidence == LOW <==> EVENT_HAS_GAP in s.flags || SESSION_ID_MISSING in s.flags)
            && (s.confidence == HIGH <==>
                  && EVENT_HAS_GAP !in s.flags && SESSION_ID_MISSING !in s.flags
                  && SESSION_BOUNDARY_INFERRED !in s.flags
                  && s.data.chargingStart.Some?)
            && (s.hasGap <==> EVENT_HAS_GAP in s.flags)
            && s.duration == if end >= a.start.value then end - a.start.value else 0
  {
    hide Abs, EnergyDelivered;
  }

  // ----- locality

  function Moved(seg: Segment, shift: nat): Segment {
    Segment(seg.from + shift, seg.to + shift, seg.closer + shift)
  }

  function AllMoved(segs: seq<Segment>, shift: nat): seq<Segment> {
    if segs == [] then [] else AllMoved(segs[..|segs| - 1], shift) + [Moved(segs[|segs| - 1], shift)]
  }

  function Resumed(before: seq<Segment>, p: Progress, shift: nat): Progress {
    Progress(before + AllMoved(p.closed, shift), if p.open.Some? then Some(p.open.value + shift) else None)
  }

  lemma MovedAppend(before: seq<Segment>, segs: seq<Segment>, seg: Segment, shift: nat)
    ensures before + AllMoved(segs + [seg], shift) == (before + AllMoved(segs, shift)) + [Moved(seg, shift)]
  {
    assert (segs + [seg])[..|segs|] == segs;
  }

  lemma {:induction false} ScanResumes(a: seq<Observation>, b: seq<Observation>)
    requires Scan(a).open.None?
    ensures Scan(a + b) == Resumed(Scan(a).closed, Scan(b), |a|)
  {
    hide Advance, Scan, Resumed;
    if b == [] {
      assert a + b == a;
      ResumedNothing(Scan(a), |a|);
    } else {
      var init, o := b[..|b| - 1], b[|b| - 1];
      ScanResumes(a, init);
      assert b == init + [o];
      assert a + b == (a + init) + [o];
      ScanAppend(init, o);
      ScanAppend(a + init, o);
      ResumeStep(a, init, o, Scan(a).closed, Scan(init));
    }
  }

  lemma ResumedNothing(p: Progress, shift: nat)
    requires p.open.None?
    ensures p == Resumed(p.closed, Scan([]), shift)
  {
    assert p.closed + [] == p.closed;
  }

  lemma ResumeStep(a: seq<Observation>, s: seq<Observation>, o: Observation, before: seq<Segment>, p: Progress)
    requires p.open.Some? ==> p.open.value < |s|
    ensures var q := Resumed(before, p, |a|);
            && (q.open.Some? ==> q.open.value < |a + s|)
            && Advance(a + s, q, o) == Resumed(before, Advance(s, p, o), |a|)
  {
    hide IdChanges, Completes, Indicates, AllMoved;
    if p.open.Some? {
      var from := p.open.value;
      assert (a + s)[from + |a|..] == s[from..];
      assert ((a + s) + [o])[from + |a|..] == (s + [o])[from..];
      MovedAppend(before, p.closed, Segment(from, |s|, |s|), |a|);
      MovedAppend(before, p.closed, Segment(from, |s| + 1, |s|), |a|);
    }
  }

  lemma FinishResumed(before: seq<Segment>, p: Progress, shift: nat, n: nat)
    requires p.open.Some? ==> n > 0
    ensures Finish(Resumed(before, p, shift), n + shift) == before + AllMoved(Finish(p, n), shift)
  {
    hide AllMoved;
    if p.open.Some? {
      MovedAppend(before, p.closed, Segment(p.open.value, n, n - 1), shift);
    }
  }

  lemma FinishIdle(p: Progress, n: nat)
    requires p.open.None?
    ensures Finish(p, n) == p.closed
  {
  }

  lemma SegmentsFinishScan(s: seq<Observation>)
    ensures Segments(s) == Finish(Scan(s), |s|)
  {
  }

  lemma SegmentsResume(a: seq<Observation>, b: seq<Observation>)
    requires Scan(a).open.None?
    ensures Segments(a + b) == Segments(a) + AllMoved(Segments(b), |a|)
  {
    hide *;
    ScanResumes(a, b);
    FinishResumed(Scan(a).closed, Scan(b), |a|, |b|);
    FinishIdle(Scan(a), |a|);
    SegmentsFinishScan(a);
    SegmentsFinishScan(b);
    SegmentsFinishScan(a + b);
  }

  lemma {:induction false} SessionsOfPrefix(
      a: seq<Observation>, b: seq<Observation>, x: seq<Segment>, gaps: set<GapInterval>)
    requires AllFit(x, |a|)
    ensures AllFit(x, |a + b|)
    ensures SessionsOf(a + b, x, gaps) == SessionsOf(a, x, gaps)
  {
    hide Summary, Close;
    if x != [] {
      var init, last := x[..|x| - 1], x[|x| - 1];
      SessionsOfPrefix(a, b, init, gaps);
      assert (a + b)[last.from..last.to] == a[last.from..last.to];
    }
  }

  lemma SessionMoves(a: seq<Observation>, b: seq<Observation>, seg: Segment, gaps: set<GapInterval>)
    requires Fits(seg, |b|)
    ensures Fits(Moved(seg, |a|), |a + b|)
    ensures SessionOf(a + b, Moved(seg, |a|), gaps) == SessionOf(b, seg, gaps)
  {
    hide Summary, Close;
    assert (a + b)[seg.from + |a|..seg.to + |a|] == b[seg.from..seg.to];
  }

  lemma {:induction false} MovedAt(y: seq<Segment>, shift: nat)
    ensures |AllMoved(y, shift)| == |y|
    ensures forall i :: 0 <= i < |y| ==> AllMoved(y, shift)[i] == Moved(y[i], shift)
  {
    hide Moved;
    if y != [] {
      MovedAt(y[..|y| - 1], shift);
    }
  }

  lemma MovedFit(m: nat, x: seq<Segment>, y: seq<Segment>, n: nat)
    requires AllFit(x, m) && AllFit(y, n)
    ensures AllFit(x + AllMoved(y, m), m + n)
  {
    hide AllMoved;
    MovedAt(y, m);
  }

  /** The sessions of moved segments, each over the longer sequence. */
  lemma {:induction false} SessionsOverParts(
      a: seq<Observation>, b: seq<Observation>, x: seq<Segment>, y: seq<Segment>, gaps: set<GapInterval>)
    requires AllFit(x, |a|) && AllFit(y, |b|)
    ensures AllFit(x + AllMoved(y, |a|), |a + b|)
    ensures SessionsOf(a + b, x + AllMoved(y, |a|), gaps) == SessionsOf(a, x, gaps) + SessionsOf(b, y, gaps)
    decreases |y|
  {
    hide SessionOf, Moved, Fits, AllMoved, SessionsOf;
    MovedFit(|a|, x, y, |b|);
    if y == [] {
      SessionsOfPrefix(a, b, x, gaps);
      NoneMoved(|a|);
      SessionsOfNone(b, gaps);
      assert x + [] == x;
    } else {
      var init, last := y[..|y| - 1], y[|y| - 1];
      SessionsOverParts(a, b, x, init, gaps);
      SessionMoves(a, b, last, gaps);
      assert y == init + [last];
      MovedAppend(x, init, last, |a|);
      SessionsPush(a + b, x + AllMoved(init, |a|), Moved(last, |a|), gaps);
      SessionsPush(b, init, last, gaps);
    }
  }

  lemma NoneMoved(shift: nat)
    ensures AllMoved([], shift) == []
  {
  }

  lemma SessionsOfNone(s: seq<Observation>, gaps: set<GapInterval>)
    ensures SessionsOf(s, [], gaps) == []
  {
  }

  /** If no session is in progress after a prefix, the sessions of the whole are the
      sessions of the prefix followed by those of the rest. */
  lemma IdleMeansLocal(a: seq<Observation>, b: seq<Observation>, gaps: set<GapInterval>)
    requires Scan(a).open.None?
    ensures Sessions(a + b, gaps) == Sessions(a, gaps) + Sessions(b, gaps)
  {
    hide Scan, Segments, SessionsOf;
    SegmentsFit(a);
    SegmentsFit(b);
    SegmentsFit(a + b);
    SegmentsResume(a, b);
    SessionsOverParts(a, b, Segments(a), Segments(b), gaps);
  }
}
