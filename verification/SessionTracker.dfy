/** The streaming session tracker: fields updated observation by observation, and the
    proof that it always holds the summary of the segment in progress. */
module SessionTracker {
  import opened Sorting
  import opened FrameModels
  import opened Instants
  import opened SessionReconstructor

  lemma AlongAppend<T>(run: seq<Observation>, o: Observation, field: Observation -> T)
    ensures Along(run + [o], field) == Along(run, field) + [field(o)]
  {
    assert (run + [o])[..|run|] == run;
  }

  lemma SomeAppend<T>(xs: seq<Option<T>>, x: Option<T>)
    ensures FirstSome(xs + [x]) == if FirstSome(xs).Some? then FirstSome(xs) else x
    ensures LastSome(xs + [x]) == if x.Some? then x else LastSome(xs)
  {
    assert (xs + [x])[..|xs|] == xs;
  }

  lemma MaxAppend(xs: seq<Option<real>>, x: Option<real>)
    ensures MaxSome(xs + [x])
            == if x.Some? && (MaxSome(xs).None? || x.value > MaxSome(xs).value) then x else MaxSome(xs)
  {
    assert (xs + [x])[..|xs|] == xs;
  }

  /** Every field of the summary after one more observation. */
  lemma SummaryAppend(run: seq<Observation>, o: Observation)
    requires run != []
    ensures var a, b := Summary(run), Summary(run + [o]);
            && b.id == (if !Truthy(a.id) && Truthy(IdOf(o)) then IdOf(o) else a.id)
            && b.start == a.start && b.firstFrame == a.firstFrame && b.lastFrame == Some(o.frame)
            && b.chargingStart == (if a.chargingStart.None? && Charges(o) then Some(o.time) else a.chargingStart)
            && b.chargingEnd == (if Charges(o) then Some(o.time) else a.chargingEnd)
            && b.startSoc == (if a.startSoc.None? then o.startSoc else a.startSoc)
            && b.maxEnergy == (if o.energy.Some? && (a.maxEnergy.None? || o.energy.value > a.maxEnergy.value)
                               then o.energy else a.maxEnergy)
            && b.startMeter == (if a.startMeter.None? then o.meter else a.startMeter)
            && b.endMeter == (if o.meter.Some? then o.meter else a.endMeter)
            && b.stopReason == (if o.stopReason.Some? then o.stopReason else a.stopReason)
            && b.reported == (if o.reported.Some? then o.reported else a.reported)
            && b.states == a.states + [o.state]
  {
    hide Along, FirstSome, LastSome, MaxSome, IdOf, EndSoc, Charges, IsActive;
    AlongAppend(run, o, ChargingTime);
    SomeAppend(Along(run, ChargingTime), ChargingTime(o));
    AlongAppend(run, o, StartSocOf);
    SomeAppend(Along(run, StartSocOf), o.startSoc);
    AlongAppend(run, o, EnergyOf);
    MaxAppend(Along(run, EnergyOf), o.energy);
    AlongAppend(run, o, MeterOf);
    SomeAppend(Along(run, MeterOf), o.meter);
    AlongAppend(run, o, ReasonOf);
    SomeAppend(Along(run, ReasonOf), o.stopReason);
    AlongAppend(run, o, ReportedOf);
    SomeAppend(Along(run, ReportedOf), o.reported);
    AlongAppend(run, o, StateOf);
    RunIdAppend(run, o);
  }

  lemma RunIdAppend(run: seq<Observation>, o: Observation)
    requires run != []
    ensures RunId(run + [o]) == if !Truthy(RunId(run)) && Truthy(IdOf(o)) then IdOf(o) else RunId(run)
  {
    hide IdOf;
    assert (run + [o])[..|run|] == run;
  }

  lemma EndSocAppend(run: seq<Observation>, o: Observation)
    requires run != []
    ensures EndSoc(run + [o]) == if o.stopSoc.Some? then o.stopSoc else EndSoc(run)
  {
    assert (run + [o])[1..] == run[1..] + [o];
    AlongAppend(run[1..], o, StopSocOf);
    SomeAppend(Along(run[1..], StopSocOf), o.stopSoc);
  }

  lemma SummaryEndSoc(run: seq<Observation>)
    requires run != []
    ensures Summary(run).endSoc == EndSoc(run)
  {
    hide Along, FirstSome, LastSome, MaxSome, IdOf, EndSoc;
  }

  lemma SummaryOfOne(o: Observation)
    ensures Summary([o])
            == Accumulated(
                 IdOf(o), Some(if o.beginTime.Some? then o.beginTime.value else o.time),
                 ChargingTime(o), ChargingTime(o), Some(o.frame), Some(o.frame),
                 o.startSoc, OpeningEndSoc(o), o.energy, o.meter, o.meter, o.stopReason, o.reported, [o.state])
  {
    hide IdOf, Charges, Along, FirstSome, LastSome, MaxSome;
    AlongOne(o, ChargingTime);
    AlongOne(o, StartSocOf);
    AlongOne(o, EnergyOf);
    AlongOne(o, MeterOf);
    AlongOne(o, ReasonOf);
    AlongOne(o, ReportedOf);
    AlongOne(o, StateOf);
    OneSome(ChargingTime(o));
    OneSome(o.startSoc);
    OneSome(o.meter);
    OneSome(o.stopReason);
    OneSome(o.reported);
    OneMax(o.energy);
    NothingAlong(o);
  }

  lemma AlongOne<T>(o: Observation, field: Observation -> T)
    ensures Along([o], field) == [field(o)]
  {
    assert [o][..0] == [];
  }

  lemma OneMax(x: Option<real>)
    ensures MaxSome([x]) == x
  {
    assert [x][..0] == [];
  }

  lemma NothingAlong(o: Observation)
    ensures EndSoc([o]) == OpeningEndSoc(o) && RunId([o]) == IdOf(o)
  {
    hide IdOf;
    assert [o][1..] == [];
    assert Along([], StopSocOf) == [];
  }

  lemma OneSome<T>(x: Option<T>)
    ensures FirstSome([x]) == x && LastSome([x]) == x
  {
    assert [x][..0] == [];
  }

  // ----- segments so far, as the sequence grows

  lemma {:induction false} SessionsStay(s: seq<Observation>, o: Observation, segs: seq<Segment>, gaps: set<GapInterval>)
    requires AllFit(segs, |s|)
    ensures AllFit(segs, |s + [o]|)
    ensures SessionsOf(s + [o], segs, gaps) == SessionsOf(s, segs, gaps)
  {
    hide Summary, Close;
    if segs != [] {
      SessionsStay(s, o, segs[..|segs| - 1], gaps);
      var seg := segs[|segs| - 1];
      assert (s + [o])[seg.from..seg.to] == s[seg.from..seg.to];
    }
  }

  lemma SessionsPush(s: seq<Observation>, segs: seq<Segment>, seg: Segment, gaps: set<GapInterval>)
    requires AllFit(segs, |s|) && Fits(seg, |s|)
    ensures AllFit(segs + [seg], |s|)
    ensures SessionsOf(s, segs + [seg], gaps) == SessionsOf(s, segs, gaps) + [SessionOf(s, seg, gaps)]
  {
    hide SessionOf;
    assert (segs + [seg])[..|segs|] == segs;
  }

  lemma ScanAppend(s: seq<Observation>, o: Observation)
    ensures Scan(s + [o]) == Advance(s, Scan(s), o)
  {
    hide Advance;
    assert (s + [o])[..|s|] == s;
  }

  class Tracker {
    const gaps: set<GapInterval>
    var reconstructed: seq<Session>
    var inSession: bool
    var currentId: Option<string>
    var sessionStart: Option<int>
    var chargingStart: Option<int>
    var chargingEnd: Option<int>
    var firstFrame: Option<int>
    var lastFrame: Option<int>
    var startSoc: Option<real>
    var endSoc: Option<real>
    var maxEnergy: Option<real>
    var startMeter: Option<real>
    var endMeter: Option<real>
    var lastStopReason: Option<string>
    var lastReported: Option<real>
    var observedStates: seq<SessionState>

    function Data(): Accumulated
      reads this
    {
      Accumulated(
        currentId, sessionStart, chargingStart, chargingEnd, firstFrame, lastFrame, startSoc, endSoc,
        maxEnergy, startMeter, endMeter, lastStopReason, lastReported, observedStates)
    }

    /** The tracker has seen exactly these observations. */
    ghost predicate Tracks(s: seq<Observation>)
      reads this
    {
      var p := Scan(s);
      && AllFit(p.closed, |s|)
      && reconstructed == SessionsOf(s, p.closed, gaps)
      && inSession == p.open.Some?
      && Data() == if p.open.Some? then Summary(s[p.open.value..]) else BLANK
    }

    constructor (gaps: set<GapInterval>)
      ensures Tracks([])
      ensures this.gaps == gaps
    {
      this.gaps := gaps;
      reconstructed, inSession := [], false;
      currentId, sessionStart, chargingStart, chargingEnd := None, None, None, None;
      firstFrame, lastFrame, startSoc, endSoc := None, None, None, None;
      maxEnergy, startMeter, endMeter := None, None, None;
      lastStopReason, lastReported, observedStates := None, None, [];
    }

    /** Close the session in progress and reset every variable. */
    method CloseActive(end: int, finalState: SessionState)
      requires sessionStart.Some?
      modifies this
      ensures !inSession && Data() == BLANK
      ensures reconstructed == old(reconstructed) + [Close(old(Data()), end, finalState, gaps)]
    {
      hide Close;
      reconstructed := reconstructed + [Close(Data(), end, finalState, gaps)];
      ResetBoundary();
      ResetReadings();
    }

    method ResetBoundary()
      modifies this`inSession, this`currentId, this`sessionStart, this`chargingStart, this`chargingEnd,
        this`firstFrame, this`lastFrame
      ensures !inSession && currentId == None && sessionStart == None && chargingStart == None && chargingEnd == None
      ensures firstFrame == None && lastFrame == None
    {
      inSession, currentId, sessionStart := false, None, None;
      chargingStart, chargingEnd, firstFrame, lastFrame := None, None, None, None;
    }

    method ResetReadings()
      modifies this`startSoc, this`endSoc, this`maxEnergy, this`startMeter, this`endMeter,
        this`lastStopReason, this`lastReported, this`observedStates
      ensures startSoc == None && endSoc == None && maxEnergy == None && startMeter == None && endMeter == None
      ensures lastStopReason == None && lastReported == None && observedStates == []
    {
      startSoc, endSoc, maxEnergy, startMeter := None, None, None, None;
      endMeter, lastStopReason, lastReported, observedStates := None, None, None, [];
    }

    /** Not in a session, and an indicator arrives. */
    method Start(o: Observation)
      requires Data() == BLANK
      modifies this
      ensures inSession && Data() == Summary([o]) && reconstructed == old(reconstructed)
    {
      hide IdOf, Summary, Charges;
      SummaryOfOne(o);
      assert chargingStart == None && chargingEnd == None;
      OpenBoundary(o);
      OpenReadings(o);
    }

    method OpenBoundary(o: Observation)
      requires chargingStart == None && chargingEnd == None
      modifies this`inSession, this`currentId, this`sessionStart, this`chargingStart, this`chargingEnd,
        this`firstFrame, this`lastFrame
      ensures inSession && currentId == IdOf(o)
      ensures sessionStart == Some(if o.beginTime.Some? then o.beginTime.value else o.time)
      ensures chargingStart == ChargingTime(o) && chargingEnd == ChargingTime(o)
      ensures firstFrame == Some(o.frame) && lastFrame == Some(o.frame)
    {
      hide IdOf, Charges;
      inSession, currentId := true, IdOf(o);
      sessionStart := Some(if o.beginTime.Some? then o.beginTime.value else o.time);
      firstFrame, lastFrame := Some(o.frame), Some(o.frame);
      if Charges(o) {
        chargingStart, chargingEnd := Some(o.time), Some(o.time);
      }
    }

    method OpenReadings(o: Observation)
      modifies this`startSoc, this`endSoc, this`maxEnergy, this`startMeter, this`endMeter,
        this`lastStopReason, this`lastReported, this`observedStates
      ensures startSoc == o.startSoc && endSoc == OpeningEndSoc(o) && maxEnergy == o.energy
      ensures startMeter == o.meter && endMeter == o.meter
      ensures lastStopReason == o.stopReason && lastReported == o.reported && observedStates == [o.state]
    {
      startSoc, endSoc, maxEnergy := o.startSoc, OpeningEndSoc(o), o.energy;
      startMeter, endMeter := o.meter, o.meter;
      lastStopReason, lastReported, observedStates := o.stopReason, o.reported, [o.state];
    }

    /** Already in a session: accumulate. */
    method Accumulate(o: Observation, ghost run: seq<Observation>)
      requires run != [] && Data() == Summary(run)
      modifies this
      ensures Data() == Summary(run + [o])
      ensures inSession == old(inSession) && reconstructed == old(reconstructed)
    {
      hide IdOf, Summary, EndSoc, Charges, Truthy;
      SummaryAppend(run, o);
      EndSocAppend(run, o);
      SummaryEndSoc(run);
      SummaryEndSoc(run + [o]);
      UpdateBoundary(o);
      UpdateCharge(o);
      UpdateNotes(o);
    }

    method UpdateBoundary(o: Observation)
      modifies this`lastFrame, this`observedStates, this`currentId, this`chargingStart, this`chargingEnd
      ensures lastFrame == Some(o.frame) && observedStates == old(observedStates) + [o.state]
      ensures currentId == if !Truthy(old(currentId)) && Truthy(IdOf(o)) then IdOf(o) else old(currentId)
      ensures chargingStart == if old(chargingStart).None? && Charges(o) then Some(o.time) else old(chargingStart)
      ensures chargingEnd == if Charges(o) then Some(o.time) else old(chargingEnd)
    {
      hide IdOf, Charges;
      lastFrame := Some(o.frame);
      observedStates := observedStates + [o.state];
      if !Truthy(currentId) && Truthy(IdOf(o)) {
        currentId := IdOf(o);
      }
      if Charges(o) && chargingStart.None? {
        chargingStart := Some(o.time);
      }
      if Charges(o) {
        chargingEnd := Some(o.time);
      }
    }

    method UpdateCharge(o: Observation)
      modifies this`startSoc, this`endSoc, this`maxEnergy
      ensures startSoc == if old(startSoc).None? then o.startSoc else old(startSoc)
      ensures endSoc == if o.stopSoc.Some? then o.stopSoc else old(endSoc)
      ensures maxEnergy == if o.energy.Some? && (old(maxEnergy).None? || o.energy.value > old(maxEnergy).value)
                           then o.energy else old(maxEnergy)
    {
      if o.startSoc.Some? && startSoc.None? {
        startSoc := o.startSoc;
      }
      if o.stopSoc.Some? {
        endSoc := o.stopSoc;
      }
      if o.energy.Some? && (maxEnergy.None? || o.energy.value > maxEnergy.value) {
        maxEnergy := o.energy;
      }
    }

    method UpdateNotes(o: Observation)
      modifies this`startMeter, this`endMeter, this`lastStopReason, this`lastReported
      ensures startMeter == if old(startMeter).None? then o.meter else old(startMeter)
      ensures endMeter == if o.meter.Some? then o.meter else old(endMeter)
      ensures lastStopReason == if o.stopReason.Some? then o.stopReason else old(lastStopReason)
      ensures lastReported == if o.reported.Some? then o.reported else old(lastReported)
    {
      if o.meter.Some? {
        if startMeter.None? {
          startMeter := o.meter;
        }
        endMeter := o.meter;
      }
      if o.stopReason.Some? {
        lastStopReason := o.stopReason;
      }
      if o.reported.Some? {
        lastReported := o.reported;
      }
    }

    /** The session id changed to a new real one: close before looking further. */
    method CutIfIdChanged(o: Observation, ghost s: seq<Observation>)
      requires Tracks(s)
      modifies this
      ensures var p := CutAt(s, Scan(s), o);
              && AllFit(p.closed, |s| + 1)
              && reconstructed == SessionsOf(s + [o], p.closed, gaps)
              && inSession == p.open.Some?
              && Data() == if p.open.Some? then Summary(s[p.open.value..]) else BLANK
    {
      hide Scan, Summary, Close, IdOf;
      ghost var p := Scan(s);
      SessionsStay(s, o, p.closed, gaps);
      SummaryFields(s, p);
      if inSession && Truthy(IdOf(o)) && Truthy(currentId) && IdOf(o) != currentId {
        ghost var seg := Segment(p.open.value, |s|, |s|);
        SessionsPush(s + [o], p.closed, seg, gaps);
        assert (s + [o])[seg.from..seg.to] == s[seg.from..];
        CloseActive(o.time, o.state);
      }
    }

    method Observe(o: Observation, ghost s: seq<Observation>)
      requires Tracks(s)
      modifies this
      ensures Tracks(s + [o])
    {
      hide Scan, Summary, Close, IdOf, Indicates, Completes, CutAt, SessionsOf;
      ghost var p := CutAt(s, Scan(s), o);
      ghost var t := s + [o];
      ScanAppend(s, o);
      CutOpen(s, o);
      CutIfIdChanged(o, s);
      if !inSession {
        if Indicates(o) {
          Start(o);
          assert t[|s|..] == [o];
        }
      } else {
        ghost var from := p.open.value;
        ghost var run := s[from..];
        assert t[from..] == run + [o];
        Accumulate(o, run);
        CompletesNow(run + [o]);
        if o.state.IDLE? || o.state.COMPLETED? || (Truthy(lastStopReason) && !IsActive(o) && !Delivers(o)) {
          ghost var seg := Segment(from, |t|, |s|);
          SessionsPush(t, p.closed, seg, gaps);
          assert t[seg.from..seg.to] == t[from..];
          SessionAt(t, seg, gaps);
          CloseActive(o.time, o.state);
        }
      }
    }
  }

  lemma SummaryFields(s: seq<Observation>, p: Progress)
    requires p.open.Some? ==> p.open.value < |s|
    ensures p.open.Some? ==>
              Summary(s[p.open.value..]).id == RunId(s[p.open.value..]) && Summary(s[p.open.value..]).start.Some?
  {
    hide RunId, Along, FirstSome, LastSome, MaxSome, EndSoc;
  }

  lemma CutOpen(s: seq<Observation>, o: Observation)
    ensures var p := CutAt(s, Scan(s), o); p.open.Some? ==> p.open.value < |s|
  {
    hide Scan, IdChanges;
  }

  lemma CompletesNow(run: seq<Observation>)
    requires run != []
    ensures var last := run[|run| - 1];
            Completes(run) <==> last.state.IDLE? || last.state.COMPLETED?
                                || (Truthy(Summary(run).stopReason) && !IsActive(last) && !Delivers(last))
    ensures Summary(run).start.Some?
  {
    hide RunId, Along, FirstSome, LastSome, MaxSome, EndSoc;
  }

  lemma SessionAt(s: seq<Observation>, seg: Segment, gaps: set<GapInterval>)
    requires Fits(seg, |s|)
    ensures Summary(s[seg.from..seg.to]).start.Some?
    ensures SessionOf(s, seg, gaps)
            == Close(Summary(s[seg.from..seg.to]), s[seg.closer].time, s[seg.closer].state, gaps)
  {
    hide Close, RunId, Along, FirstSome, LastSome, MaxSome, EndSoc;
  }

  /** Process chronological observations into session events. */
  method Reconstruct(observations: seq<Observation>, gaps: set<GapInterval>) returns (sessions: seq<Session>)
    ensures sessions == Sessions(Sort(observations, ObservedLe), gaps)
  {
    hide Scan, Summary, Close, Sort, SessionsOf;
    var ordered := Sort(observations, ObservedLe);
    var tracker := new Tracker(gaps);
    for i := 0 to |ordered|
      invariant fresh(tracker) && tracker.gaps == gaps
      invariant tracker.Tracks(ordered[..i])
    {
      tracker.Observe(ordered[i], ordered[..i]);
      assert ordered[..i + 1] == ordered[..i] + [ordered[i]];
    }
    assert ordered[..|ordered|] == ordered;
    SegmentsFit(ordered);
    if tracker.inSession {
      var last := ordered[|ordered| - 1];
      ghost var p := Scan(ordered);
      ghost var seg := Segment(p.open.value, |ordered|, |ordered| - 1);
      SessionsPush(ordered, p.closed, seg, gaps);
      SessionAt(ordered, seg, gaps);
      assert ordered[seg.from..seg.to] == ordered[p.open.value..];
      tracker.CloseActive(last.time, last.state);
    }
    sessions := tracker.reconstructed;
  }
}
