/** What each part of a session says of the observations it was made from, and what begins
    and ends one. */
module SessionFacts {
  import opened Text
  import opened FrameModels
  import opened Instants
  import opened SessionReconstructor
  import opened SessionTracker
  import opened SessionLaws

  // ----- one field along a run

  /** Index i has the first value of this field. */
  ghost predicate FirstAt<T>(run: seq<Observation>, field: Observation -> Option<T>, i: int) {
    0 <= i < |run| && field(run[i]).Some? && forall j :: 0 <= j < i ==> field(run[j]).None?
  }

  ghost predicate LastAt<T>(run: seq<Observation>, field: Observation -> Option<T>, i: int) {
    0 <= i < |run| && field(run[i]).Some? && forall j :: i < j < |run| ==> field(run[j]).None?
  }

  ghost predicate NoneHas<T>(run: seq<Observation>, field: Observation -> Option<T>) {
    forall j :: 0 <= j < |run| ==> field(run[j]).None?
  }

  ghost predicate IsFirst<T>(run: seq<Observation>, field: Observation -> Option<T>, r: Option<T>) {
    if NoneHas(run, field) then r.None? else exists i :: FirstAt(run, field, i) && r == field(run[i])
  }

  ghost predicate IsLast<T>(run: seq<Observation>, field: Observation -> Option<T>, r: Option<T>) {
    if NoneHas(run, field) then r.None? else exists i :: LastAt(run, field, i) && r == field(run[i])
  }

  /** One of the values present, and none is greater. */
  ghost predicate IsGreatest(run: seq<Observation>, field: Observation -> Option<real>, r: Option<real>) {
    if NoneHas(run, field) then r.None?
    else
      && r.Some?
      && (exists i :: 0 <= i < |run| && field(run[i]) == r)
      && forall i :: 0 <= i < |run| && field(run[i]).Some? ==> field(run[i]).value <= r.value
  }

  lemma {:induction false} AlongAt<T>(run: seq<Observation>, field: Observation -> T)
    ensures |Along(run, field)| == |run|
    ensures forall i :: 0 <= i < |run| ==> Along(run, field)[i] == field(run[i])
  {
    if run != [] {
      AlongAt(run[..|run| - 1], field);
    }
  }

  lemma {:induction false} FirstSomeAt<T>(xs: seq<Option<T>>) returns (i: int)
    ensures FirstSome(xs).None? ==> forall j :: 0 <= j < |xs| ==> xs[j].None?
    ensures FirstSome(xs).Some? ==>
              0 <= i < |xs| && xs[i] == FirstSome(xs) && forall j :: 0 <= j < i ==> xs[j].None?
  {
    i := |xs| - 1;
    if xs != [] {
      var k := FirstSomeAt(xs[..|xs| - 1]);
      assert forall j :: 0 <= j < |xs| - 1 ==> xs[..|xs| - 1][j] == xs[j];
      if FirstSome(xs[..|xs| - 1]).Some? {
        i := k;
      }
    }
  }

  lemma {:induction false} LastSomeAt<T>(xs: seq<Option<T>>) returns (i: int)
    ensures LastSome(xs).None? ==> forall j :: 0 <= j < |xs| ==> xs[j].None?
    ensures LastSome(xs).Some? ==>
              0 <= i < |xs| && xs[i] == LastSome(xs) && forall j :: i < j < |xs| ==> xs[j].None?
  {
    i := |xs| - 1;
    if xs != [] && xs[i].None? {
      i := LastSomeAt(xs[..|xs| - 1]);
      assert forall j :: 0 <= j < |xs| - 1 ==> xs[..|xs| - 1][j] == xs[j];
    }
  }

  lemma {:induction false} MaxSomeAt(xs: seq<Option<real>>) returns (i: int)
    ensures MaxSome(xs).None? ==> forall j :: 0 <= j < |xs| ==> xs[j].None?
    ensures MaxSome(xs).Some? ==>
              && 0 <= i < |xs| && xs[i] == MaxSome(xs)
              && forall j :: 0 <= j < |xs| && xs[j].Some? ==> xs[j].value <= MaxSome(xs).value
  {
    i := |xs| - 1;
    if xs != [] {
      var k := MaxSomeAt(xs[..|xs| - 1]);
      assert forall j :: 0 <= j < |xs| - 1 ==> xs[..|xs| - 1][j] == xs[j];
      var best, x := MaxSome(xs[..|xs| - 1]), xs[|xs| - 1];
      if !(x.Some? && (best.None? || x.value > best.value)) {
        i := k;
      }
    }
  }

  lemma FirstAlong<T>(run: seq<Observation>, field: Observation -> Option<T>)
    ensures IsFirst(run, field, FirstSome(Along(run, field)))
  {
    hide Along, FirstSome;
    AlongAt(run, field);
    var i := FirstSomeAt(Along(run, field));
    if FirstSome(Along(run, field)).Some? {
      assert FirstAt(run, field, i);
    }
  }

  lemma LastAlong<T>(run: seq<Observation>, field: Observation -> Option<T>)
    ensures IsLast(run, field, LastSome(Along(run, field)))
  {
    hide Along, LastSome;
    AlongAt(run, field);
    var i := LastSomeAt(Along(run, field));
    if LastSome(Along(run, field)).Some? {
      assert LastAt(run, field, i);
    }
  }

  lemma GreatestAlong(run: seq<Observation>, field: Observation -> Option<real>)
    ensures IsGreatest(run, field, MaxSome(Along(run, field)))
  {
    hide Along, MaxSome;
    AlongAt(run, field);
    var i := MaxSomeAt(Along(run, field));
  }

  // ----- the parts of a session

  /** The reading at j less the one at i, unless that is negative. */
  ghost predicate MeterDelta(run: seq<Observation>, i: int, j: int, energy: Option<real>) {
    && 0 <= i < |run| && 0 <= j < |run| && run[i].meter.Some? && run[j].meter.Some?
    && var delta := run[j].meter.value - run[i].meter.value; energy == if delta >= 0.0 then Some(delta) else None
  }

  /** The last meter reading less the first, unless that is negative or there is none. */
  ghost predicate MeterRead(run: seq<Observation>, energy: Option<real>) {
    var meter := (o: Observation) => o.meter;
    if NoneHas(run, meter) then energy == None
    else exists i, j :: FirstAt(run, meter, i) && LastAt(run, meter, j) && MeterDelta(run, i, j, energy)
  }

  /** The greatest consumed energy, and without one what the meter says. */
  ghost predicate EnergyRead(run: seq<Observation>, energy: Option<real>) {
    var consumed := (o: Observation) => o.energy;
    if !NoneHas(run, consumed) then IsGreatest(run, consumed, energy) else MeterRead(run, energy)
  }

  /** The first and last meter readings and a greatest consumed energy, where there are
      any. */
  ghost predicate Witness(run: seq<Observation>, i: int, j: int, k: int) {
    && FirstAt(run, (o: Observation) => o.meter, i) && LastAt(run, (o: Observation) => o.meter, j)
    && 0 <= k < |run| && run[k].energy.Some?
    && forall m :: 0 <= m < |run| && run[m].energy.Some? ==> run[m].energy.value <= run[k].energy.value
  }

  /** The metered energy is more than half a kilowatt-hour off the consumed one. */
  ghost predicate Apart(run: seq<Observation>, i: int, j: int, k: int) {
    && 0 <= i < |run| && 0 <= j < |run| && 0 <= k < |run|
    && run[i].meter.Some? && run[j].meter.Some? && run[k].energy.Some?
    && var excess := run[j].meter.value - run[i].meter.value - run[k].energy.value; excess > 0.5 || excess < -0.5
  }

  ghost predicate EnergyDisagrees(run: seq<Observation>) {
    exists i, j, k :: Witness(run, i, j, k) && Apart(run, i, j, k)
  }

  predicate Charging(o: Observation) {
    o.state == CHARGING || (o.current.Some? && o.current.value > 0.5)
  }

  /** When it began and ended, how long it lasted, and its charging window. */
  ghost predicate TimesRead(run: seq<Observation>, closer: Observation, session: Session)
    requires run != []
  {
    var start, charging := session.data.start, (o: Observation) => if Charging(o) then Some(o.time) else None;
    && start == (if run[0].beginTime == None then Some(run[0].time) else run[0].beginTime)
    && session.end == closer.time && session.finalState == closer.state
    && session.duration == (if session.end >= start.value then session.end - start.value else 0)
    && IsFirst(run, charging, session.data.chargingStart)
    && IsLast(run, charging, session.data.chargingEnd)
    && session.data.firstFrame == Some(run[0].frame) && session.data.lastFrame == Some(run[|run| - 1].frame)
  }

  /** The last end of charge stated after the opening observation; without one, the opening
      one's, unless that is zero or absent, and then its start of charge. */
  ghost predicate EndSocRead(run: seq<Observation>, soc: Option<real>)
    requires run != []
  {
    var stop := (o: Observation) => o.stopSoc;
    if !NoneHas(run[1..], stop) then IsLast(run[1..], stop, soc)
    else soc == if run[0].stopSoc == None || run[0].stopSoc == Some(0.0) then run[0].startSoc else run[0].stopSoc
  }

  ghost predicate ReadingsRead(run: seq<Observation>, data: Accumulated)
    requires run != []
  {
    && IsFirst(run, (o: Observation) => o.startSoc, data.startSoc)
    && EndSocRead(run, data.endSoc)
    && IsGreatest(run, (o: Observation) => o.energy, data.maxEnergy)
    && IsFirst(run, (o: Observation) => o.meter, data.startMeter)
    && IsLast(run, (o: Observation) => o.meter, data.endMeter)
    && IsLast(run, (o: Observation) => o.stopReason, data.stopReason)
    && IsLast(run, (o: Observation) => o.reported, data.reported)
    && |data.states| == |run| && forall i :: 0 <= i < |run| ==> data.states[i] == run[i].state
  }

  /** A stated id that is not one of the spellings of "no session". */
  predicate Named(o: Observation) {
    o.rawId.Some? && Strip(o.rawId.value) !in {"", "0", "0.0", "None", "nan"}
  }

  /** The id is the first observation's that is named, trimmed; without one it is absent
      or blank. */
  ghost predicate IdRead(run: seq<Observation>, id: Option<string>) {
    if exists i :: 0 <= i < |run| && Named(run[i])
    then exists i :: && 0 <= i < |run| && Named(run[i]) && id == Some(Strip(run[i].rawId.value))
                     && forall j :: 0 <= j < i ==> !Named(run[j])
    else id == None || id == Some("")
  }

  ghost predicate FlagsRead(run: seq<Observation>, gaps: set<GapInterval>, session: Session)
    requires session.data.start.Some?
  {
    var reason, reported := session.data.stopReason, session.data.reported;
    && (EVENT_HAS_GAP in session.flags
        <==> exists gap :: gap in gaps && gap.start < session.end && gap.end > session.data.start.value)
    && (SESSION_ID_MISSING in session.flags <==> !exists i :: 0 <= i < |run| && Named(run[i]))
    && (SESSION_BOUNDARY_INFERRED in session.flags <==> reason == None || reason == Some(""))
    && (SESSION_ENERGY_MISMATCH in session.flags <==> EnergyDisagrees(run))
    && (SESSION_DURATION_MISMATCH in session.flags
        <==> reported.Some? && var late := session.duration as real - 1_000_000.0 * reported.value;
                               late > 60_000_000.0 || late < -60_000_000.0)
  }

  /** A session, from the run of observations that it accumulates and the one that closed
      it. */
  ghost predicate SessionRead(run: seq<Observation>, closer: Observation, gaps: set<GapInterval>, session: Session)
    requires run != []
  {
    && TimesRead(run, closer, session)
    && ReadingsRead(run, session.data)
    && IdRead(run, session.data.id)
    && EnergyRead(run, session.energy)
    && FlagsRead(run, gaps, session)
  }

  lemma IdentityOf(o: Observation)
    ensures Truthy(IdOf(o)) <==> Named(o)
    ensures Named(o) ==> IdOf(o) == Some(Strip(o.rawId.value))
    ensures !Named(o) ==> IdOf(o) == None || IdOf(o) == Some("")
  {
    hide Strip;
  }

  lemma {:induction false} RunIdRead(run: seq<Observation>)
    requires run != []
    ensures IdRead(run, RunId(run))
    ensures Truthy(RunId(run)) <==> exists i :: 0 <= i < |run| && Named(run[i])
  {
    hide IdOf, Strip;
    var n := |run| - 1;
    var init, last := run[..n], run[n];
    IdentityOf(last);
    if n == 0 {
      assert run[0] == last;
    } else {
      RunIdRead(init);
      assert forall i :: 0 <= i < n ==> init[i] == run[i];
      if Truthy(RunId(init)) {
        var i :| && 0 <= i < |init| && Named(init[i]) && RunId(init) == Some(Strip(init[i].rawId.value))
                 && forall j :: 0 <= j < i ==> !Named(init[j]);
        assert Named(run[i]);
      } else if Named(last) {
        assert Named(run[n]) && RunId(run) == IdOf(run[n]);
      }
    }
  }

  /** Two ways to read the same field. */
  ghost predicate SameField<T(!new)>(f: Observation -> T, g: Observation -> T) {
    forall o :: f(o) == g(o)
  }

  lemma FirstOf<T(!new)>(run: seq<Observation>, f: Observation -> Option<T>, g: Observation -> Option<T>)
    requires SameField(f, g)
    ensures IsFirst(run, g, FirstSome(Along(run, f)))
  {
    hide FirstSome, Along;
    FirstAlong(run, f);
    var r := FirstSome(Along(run, f));
    if !NoneHas(run, f) {
      var i :| FirstAt(run, f, i) && r == f(run[i]);
      assert FirstAt(run, g, i);
    }
  }

  lemma LastOf<T(!new)>(run: seq<Observation>, f: Observation -> Option<T>, g: Observation -> Option<T>)
    requires SameField(f, g)
    ensures IsLast(run, g, LastSome(Along(run, f)))
  {
    hide LastSome, Along;
    LastAlong(run, f);
    var r := LastSome(Along(run, f));
    if !NoneHas(run, f) {
      var i :| LastAt(run, f, i) && r == f(run[i]);
      assert LastAt(run, g, i);
    }
  }

  lemma GreatestOf(run: seq<Observation>, f: Observation -> Option<real>, g: Observation -> Option<real>)
    requires SameField(f, g)
    ensures IsGreatest(run, g, MaxSome(Along(run, f)))
  {
    hide MaxSome, Along;
    GreatestAlong(run, f);
    var r := MaxSome(Along(run, f));
    if !NoneHas(run, f) {
      var i :| 0 <= i < |run| && f(run[i]) == r;
      assert g(run[i]) == r;
    }
  }

  lemma SummaryReadings(run: seq<Observation>)
    requires run != []
    ensures ReadingsRead(run, Summary(run))
  {
    hide IsFirst, IsLast, IsGreatest, FirstSome, LastSome, MaxSome, Along, RunId, EndSoc, EndSocRead;
    FirstOf(run, StartSocOf, (o: Observation) => o.startSoc);
    GreatestOf(run, EnergyOf, (o: Observation) => o.energy);
    FirstOf(run, MeterOf, (o: Observation) => o.meter);
    LastOf(run, MeterOf, (o: Observation) => o.meter);
    LastOf(run, ReasonOf, (o: Observation) => o.stopReason);
    LastOf(run, ReportedOf, (o: Observation) => o.reported);
    AlongAt(run, StateOf);
    SummaryEndSocRead(run);
  }

  lemma SummaryEndSocRead(run: seq<Observation>)
    requires run != []
    ensures EndSocRead(run, Summary(run).endSoc)
  {
    hide FirstSome, LastSome, MaxSome, Along, RunId, EndSoc;
    SummaryEndSoc(run);
    EndSocReads(run);
  }

  lemma EndSocReads(run: seq<Observation>)
    requires run != []
    ensures EndSocRead(run, EndSoc(run))
  {
    hide LastSome, Along;
    var stop := (o: Observation) => o.stopSoc;
    LastOf(run[1..], StopSocOf, stop);
    var later := LastSome(Along(run[1..], StopSocOf));
    if !NoneHas(run[1..], stop) {
      var i :| LastAt(run[1..], stop, i) && later == stop(run[1..][i]);
      assert later.Some?;
    }
  }

  lemma SummaryTimes(run: seq<Observation>)
    requires run != []
    ensures var charging, a := (o: Observation) => if Charging(o) then Some(o.time) else None, Summary(run);
            && a.start == (if run[0].beginTime == None then Some(run[0].time) else run[0].beginTime)
            && IsFirst(run, charging, a.chargingStart) && IsLast(run, charging, a.chargingEnd)
            && a.firstFrame == Some(run[0].frame) && a.lastFrame == Some(run[|run| - 1].frame)
            && a.id == RunId(run)
  {
    hide IsFirst, IsLast, FirstSome, LastSome, MaxSome, Along, RunId, EndSoc;
    var charging := (o: Observation) => if Charging(o) then Some(o.time) else None;
    FirstOf(run, ChargingTime, charging);
    LastOf(run, ChargingTime, charging);
  }

  /** The closing figures, from the accumulated ones. */
  lemma ClosedFigures(a: Accumulated, end: int, finalState: SessionState, gaps: set<GapInterval>)
    requires a.start.Some?
    ensures var s := Close(a, end, finalState, gaps);
            && s.data == a && s.end == end && s.finalState == finalState
            && s.duration == (if end >= a.start.value then end - a.start.value else 0)
            && s.energy == MeteredEnergy(a.maxEnergy, a.startMeter, a.endMeter)
  {
    hide Abs, Truthy, GapInterval.Overlaps;
  }

  ghost function MeteredEnergy(consumed: Option<real>, first: Option<real>, last: Option<real>): Option<real> {
    if consumed.Some? then consumed
    else if first.Some? && last.Some? && last.value >= first.value then Some(last.value - first.value)
    else None
  }

  ghost predicate Exceeds(consumed: Option<real>, first: Option<real>, last: Option<real>) {
    && consumed.Some? && first.Some? && last.Some?
    && var excess := last.value - first.value - consumed.value; excess > 0.5 || excess < -0.5
  }

  function FlagList(gap: bool, missing: bool, inferred: bool, energy: bool, duration: bool): seq<Flag> {
    (if gap then [EVENT_HAS_GAP] else [])
    + (if missing then [SESSION_ID_MISSING] else [])
    + (if inferred then [SESSION_BOUNDARY_INFERRED] else [])
    + (if energy then [SESSION_ENERGY_MISMATCH] else [])
    + (if duration then [SESSION_DURATION_MISMATCH] else [])
  }

  lemma FlagsListed(gap: bool, missing: bool, inferred: bool, energy: bool, duration: bool)
    ensures var flags := FlagList(gap, missing, inferred, energy, duration);
            && (EVENT_HAS_GAP in flags <==> gap) && (SESSION_ID_MISSING in flags <==> missing)
            && (SESSION_BOUNDARY_INFERRED in flags <==> inferred)
            && (SESSION_ENERGY_MISMATCH in flags <==> energy)
            && (SESSION_DURATION_MISMATCH in flags <==> duration)
  {
  }

  lemma SecondsApart(duration: int, reported: real)
    ensures Abs(duration as real / MICROS as real - reported) > 60.0
            <==> var late := duration as real - 1_000_000.0 * reported; late > 60_000_000.0 || late < -60_000_000.0
  {
    var seconds := duration as real / MICROS as real;
    assert seconds * 1_000_000.0 == duration as real;
  }

  ghost predicate GapWithin(gaps: set<GapInterval>, start: int, end: int) {
    exists gap :: gap in gaps && gap.start < end && gap.end > start
  }

  lemma GapsOverlap(gaps: set<GapInterval>, start: int, end: int)
    ensures (exists g :: g in gaps && g.Overlaps(start, end)) <==> GapWithin(gaps, start, end)
  {
    if gap :| gap in gaps && gap.start < end && gap.end > start {
      assert gap.Overlaps(start, end);
    }
  }

  lemma ClosedFlags(a: Accumulated, end: int, finalState: SessionState, gaps: set<GapInterval>)
    requires a.start.Some?
    ensures var s := Close(a, end, finalState, gaps);
            && (EVENT_HAS_GAP in s.flags <==> GapWithin(gaps, a.start.value, end))
            && (SESSION_ID_MISSING in s.flags <==> !Truthy(a.id))
            && (SESSION_BOUNDARY_INFERRED in s.flags <==> !Truthy(a.stopReason))
            && (SESSION_ENERGY_MISMATCH in s.flags <==> Exceeds(a.maxEnergy, a.startMeter, a.endMeter))
            && (SESSION_DURATION_MISMATCH in s.flags
                <==> a.reported.Some? && var late := s.duration as real - 1_000_000.0 * a.reported.value;
                                         late > 60_000_000.0 || late < -60_000_000.0)
  {
    hide GapInterval.Overlaps, GapWithin, Truthy, AtLeastZero, EnergyDelivered;
    var s, start := Close(a, end, finalState, gaps), a.start.value;
    GapsOverlap(gaps, start, end);
    if a.reported.Some? {
      SecondsApart(s.duration, a.reported.value);
    }
    var duration := a.reported.Some? && Abs(s.duration as real / MICROS as real - a.reported.value) > 60.0;
    var flags := FlagList(
      GapWithin(gaps, start, end), !Truthy(a.id), !Truthy(a.stopReason),
      Exceeds(a.maxEnergy, a.startMeter, a.endMeter), duration);
    FlagsListed(
      GapWithin(gaps, start, end), !Truthy(a.id), !Truthy(a.stopReason),
      Exceeds(a.maxEnergy, a.startMeter, a.endMeter), duration);
    assert s.flags == flags;
  }

  lemma EnergyFollows(run: seq<Observation>, most: Option<real>, first: Option<real>, last: Option<real>)
    requires IsGreatest(run, (o: Observation) => o.energy, most)
    requires IsFirst(run, (o: Observation) => o.meter, first) && IsLast(run, (o: Observation) => o.meter, last)
    ensures EnergyRead(run, MeteredEnergy(most, first, last))
  {
    hide IsFirst, IsLast, MeterRead;
    if NoneHas(run, (o: Observation) => o.energy) {
      MeterFollows(run, first, last);
    }
  }

  lemma MeterFollows(run: seq<Observation>, first: Option<real>, last: Option<real>)
    requires IsFirst(run, (o: Observation) => o.meter, first) && IsLast(run, (o: Observation) => o.meter, last)
    ensures MeterRead(run, MeteredEnergy(None, first, last))
  {
    hide NoneHas, FirstAt, LastAt, IsFirst, IsLast, MeterDelta, MeteredEnergy;
    var meter := (o: Observation) => o.meter;
    if NoneHas(run, meter) {
      NoMeter(run, first, last);
    } else {
      var i := FirstFound(run, first);
      var j := LastFound(run, last);
      MeterPresent(run, i, j);
      DeltaFound(run, i, j);
    }
  }

  lemma NoMeter(run: seq<Observation>, first: Option<real>, last: Option<real>)
    requires IsFirst(run, (o: Observation) => o.meter, first) && NoneHas(run, (o: Observation) => o.meter)
    ensures MeteredEnergy(None, first, last) == None
  {
    hide NoneHas;
  }

  lemma MeterPresent(run: seq<Observation>, i: int, j: int)
    requires FirstAt(run, (o: Observation) => o.meter, i) && LastAt(run, (o: Observation) => o.meter, j)
    ensures 0 <= i < |run| && 0 <= j < |run| && run[i].meter.Some? && run[j].meter.Some?
  {
  }

  lemma DeltaFound(run: seq<Observation>, i: int, j: int)
    requires 0 <= i < |run| && 0 <= j < |run| && run[i].meter.Some? && run[j].meter.Some?
    ensures MeterDelta(run, i, j, MeteredEnergy(None, run[i].meter, run[j].meter))
  {
  }

  lemma FirstFound(run: seq<Observation>, first: Option<real>) returns (i: int)
    requires IsFirst(run, (o: Observation) => o.meter, first) && !NoneHas(run, (o: Observation) => o.meter)
    ensures FirstAt(run, (o: Observation) => o.meter, i) && first == run[i].meter && first.Some?
  {
    var meter := (o: Observation) => o.meter;
    i :| FirstAt(run, meter, i) && first == meter(run[i]);
  }

  lemma LastFound(run: seq<Observation>, last: Option<real>) returns (j: int)
    requires IsLast(run, (o: Observation) => o.meter, last) && !NoneHas(run, (o: Observation) => o.meter)
    ensures LastAt(run, (o: Observation) => o.meter, j) && last == run[j].meter && last.Some?
  {
    var meter := (o: Observation) => o.meter;
    j :| LastAt(run, meter, j) && last == meter(run[j]);
  }

  lemma WitnessFound(run: seq<Observation>, most: Option<real>, first: Option<real>, last: Option<real>)
    returns (i: int, j: int, k: int)
    requires IsGreatest(run, (o: Observation) => o.energy, most)
    requires IsFirst(run, (o: Observation) => o.meter, first) && IsLast(run, (o: Observation) => o.meter, last)
    requires most.Some? && first.Some? && last.Some?
    ensures Witness(run, i, j, k) && first == run[i].meter && last == run[j].meter && most == run[k].energy
  {
    hide IsGreatest;
    var meter := (o: Observation) => o.meter;
    i :| FirstAt(run, meter, i) && first == meter(run[i]);
    j :| LastAt(run, meter, j) && last == meter(run[j]);
    k := GreatestFound(run, most);
  }

  lemma GreatestFound(run: seq<Observation>, most: Option<real>) returns (k: int)
    requires IsGreatest(run, (o: Observation) => o.energy, most) && most.Some?
    ensures 0 <= k < |run| && run[k].energy == most
    ensures forall m :: 0 <= m < |run| && run[m].energy.Some? ==> run[m].energy.value <= most.value
  {
    var consumed := (o: Observation) => o.energy;
    k :| 0 <= k < |run| && consumed(run[k]) == most;
    forall m | 0 <= m < |run| && run[m].energy.Some?
      ensures run[m].energy.value <= most.value
    {
      assert consumed(run[m]).Some?;
    }
  }

  lemma WitnessUnique(run: seq<Observation>, i: int, j: int, k: int, i': int, j': int, k': int)
    requires Witness(run, i, j, k) && Witness(run, i', j', k')
    ensures i == i' && j == j' && run[k].energy == run[k'].energy
  {
  }

  lemma WitnessInRange(run: seq<Observation>, i: int, j: int, k: int)
    requires Witness(run, i, j, k)
    ensures 0 <= i < |run| && 0 <= j < |run| && 0 <= k < |run|
  {
  }

  lemma WitnessPresent(
      run: seq<Observation>, most: Option<real>, first: Option<real>, last: Option<real>, i: int, j: int, k: int)
    requires IsGreatest(run, (o: Observation) => o.energy, most)
    requires IsFirst(run, (o: Observation) => o.meter, first) && IsLast(run, (o: Observation) => o.meter, last)
    requires Witness(run, i, j, k)
    ensures most.Some? && first.Some? && last.Some?
  {
    var consumed, meter := (o: Observation) => o.energy, (o: Observation) => o.meter;
    assert consumed(run[k]).Some? && meter(run[i]).Some?;
    assert !NoneHas(run, consumed) && !NoneHas(run, meter);
  }

  lemma MismatchFollows(run: seq<Observation>, most: Option<real>, first: Option<real>, last: Option<real>)
    requires IsGreatest(run, (o: Observation) => o.energy, most)
    requires IsFirst(run, (o: Observation) => o.meter, first) && IsLast(run, (o: Observation) => o.meter, last)
    ensures EnergyDisagrees(run) <==> Exceeds(most, first, last)
  {
    hide IsGreatest, IsFirst, IsLast, Witness;
    if EnergyDisagrees(run) {
      var i, j, k :| Witness(run, i, j, k) && Apart(run, i, j, k);
      WitnessPresent(run, most, first, last, i, j, k);
      var i', j', k' := WitnessFound(run, most, first, last);
      WitnessUnique(run, i, j, k, i', j', k');
    }
    if Exceeds(most, first, last) {
      var i, j, k := WitnessFound(run, most, first, last);
      WitnessInRange(run, i, j, k);
      assert Witness(run, i, j, k) && Apart(run, i, j, k);
    }
  }

  lemma ReadingsMeter(run: seq<Observation>, a: Accumulated)
    requires run != [] && ReadingsRead(run, a)
    ensures EnergyRead(run, MeteredEnergy(a.maxEnergy, a.startMeter, a.endMeter))
    ensures EnergyDisagrees(run) <==> Exceeds(a.maxEnergy, a.startMeter, a.endMeter)
  {
    hide IsGreatest, IsFirst, IsLast, EnergyRead, EnergyDisagrees, Exceeds, MeteredEnergy, EndSocRead;
    EnergyFollows(run, a.maxEnergy, a.startMeter, a.endMeter);
    MismatchFollows(run, a.maxEnergy, a.startMeter, a.endMeter);
  }

  /** Every part of every session, from the run it claims. */
  lemma SessionsRead(s: seq<Observation>, gaps: set<GapInterval>, i: nat)
    requires i < |Sessions(s, gaps)|
    ensures i < |Segments(s)| && Fits(Segments(s)[i], |s|)
    ensures var seg := Segments(s)[i];
            SessionRead(s[seg.from..seg.to], s[seg.closer], gaps, Sessions(s, gaps)[i])
  {
    hide Segments, Summary, Close, ReadingsRead, IdRead, EnergyRead, EnergyDisagrees, RunId, IsFirst, IsLast, Named,
      MeteredEnergy, Exceeds;
    SegmentCount(s, gaps);
    SegmentsFit(s);
    SessionsAt(s, Segments(s), gaps, i);
    var seg := Segments(s)[i];
    var run, a := s[seg.from..seg.to], Summary(s[seg.from..seg.to]);
    SummaryReadings(run);
    SummaryTimes(run);
    RunIdRead(run);
    ClosedFigures(a, s[seg.closer].time, s[seg.closer].state, gaps);
    ClosedFlags(a, s[seg.closer].time, s[seg.closer].state, gaps);
    ReadingsMeter(run, a);
  }

  // ----- what begins and ends a session

  /** In one of the states of a session under way. */
  predicate UnderWay(o: Observation) {
    o.state in {PREPARING, AUTHORIZED, CHARGING, SUSPENDED, FINISHING}
  }

  predicate Flowing(o: Observation) {
    o.current.Some? && o.current.value > 0.5
  }

  /** Observation k is named otherwise than one of those from `from` on. */
  ghost predicate Renamed(s: seq<Observation>, from: int, k: int) {
    && 0 <= from < k < |s| && Named(s[k])
    && exists j :: from <= j < k && Named(s[j]) && Strip(s[j].rawId.value) != Strip(s[k].rawId.value)
  }

  /** The last stop reason stated from `from` to k is not blank. */
  ghost predicate Stopped(s: seq<Observation>, from: int, k: int)
    requires 0 <= from <= k < |s|
  {
    exists j :: && from <= j <= k && s[j].stopReason.Some? && s[j].stopReason.value != ""
                && forall m :: j < m <= k ==> s[m].stopReason.None?
  }

  /** Observation k, not the opening one, finishes the session that opened at `from`. */
  ghost predicate Finishes(s: seq<Observation>, from: int, k: int) {
    && 0 <= from < k < |s|
    && (|| s[k].state in {IDLE, COMPLETED}
        || (Stopped(s, from, k) && !UnderWay(s[k]) && !Flowing(s[k])))
  }

  /** Neither renamed nor finished before `to`. */
  ghost predicate Unbroken(s: seq<Observation>, from: int, to: int) {
    && (forall k :: from < k < to ==> !Renamed(s, from, k))
    && (forall k :: from < k < to ==> !Finishes(s, from, k))
  }

  /** A session opens on evidence of one, and goes on until the first observation that
      finishes or renames it; a renaming one belongs to no session yet. */
  ghost predicate SegmentRead(s: seq<Observation>, seg: Segment) {
    && seg.from < seg.to <= |s|
    && (UnderWay(s[seg.from]) || Named(s[seg.from]) || Flowing(s[seg.from]))
    && (|| (seg.closer == seg.to && Renamed(s, seg.from, seg.to) && Unbroken(s, seg.from, seg.to))
        || (seg.closer == seg.to - 1 && Finishes(s, seg.from, seg.closer) && Unbroken(s, seg.from, seg.closer)
            && !Renamed(s, seg.from, seg.closer)))
  }

  ghost predicate OpenRead(s: seq<Observation>, from: nat) {
    && from < |s|
    && (UnderWay(s[from]) || Named(s[from]) || Flowing(s[from]))
    && Unbroken(s, from, |s|)
  }

  ghost predicate ProgressRead(s: seq<Observation>, p: Progress) {
    && (forall i :: 0 <= i < |p.closed| ==> SegmentRead(s, p.closed[i]))
    && (p.open.Some? ==> OpenRead(s, p.open.value))
  }

  lemma SamePrefix(s: seq<Observation>, o: Observation, from: int, k: int)
    requires 0 <= from && k < |s|
    ensures Renamed(s + [o], from, k) <==> Renamed(s, from, k)
    ensures Finishes(s + [o], from, k) <==> Finishes(s, from, k)
  {
    var t := s + [o];
    assert forall j :: 0 <= j < |s| ==> t[j] == s[j];
    if from < k {
      assert Stopped(t, from, k) <==> Stopped(s, from, k);
    }
  }

  lemma UnbrokenExtends(s: seq<Observation>, o: Observation, from: int, to: int)
    requires 0 <= from && to <= |s|
    ensures Unbroken(s + [o], from, to) <==> Unbroken(s, from, to)
  {
    hide Renamed, Finishes;
    forall k | from < k < to
      ensures Renamed(s + [o], from, k) <==> Renamed(s, from, k)
      ensures Finishes(s + [o], from, k) <==> Finishes(s, from, k)
    {
      SamePrefix(s, o, from, k);
    }
  }

  lemma SegmentReadExtends(s: seq<Observation>, o: Observation, seg: Segment)
    requires SegmentRead(s, seg)
    ensures SegmentRead(s + [o], seg)
  {
    hide Renamed, Finishes, Unbroken, Named;
    var t := s + [o];
    RenamedInRange(s, seg.from, seg.to);
    UnbrokenExtends(s, o, seg.from, seg.to);
    UnbrokenExtends(s, o, seg.from, seg.to - 1);
    SamePrefix(s, o, seg.from, seg.to - 1);
    if seg.to < |s| {
      SamePrefix(s, o, seg.from, seg.to);
    }
  }

  lemma RenamedInRange(s: seq<Observation>, from: int, k: int)
    ensures Renamed(s, from, k) ==> k < |s|
  {
  }

  lemma IndicatesRead(o: Observation)
    ensures Indicates(o) <==> UnderWay(o) || Named(o) || Flowing(o)
  {
    hide IdOf, Named;
    IdentityOf(o);
  }

  /** The id in progress differs exactly when some observation so far is named otherwise. */
  lemma IdChangesRead(s: seq<Observation>, from: nat, o: Observation)
    requires from < |s| && OneId(s[from..])
    ensures IdChanges(s[from..], o) <==> Renamed(s + [o], from, |s|)
  {
    hide IdOf, Strip;
    var run, t := s[from..], s + [o];
    RunIdRead(run);
    IdentityOf(o);
    assert t[|s|] == o;
    forall j | from <= j < |s|
      ensures t[j] == run[j - from] && (Named(t[j]) ==> RunId(run) == Some(Strip(t[j].rawId.value)))
    {
      IdentityOf(run[j - from]);
    }
    if Named(o) && exists i :: 0 <= i < |run| && Named(run[i]) {
      var i :| 0 <= i < |run| && Named(run[i]);
      assert Named(t[from + i]);
    }
  }

  lemma CompletesRead(s: seq<Observation>, from: nat)
    requires from + 1 < |s|
    ensures Completes(s[from..]) <==> Finishes(s, from, |s| - 1)
  {
    hide LastSome, Along;
    var run := s[from..];
    assert run[|run| - 1] == s[|s| - 1];
    StoppedRead(s, from);
  }

  lemma StoppedRead(s: seq<Observation>, from: nat)
    requires from < |s|
    ensures Truthy(LastSome(Along(s[from..], ReasonOf))) <==> Stopped(s, from, |s| - 1)
  {
    hide LastSome, Along;
    var run := s[from..];
    LastAlong(run, ReasonOf);
    var r := LastSome(Along(run, ReasonOf));
    assert forall j :: 0 <= j < |run| ==> run[j] == s[from + j];
    if Truthy(r) {
      assert !NoneHas(run, ReasonOf);
      var i :| LastAt(run, ReasonOf, i) && r == ReasonOf(run[i]);
      assert s[from + i].stopReason == r;
      forall m | from + i < m < |s|
        ensures s[m].stopReason.None?
      {
        assert ReasonOf(run[m - from]).None?;
      }
    }
    if Stopped(s, from, |s| - 1) {
      var j :| from <= j <= |s| - 1 && s[j].stopReason.Some? && s[j].stopReason.value != ""
               && forall m :: j < m <= |s| - 1 ==> s[m].stopReason.None?;
      assert ReasonOf(run[j - from]).Some?;
      var i :| LastAt(run, ReasonOf, i) && r == ReasonOf(run[i]);
      assert i == j - from;
    }
  }

  lemma StillOpen(init: seq<Observation>, o: Observation, from: nat)
    requires OpenRead(init, from) && !Renamed(init + [o], from, |init|)
    ensures Finishes(init + [o], from, |init|) ==> SegmentRead(init + [o], Segment(from, |init| + 1, |init|))
    ensures !Finishes(init + [o], from, |init|) ==> OpenRead(init + [o], from)
  {
    hide Renamed, Finishes, Named;
    UnbrokenExtends(init, o, from, |init|);
  }

  lemma CutHere(init: seq<Observation>, o: Observation, from: nat)
    requires OpenRead(init, from) && Renamed(init + [o], from, |init|)
    ensures SegmentRead(init + [o], Segment(from, |init|, |init|))
  {
    hide Renamed, Finishes, Named;
    UnbrokenExtends(init, o, from, |init|);
  }

  lemma OpensHere(init: seq<Observation>, o: Observation)
    requires UnderWay(o) || Named(o) || Flowing(o)
    ensures OpenRead(init + [o], |init|)
  {
    hide Named;
  }

  lemma OpenInRange(s: seq<Observation>, from: nat)
    requires OpenRead(s, from)
    ensures from < |s|
  {
  }

  /** What the scan does with the observation after these. */
  lemma AdvanceRead(init: seq<Observation>, p: Progress, o: Observation)
    requires ProgressRead(init, p) && IdsAgree(init, p)
    ensures p.open.Some? ==> p.open.value < |init|
    ensures ProgressRead(init + [o], Advance(init, p, o))
  {
    hide IdChanges, Completes, Indicates, SegmentRead, OpenRead, UnderWay, Named, Flowing, Renamed, Finishes, OneId;
    var t := init + [o];
    forall i | 0 <= i < |p.closed|
      ensures SegmentRead(t, p.closed[i])
    {
      SegmentReadExtends(init, o, p.closed[i]);
    }
    IndicatesRead(o);
    if Indicates(o) {
      OpensHere(init, o);
    }
    if p.open.Some? {
      var from := p.open.value;
      OpenInRange(init, from);
      IdChangesRead(init, from, o);
      if IdChanges(init[from..], o) {
        CutHere(init, o, from);
      } else {
        CompletesRead(t, from);
        StillOpen(init, o, from);
      }
    }
  }

  lemma {:induction false} ScanRead(s: seq<Observation>)
    ensures ProgressRead(s, Scan(s))
  {
    hide ProgressRead, Advance, IdsAgree;
    if s == [] {
      NothingRead();
    } else {
      var init, o := s[..|s| - 1], s[|s| - 1];
      assert s == init + [o];
      ScanRead(init);
      ScanIdsAgree(init);
      AdvanceRead(init, Scan(init), o);
    }
  }

  lemma NothingRead()
    ensures ProgressRead([], Progress([], None))
  {
  }

  /** Each session but one still under way at the end, which the last observation closes,
      ends at the first observation that finishes or renames it. */
  lemma SegmentsRead(s: seq<Observation>, i: nat)
    requires i < |Segments(s)|
    ensures var seg := Segments(s)[i];
            || SegmentRead(s, seg)
            || (i == |Segments(s)| - 1 && seg.to == |s| && seg.closer == |s| - 1 && OpenRead(s, seg.from))
  {
    hide Scan, SegmentRead, OpenRead;
    ScanRead(s);
  }
}
