/** Charging sessions: a streaming tracker over connector observations, and the
    segments of the observation sequence it amounts to. */
module SessionReconstructor {
  import opened Text
  import opened FrameModels
  import opened Instants

  datatype SessionState =
    | IDLE
    | PLUGGED
    | PREPARING
    | AUTHORIZED
    | CHARGING
    | SUSPENDED
    | FINISHING
    | COMPLETED
    | FAULTED
    | UNKNOWN

  /** One connector observation, with its status already mapped to a state. */
  datatype Observation = Observation(
    time: int,
    sequence: int,
    frame: int,
    state: SessionState,
    rawId: Option<string>,
    beginTime: Option<int>,
    energy: Option<real>,
    current: Option<real>,
    startSoc: Option<real>,
    stopSoc: Option<real>,
    stopReason: Option<string>,
    reported: Option<real>,
    meter: Option<real>)

  datatype Flag =
    | EVENT_HAS_GAP
    | SESSION_ID_MISSING
    | SESSION_BOUNDARY_INFERRED
    | SESSION_ENERGY_MISMATCH
    | SESSION_DURATION_MISMATCH

  datatype Confidence = HIGH | MEDIUM | LOW

  /** What has been accumulated for the session in progress. */
  datatype Accumulated = Accumulated(
    id: Option<string>,
    start: Option<int>,
    chargingStart: Option<int>,
    chargingEnd: Option<int>,
    firstFrame: Option<int>,
    lastFrame: Option<int>,
    startSoc: Option<real>,
    endSoc: Option<real>,
    maxEnergy: Option<real>,
    startMeter: Option<real>,
    endMeter: Option<real>,
    stopReason: Option<string>,
    reported: Option<real>,
    states: seq<SessionState>)

  const BLANK := Accumulated(None, None, None, None, None, None, None, None, None, None, None, None, None, [])

  datatype Session = Session(
    data: Accumulated,
    end: int,
    duration: int,
    energy: Option<real>,
    finalState: SessionState,
    confidence: Confidence,
    hasGap: bool,
    flags: seq<Flag>)

  // ----- reading one observation

  predicate ObservedLe(a: Observation, b: Observation) {
    NoLater(a.time, a.sequence, b.time, b.sequence)
  }

  /** Python truthiness of an optional string. */
  predicate Truthy(s: Option<string>) {
    s.Some? && s.value != ""
  }

  /** The session id, with the spellings of "none" removed. */
  function IdOf(o: Observation): Option<string> {
    if o.rawId.None? then None
    else
      var text := Strip(o.rawId.value);
      if text in {"0", "0.0", "None", "nan"} then None else Some(text)
  }

  predicate IsActive(o: Observation) {
    o.state.PREPARING? || o.state.AUTHORIZED? || o.state.CHARGING? || o.state.SUSPENDED? || o.state.FINISHING?
  }

  predicate Delivers(o: Observation) {
    o.current.Some? && o.current.value > 0.5
  }

  predicate Charges(o: Observation) {
    o.state.CHARGING? || Delivers(o)
  }

  /** Evidence of a session: an active state, a real id, or current above 0.5. */
  predicate Indicates(o: Observation) {
    IsActive(o) || Truthy(IdOf(o)) || Delivers(o)
  }

  // ----- a run of observations, summarised

  function FirstSome<T>(xs: seq<Option<T>>): Option<T> {
    if xs == [] then None
    else
      var found := FirstSome(xs[..|xs| - 1]);
      if found.Some? then found else xs[|xs| - 1]
  }

  function LastSome<T>(xs: seq<Option<T>>): Option<T> {
    if xs == [] then None
    else if xs[|xs| - 1].Some? then xs[|xs| - 1]
    else LastSome(xs[..|xs| - 1])
  }

  function MaxSome(xs: seq<Option<real>>): Option<real> {
    if xs == [] then None
    else
      var best, x := MaxSome(xs[..|xs| - 1]), xs[|xs| - 1];
      if x.Some? && (best.None? || x.value > best.value) then x else best
  }

  /** One field along a run. */
  function Along<T>(run: seq<Observation>, field: Observation -> T): seq<T> {
    if run == [] then [] else Along(run[..|run| - 1], field) + [field(run[|run| - 1])]
  }

  function ChargingTime(o: Observation): Option<int> {
    if Charges(o) then Some(o.time) else None
  }

  function StartSocOf(o: Observation): Option<real> { o.startSoc }
  function StopSocOf(o: Observation): Option<real> { o.stopSoc }
  function EnergyOf(o: Observation): Option<real> { o.energy }
  function MeterOf(o: Observation): Option<real> { o.meter }
  function ReasonOf(o: Observation): Option<string> { o.stopReason }
  function ReportedOf(o: Observation): Option<real> { o.reported }
  function StateOf(o: Observation): SessionState { o.state }

  /** The id of a run: the first real one, else whatever the first observation has. */
  function RunId(run: seq<Observation>): Option<string>
    requires run != []
  {
    if |run| == 1 then IdOf(run[0])
    else
      var id, last := RunId(run[..|run| - 1]), IdOf(run[|run| - 1]);
      if !Truthy(id) && Truthy(last) then last else id
  }

  /** `stop_soc or start_soc` of the first observation: zero counts as absent. */
  function OpeningEndSoc(o: Observation): Option<real> {
    if o.stopSoc.Some? && o.stopSoc.value != 0.0 then o.stopSoc else o.startSoc
  }

  function EndSoc(run: seq<Observation>): Option<real>
    requires run != []
  {
    var later := LastSome(Along(run[1..], StopSocOf));
    if later.Some? then later else OpeningEndSoc(run[0])
  }

  function Summary(run: seq<Observation>): Accumulated
    requires run != []
  {
    var first, last := run[0], run[|run| - 1];
    Accumulated(
      RunId(run),
      Some(if first.beginTime.Some? then first.beginTime.value else first.time),
      FirstSome(Along(run, ChargingTime)),
      LastSome(Along(run, ChargingTime)),
      Some(first.frame),
      Some(last.frame),
      FirstSome(Along(run, StartSocOf)),
      EndSoc(run),
      MaxSome(Along(run, EnergyOf)),
      FirstSome(Along(run, MeterOf)),
      LastSome(Along(run, MeterOf)),
      LastSome(Along(run, ReasonOf)),
      LastSome(Along(run, ReportedOf)),
      Along(run, StateOf))
  }

  // ----- closing a session

  function Abs(x: real): real {
    if x < 0.0 then -x else x
  }

  function EnergyDelivered(a: Accumulated): Option<real> {
    if a.maxEnergy.Some? then a.maxEnergy
    else if a.startMeter.Some? && a.endMeter.Some? && a.endMeter.value - a.startMeter.value >= 0.0
    then Some(a.endMeter.value - a.startMeter.value)
    else None
  }

  function Close(a: Accumulated, end: int, finalState: SessionState, gaps: set<GapInterval>): Session
    requires a.start.Some?
  {
    var start := a.start.value;
    var duration := AtLeastZero(end - start);
    var hasGap := exists g :: g in gaps && g.Overlaps(start, end);
    var energyMismatch :=
      a.maxEnergy.Some? && a.startMeter.Some? && a.endMeter.Some?
      && Abs(a.endMeter.value - a.startMeter.value - a.maxEnergy.value) > 0.5;
    var durationMismatch := a.reported.Some? && Abs(duration as real / MICROS as real - a.reported.value) > 60.0;
    Session(
      a, end, duration, EnergyDelivered(a), finalState,
      if !hasGap && Truthy(a.id) && Truthy(a.stopReason) && a.chargingStart.Some? then HIGH
      else if hasGap || !Truthy(a.id) then LOW
      else MEDIUM,
      hasGap,
      (if hasGap then [EVENT_HAS_GAP] else [])
      + (if !Truthy(a.id) then [SESSION_ID_MISSING] else [])
      + (if !Truthy(a.stopReason) then [SESSION_BOUNDARY_INFERRED] else [])
      + (if energyMismatch then [SESSION_ENERGY_MISMATCH] else [])
      + (if durationMismatch then [SESSION_DURATION_MISMATCH] else []))
  }

  // ----- the observation sequence cut into segments

  /** Observations `from..to` belong to one session; the one at `closer` closed it. */
  datatype Segment = Segment(from: nat, to: nat, closer: nat)

  datatype Progress = Progress(closed: seq<Segment>, open: Option<nat>)

  predicate IdChanges(run: seq<Observation>, o: Observation)
    requires run != []
  {
    Truthy(IdOf(o)) && Truthy(RunId(run)) && IdOf(o) != RunId(run)
  }

  /** The last observation of a run ends the session. */
  predicate Completes(run: seq<Observation>)
    requires run != []
  {
    var last := run[|run| - 1];
    last.state.IDLE? || last.state.COMPLETED?
    || (Truthy(LastSome(Along(run, ReasonOf))) && !IsActive(last) && !Delivers(last))
  }

  /** Cut the session in progress when its id changes. */
  function CutAt(s: seq<Observation>, p: Progress, o: Observation): Progress
    requires p.open.Some? ==> p.open.value < |s|
  {
    if p.open.Some? && IdChanges(s[p.open.value..], o)
    then Progress(p.closed + [Segment(p.open.value, |s|, |s|)], None)
    else p
  }

  /** The cut after one more observation. */
  function Advance(s: seq<Observation>, p: Progress, o: Observation): Progress
    requires p.open.Some? ==> p.open.value < |s|
  {
    var q := CutAt(s, p, o);
    if q.open.None? then
      if Indicates(o) then Progress(q.closed, Some(|s|)) else q
    else if Completes((s + [o])[q.open.value..]) then
      Progress(q.closed + [Segment(q.open.value, |s| + 1, |s|)], None)
    else q
  }

  function Scan(s: seq<Observation>): (p: Progress)
    ensures p.open.Some? ==> p.open.value < |s|
  {
    if s == [] then Progress([], None)
    else Advance(s[..|s| - 1], Scan(s[..|s| - 1]), s[|s| - 1])
  }

  /** At the end of the observations, close what is still open. */
  function Finish(p: Progress, n: nat): seq<Segment>
    requires p.open.Some? ==> n > 0
  {
    if p.open.Some? then p.closed + [Segment(p.open.value, n, n - 1)] else p.closed
  }

  /** All segments: one still open at the end is closed by the last observation. */
  function Segments(s: seq<Observation>): seq<Segment> {
    Finish(Scan(s), |s|)
  }

  predicate Fits(seg: Segment, n: nat) {
    seg.from < seg.to <= n && seg.closer < n
  }

  function SessionOf(s: seq<Observation>, seg: Segment, gaps: set<GapInterval>): Session
    requires Fits(seg, |s|)
  {
    Close(Summary(s[seg.from..seg.to]), s[seg.closer].time, s[seg.closer].state, gaps)
  }

  ghost predicate AllFit(segs: seq<Segment>, n: nat) {
    forall i :: 0 <= i < |segs| ==> Fits(segs[i], n)
  }

  function SessionsOf(s: seq<Observation>, segs: seq<Segment>, gaps: set<GapInterval>): (r: seq<Session>)
    requires AllFit(segs, |s|)
    ensures |r| == |segs|
  {
    if segs == [] then []
    else SessionsOf(s, segs[..|segs| - 1], gaps) + [SessionOf(s, segs[|segs| - 1], gaps)]
  }

  lemma {:induction false} ScanFits(s: seq<Observation>)
    ensures AllFit(Scan(s).closed, |s|)
  {
    hide IdChanges, Completes, Indicates;
    if s != [] {
      ScanFits(s[..|s| - 1]);
    }
  }

  lemma SegmentsFit(s: seq<Observation>)
    ensures AllFit(Segments(s), |s|)
  {
    hide Scan;
    ScanFits(s);
  }

  /** The whole batch specification, on observations already in order. */
  ghost function Sessions(s: seq<Observation>, gaps: set<GapInterval>): seq<Session> {
    SegmentsFit(s);
    SessionsOf(s, Segments(s), gaps)
  }
}
