/** Cumulative counters inspected without repair: step types, running peak, net change. */
module CounterAnalyzer {
  import opened Sorting
  import opened FrameModels
  import opened Instants

  /** A counter observation; its value may be missing or unreadable. */
  datatype Observation = Observation(time: int, sequence: int, value: Option<real>)

  datatype TransitionType = UNCHANGED | INCREASED | DECREASED | RESET_CANDIDATE | INITIAL

  datatype Transition = Transition(
    time: int,
    sequence: int,
    previous: Option<real>,
    current: real,
    delta: Option<real>,
    kind: TransitionType)

  datatype Report = Report(
    total: nat,
    nonNull: nat,
    first: Option<real>,
    last: Option<real>,
    netChange: Option<real>,
    increases: nat,
    steady: nat,
    decreased: nat,
    resets: nat,
    transitions: seq<Transition>)

  predicate ObservedLe(a: Observation, b: Observation) {
    NoLater(a.time, a.sequence, b.time, b.sequence)
  }

  /** A reading: an observation with the value read from it. */
  datatype Reading = Reading(time: int, sequence: int, value: real)

  function Readings(s: seq<Observation>): seq<Reading> {
    if s == [] then []
    else
      var last := s[|s| - 1];
      Readings(s[..|s| - 1])
      + if last.value.Some? then [Reading(last.time, last.sequence, last.value.value)] else []
  }

  lemma ReadingsPush(s: seq<Observation>, o: Observation)
    ensures Readings(s + [o])
            == Readings(s) + if o.value.Some? then [Reading(o.time, o.sequence, o.value.value)] else []
  {
    assert (s + [o])[..|s|] == s;
  }

  /** The highest value read so far. */
  function Peak(rs: seq<Reading>): real
    requires rs != []
  {
    if |rs| == 1 then rs[0].value
    else
      var before, last := Peak(rs[..|rs| - 1]), rs[|rs| - 1].value;
      if last > before then last else before
  }

  /** A drop to below half of a peak above ten looks like a reset. */
  function KindOf(before: seq<Reading>, value: real): TransitionType
    requires before != []
  {
    var previous := before[|before| - 1].value;
    if value > previous then INCREASED
    else if value == previous then UNCHANGED
    else if Peak(before) > 10.0 && value < Peak(before) * 0.5 then RESET_CANDIDATE
    else DECREASED
  }

  function Step(before: seq<Reading>, r: Reading): Transition {
    if before == [] then Transition(r.time, r.sequence, None, r.value, None, INITIAL)
    else
      var previous := before[|before| - 1].value;
      Transition(r.time, r.sequence, Some(previous), r.value, Some(r.value - previous), KindOf(before, r.value))
  }

  function Steps(rs: seq<Reading>): (ts: seq<Transition>)
    ensures |ts| == |rs|
  {
    if rs == [] then [] else Steps(rs[..|rs| - 1]) + [Step(rs[..|rs| - 1], rs[|rs| - 1])]
  }

  function CountKind(ts: seq<Transition>, kind: TransitionType): nat {
    if ts == [] then 0
    else CountKind(ts[..|ts| - 1], kind) + if ts[|ts| - 1].kind == kind then 1 else 0
  }

  ghost predicate Reports(r: Report, s: seq<Observation>) {
    var rs := Readings(s);
    && r.total == |s|
    && r.nonNull == |rs|
    && r.first == (if rs == [] then None else Some(rs[0].value))
    && r.last == (if rs == [] then None else Some(rs[|rs| - 1].value))
    && r.netChange == (if rs == [] then None else Some(rs[|rs| - 1].value - rs[0].value))
    && r.transitions == Steps(rs)
    && r.increases == CountKind(r.transitions, INCREASED)
    && r.steady == CountKind(r.transitions, UNCHANGED)
    && r.decreased == CountKind(r.transitions, DECREASED) + CountKind(r.transitions, RESET_CANDIDATE)
    && r.resets == CountKind(r.transitions, RESET_CANDIDATE)
  }

  lemma PeakIsHighest(rs: seq<Reading>, k: nat)
    requires k < |rs|
    ensures rs[k].value <= Peak(rs)
  {
    if k < |rs| - 1 {
      PeakIsHighest(rs[..|rs| - 1], k);
    }
  }

  lemma StepsPush(rs: seq<Reading>, r: Reading)
    ensures Steps(rs + [r]) == Steps(rs) + [Step(rs, r)]
  {
    assert (rs + [r])[..|rs|] == rs;
  }

  lemma CountPush(ts: seq<Transition>, t: Transition, kind: TransitionType)
    ensures CountKind(ts + [t], kind) == CountKind(ts, kind) + if t.kind == kind then 1 else 0
  {
    assert (ts + [t])[..|ts|] == ts;
  }

  /** The peak after one more reading: a reading that is no increase leaves it alone. */
  lemma PeakPush(rs: seq<Reading>, r: Reading)
    ensures rs == [] ==> Peak(rs + [r]) == r.value
    ensures rs != [] ==> Peak(rs + [r]) == if r.value > Peak(rs) then r.value else Peak(rs)
    ensures rs != [] && r.value <= rs[|rs| - 1].value ==> Peak(rs + [r]) == Peak(rs)
  {
    assert (rs + [r])[..|rs|] == rs;
    if rs != [] {
      PeakIsHighest(rs, |rs| - 1);
    }
  }

  ghost predicate Tallied(ts: seq<Transition>, increases: nat, steady: nat, decreased: nat, resets: nat) {
    && increases == CountKind(ts, INCREASED)
    && steady == CountKind(ts, UNCHANGED)
    && decreased == CountKind(ts, DECREASED) + CountKind(ts, RESET_CANDIDATE)
    && resets == CountKind(ts, RESET_CANDIDATE)
  }

  lemma TallyPush(ts: seq<Transition>, t: Transition, increases: nat, steady: nat, decreased: nat, resets: nat)
    requires Tallied(ts, increases, steady, decreased, resets)
    ensures Tallied(
              ts + [t],
              increases + if t.kind == INCREASED then 1 else 0,
              steady + if t.kind == UNCHANGED then 1 else 0,
              decreased + if t.kind == DECREASED || t.kind == RESET_CANDIDATE then 1 else 0,
              resets + if t.kind == RESET_CANDIDATE then 1 else 0)
  {
    hide CountKind;
    CountPush(ts, t, INCREASED);
    CountPush(ts, t, UNCHANGED);
    CountPush(ts, t, DECREASED);
    CountPush(ts, t, RESET_CANDIDATE);
  }

  /** Inspect counter observations in temporal order. */
  method Analyze(observations: seq<Observation>) returns (report: Report)
    ensures Reports(report, Sort(observations, ObservedLe))
  {
    hide Sort, Readings, Steps, Peak, Tallied;
    var sorted := Sort(observations, ObservedLe);
    var transitions: seq<Transition> := [];
    var increases, steady, decreased, resets, nonNull: nat := 0, 0, 0, 0, 0;
    var first: Option<real>, last: Option<real> := None, None;
    var maxSeen := 0.0;
    NothingRead();
    assert sorted[..0] == [];
    ghost var rs: seq<Reading> := [];
    for i := 0 to |sorted|
      invariant rs == Readings(sorted[..i])
      invariant transitions == Steps(rs) && nonNull == |rs|
      invariant first == (if rs == [] then None else Some(rs[0].value))
      invariant last == (if rs == [] then None else Some(rs[|rs| - 1].value))
      invariant rs != [] ==> maxSeen == Peak(rs)
      invariant Tallied(transitions, increases, steady, decreased, resets)
    {
      var obs := sorted[i];
      ReadingsPush(sorted[..i], obs);
      assert sorted[..i + 1] == sorted[..i] + [obs];
      if obs.value.Some? {
        var current := obs.value.value;
        ghost var r := Reading(obs.time, obs.sequence, current);
        StepsPush(rs, r);
        PeakPush(rs, r);
        TallyPush(transitions, Step(rs, r), increases, steady, decreased, resets);
        nonNull := nonNull + 1;
        if first.None? {
          first, maxSeen := Some(current), current;
          transitions := transitions + [Transition(obs.time, obs.sequence, None, current, None, INITIAL)];
        } else {
          var delta := current - last.value;
          var kind;
          if delta > 0.0 {
            kind := INCREASED;
            increases := increases + 1;
            if current > maxSeen {
              maxSeen := current;
            }
          } else if delta == 0.0 {
            kind := UNCHANGED;
            steady := steady + 1;
          } else {
            decreased := decreased + 1;
            if maxSeen > 10.0 && current < maxSeen * 0.5 {
              kind := RESET_CANDIDATE;
              resets := resets + 1;
            } else {
              kind := DECREASED;
            }
          }
          transitions := transitions + [Transition(obs.time, obs.sequence, last, current, Some(delta), kind)];
        }
        last := Some(current);
        rs := rs + [r];
      }
    }
    assert sorted[..|sorted|] == sorted;
    TallyMeans(transitions, increases, steady, decreased, resets);
    report := Report(
      |sorted|, nonNull, first, last,
      if first.Some? && last.Some? then Some(last.value - first.value) else None,
      increases, steady, decreased, resets, transitions);
  }

  lemma NothingRead()
    ensures Readings([]) == [] && Steps([]) == [] && Tallied([], 0, 0, 0, 0)
  {
  }

  lemma TallyMeans(ts: seq<Transition>, increases: nat, steady: nat, decreased: nat, resets: nat)
    requires Tallied(ts, increases, steady, decreased, resets)
    ensures increases == CountKind(ts, INCREASED) && steady == CountKind(ts, UNCHANGED)
    ensures decreased == CountKind(ts, DECREASED) + CountKind(ts, RESET_CANDIDATE)
    ensures resets == CountKind(ts, RESET_CANDIDATE)
  {
  }

  // ----- what the report means

  lemma {:induction false} KindsCover(rs: seq<Reading>)
    ensures var ts := Steps(rs);
            && CountKind(ts, INITIAL) == (if rs == [] then 0 else 1)
            && CountKind(ts, INITIAL) + CountKind(ts, INCREASED) + CountKind(ts, UNCHANGED)
               + CountKind(ts, DECREASED) + CountKind(ts, RESET_CANDIDATE) == |rs|
  {
    hide CountKind, Steps, Step;
    NothingCounted();
    if rs != [] {
      var init, r := rs[..|rs| - 1], rs[|rs| - 1];
      assert rs == init + [r];
      KindsCover(init);
      StepsPush(init, r);
      StepKind(init, r);
      CountPush(Steps(init), Step(init, r), INITIAL);
      CountPush(Steps(init), Step(init, r), INCREASED);
      CountPush(Steps(init), Step(init, r), UNCHANGED);
      CountPush(Steps(init), Step(init, r), DECREASED);
      CountPush(Steps(init), Step(init, r), RESET_CANDIDATE);
    }
  }

  lemma StepKind(before: seq<Reading>, r: Reading)
    ensures Step(before, r).kind == INITIAL <==> before == []
  {
    hide Peak;
  }

  lemma NothingCounted()
    ensures Steps([]) == [] && forall kind :: CountKind([], kind) == 0
  {
  }

  /** Every value read is the first one or is counted by exactly one counter, and reset
      candidates are among the decreases. */
  lemma CountsPartition(s: seq<Observation>, r: Report)
    requires Reports(r, s)
    ensures r.nonNull <= r.total
    ensures r.increases + r.steady + r.decreased == if r.nonNull == 0 then 0 else r.nonNull - 1
    ensures r.resets <= r.decreased
  {
    hide Steps, CountKind, Readings;
    KindsCover(Readings(s));
    ReadingsFew(s);
  }

  lemma {:induction false} ReadingsFew(s: seq<Observation>)
    ensures |Readings(s)| <= |s|
  {
    if s != [] {
      ReadingsFew(s[..|s| - 1]);
    }
  }

  function DeltaSum(ts: seq<Transition>): real {
    if ts == [] then 0.0
    else DeltaSum(ts[..|ts| - 1]) + if ts[|ts| - 1].delta.Some? then ts[|ts| - 1].delta.value else 0.0
  }

  /** The deltas telescope to the net change. */
  lemma {:induction false} DeltasTelescope(rs: seq<Reading>)
    requires rs != []
    ensures DeltaSum(Steps(rs)) == rs[|rs| - 1].value - rs[0].value
  {
    hide KindOf;
    var init := rs[..|rs| - 1];
    assert Steps(rs)[..|rs| - 1] == Steps(init);
    if init == [] {
      assert Steps(init) == [];
    } else {
      DeltasTelescope(init);
    }
  }

  ghost predicate NeverFalls(rs: seq<Reading>) {
    forall i, j :: 0 <= i < j < |rs| ==> rs[i].value <= rs[j].value
  }

  lemma NeverFallsStep(init: seq<Reading>, r: Reading)
    ensures NeverFalls(init + [r]) <==> NeverFalls(init) && (init == [] || init[|init| - 1].value <= r.value)
  {
    var rs := init + [r];
    if NeverFalls(rs) {
      forall i, j | 0 <= i < j < |init|
        ensures init[i].value <= init[j].value
      {
        assert rs[i].value <= rs[j].value;
      }
      assert init != [] ==> rs[|init| - 1].value <= rs[|init|].value;
    }
    if NeverFalls(init) && (init == [] || init[|init| - 1].value <= r.value) {
      forall i | 0 <= i < |init|
        ensures init[i].value <= r.value
      {
        assert i == |init| - 1 || init[i].value <= init[|init| - 1].value;
      }
    }
  }

  /** No decrease is counted exactly when the counter never falls, over any distance. */
  lemma {:induction false} MonotoneIffNoDecrease(rs: seq<Reading>)
    ensures CountKind(Steps(rs), DECREASED) + CountKind(Steps(rs), RESET_CANDIDATE) == 0 <==> NeverFalls(rs)
  {
    hide Peak, NeverFalls, CountKind, Steps;
    NothingRead();
    if rs == [] {
      NothingFalls();
    } else {
      var init, r := rs[..|rs| - 1], rs[|rs| - 1];
      assert rs == init + [r];
      MonotoneIffNoDecrease(init);
      StepsPush(init, r);
      CountPush(Steps(init), Step(init, r), DECREASED);
      CountPush(Steps(init), Step(init, r), RESET_CANDIDATE);
      NeverFallsStep(init, r);
    }
  }

  lemma NothingFalls()
    ensures NeverFalls([]) && CountKind([], DECREASED) + CountKind([], RESET_CANDIDATE) == 0
  {
  }

  // ----- each step

  /** Some reading so far is above ten and more than twice this value. */
  ghost predicate FarBelow(rs: seq<Reading>, k: nat)
    requires k < |rs|
  {
    exists m :: 0 <= m < k && rs[m].value > 10.0 && 2.0 * rs[k].value < rs[m].value
  }

  /** Step k, from the readings: only a fall to less than half of an earlier reading above
      ten looks like a reset. */
  ghost predicate StepRead(rs: seq<Reading>, k: nat, t: Transition)
    requires k < |rs|
  {
    && t.time == rs[k].time && t.sequence == rs[k].sequence && t.current == rs[k].value
    && (k == 0 ==> t.kind == INITIAL && t.previous == None && t.delta == None)
    && (k > 0 ==>
          var change := rs[k].value - rs[k - 1].value;
          && t.previous == Some(rs[k - 1].value) && t.delta == Some(change)
          && (t.kind == INCREASED <==> change > 0.0)
          && (t.kind == UNCHANGED <==> change == 0.0)
          && (t.kind == RESET_CANDIDATE <==> change < 0.0 && FarBelow(rs, k))
          && (t.kind == DECREASED <==> change < 0.0 && !FarBelow(rs, k)))
  }

  lemma {:induction false} PeakReached(rs: seq<Reading>) returns (m: nat)
    requires rs != []
    ensures m < |rs| && rs[m].value == Peak(rs)
  {
    m := |rs| - 1;
    if |rs| > 1 && rs[m].value <= Peak(rs[..m]) {
      m := PeakReached(rs[..m]);
    }
  }

  lemma {:induction false} StepsAt(rs: seq<Reading>, k: nat)
    requires k < |rs|
    ensures Steps(rs)[k] == Step(rs[..k], rs[k])
  {
    hide Step;
    var n := |rs| - 1;
    if k < n {
      StepsAt(rs[..n], k);
      assert rs[..n][..k] == rs[..k];
    }
  }

  lemma StepsRead(rs: seq<Reading>, k: nat)
    requires k < |rs|
    ensures StepRead(rs, k, Steps(rs)[k])
  {
    hide Peak, Steps;
    StepsAt(rs, k);
    if k > 0 {
      var before := rs[..k];
      var m := PeakReached(before);
      forall j | 0 <= j < k
        ensures rs[j].value <= Peak(before)
      {
        PeakIsHighest(before, j);
        assert before[j] == rs[j];
      }
      assert before[m] == rs[m] && before[k - 1] == rs[k - 1];
    }
  }

  /** The steps of one kind. */
  function KindIndices(ts: seq<Transition>, kind: TransitionType): set<nat> {
    set i: nat | i < |ts| && ts[i].kind == kind
  }

  lemma IndicesPush(ts: seq<Transition>, t: Transition, kind: TransitionType)
    ensures |KindIndices(ts + [t], kind)| == |KindIndices(ts, kind)| + if t.kind == kind then 1 else 0
  {
    var more := ts + [t];
    assert more[|ts|] == t;
    assert forall i :: 0 <= i < |ts| ==> more[i] == ts[i];
    assert KindIndices(more, kind) == KindIndices(ts, kind) + if t.kind == kind then {|ts|} else {};
    assert |ts| !in KindIndices(ts, kind);
  }

  lemma {:induction false} CountRead(ts: seq<Transition>, kind: TransitionType)
    ensures CountKind(ts, kind) == |KindIndices(ts, kind)|
  {
    hide KindIndices;
    if ts == [] {
      NoIndices(kind);
    } else {
      var init, last := ts[..|ts| - 1], ts[|ts| - 1];
      assert ts == init + [last];
      CountRead(init, kind);
      IndicesPush(init, last, kind);
    }
  }

  lemma NoIndices(kind: TransitionType)
    ensures KindIndices([], kind) == {}
  {
  }

  /** The readings are the values present, in order; `at` names their observations. */
  ghost predicate ReadingsAre(s: seq<Observation>, rs: seq<Reading>, at: seq<nat>) {
    && |at| == |rs|
    && (forall k :: 0 <= k < |at| ==>
          && at[k] < |s| && s[at[k]].value == Some(rs[k].value)
          && rs[k].time == s[at[k]].time && rs[k].sequence == s[at[k]].sequence)
    && (forall j, k :: 0 <= j < k < |at| ==> at[j] < at[k])
    && forall i: nat :: i in at <==> i < |s| && s[i].value.Some?
  }

  lemma {:induction false} ReadingsRead(s: seq<Observation>) returns (at: seq<nat>)
    ensures ReadingsAre(s, Readings(s), at)
  {
    if s == [] {
      at := [];
    } else {
      var n := |s| - 1;
      var init, last := s[..n], s[n];
      at := ReadingsRead(init);
      assert s == init + [last];
      ReadingsPush(init, last);
      ReadingsAreMore(init, last, Readings(init), at);
      at := at + if last.value.Some? then [n] else [];
    }
  }

  lemma ReadingsAreMore(s: seq<Observation>, o: Observation, rs: seq<Reading>, at: seq<nat>)
    requires ReadingsAre(s, rs, at)
    ensures ReadingsAre(
              s + [o], rs + (if o.value.Some? then [Reading(o.time, o.sequence, o.value.value)] else []),
              at + if o.value.Some? then [|s|] else [])
  {
    var t, more := s + [o], at + if o.value.Some? then [|s|] else [];
    assert forall k :: 0 <= k < |at| ==> at[k] < |s| && t[at[k]] == s[at[k]];
    forall i: nat
      ensures i in more <==> i < |t| && t[i].value.Some?
    {
      assert i in at <==> i < |s| && s[i].value.Some?;
    }
  }

  /** The observations in order: by time, and at one time by sequence. */
  lemma ObservationsInOrder(observations: seq<Observation>, i: nat, j: nat)
    requires i < j < |observations|
    ensures var s := Sort(observations, ObservedLe);
            && multiset(s) == multiset(observations)
            && (s[i].time < s[j].time || (s[i].time == s[j].time && s[i].sequence <= s[j].sequence))
  {
    hide Sort;
    assert TotalPreorder(ObservedLe);
    SortAscends(observations, ObservedLe);
    assert ObservedLe(Sort(observations, ObservedLe)[i], Sort(observations, ObservedLe)[j]);
  }
}
