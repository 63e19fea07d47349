/** Alarm flags into duration-bounded intervals, with debounce by re-opening. */
module AlarmReconstructor {
  import opened Sorting
  import opened FrameModels
  import opened Instants

  datatype Observation = Observation(time: int, sequence: int, frame: int, active: bool, state: Option<string>)

  datatype Confidence = HIGH | MEDIUM

  datatype Flag = ALARM_OPEN_ENDED | EVENT_HAS_GAP

  datatype Alarm = Alarm(
    start: int,
    end: Option<int>,
    duration: int,
    isOpen: bool,
    startState: Option<string>,
    endState: Option<string>,
    confidence: Confidence,
    hasGap: bool,
    flags: seq<Flag>,
    firstFrame: int,
    lastFrame: int)

  /** Chronological, then by frame sequence. */
  predicate ObservedLe(a: Observation, b: Observation) {
    NoLater(a.time, a.sequence, b.time, b.sequence)
  }

  // ----- the batch form: maximal runs, then merge neighbours

  /** An active stretch. Closed ones end at the clearing observation, an open one at
      its last active observation. */
  datatype Interval = Interval(
    start: int, startState: Option<string>, firstFrame: int,
    end: int, endState: Option<string>, lastFrame: int,
    open: bool)

  function RunLength(s: seq<Observation>): (k: nat)
    ensures k <= |s|
    ensures forall i :: 0 <= i < k ==> s[i].active
    ensures k < |s| ==> !s[k].active
  {
    if s == [] || !s[0].active then 0 else 1 + RunLength(s[1..])
  }

  function Stretch(first: Observation, last: Observation): Interval {
    Interval(first.time, first.state, first.frame, last.time, last.state, last.frame, last.active)
  }

  /** Maximal runs of active observations, each with the observation that clears it. */
  function Runs(s: seq<Observation>): seq<Interval> {
    if s == [] then []
    else if !s[0].active then Runs(s[1..])
    else
      var k := RunLength(s);
      if k == |s| then [Stretch(s[0], s[k - 1])]
      else [Stretch(s[0], s[k])] + Runs(s[k + 1..])
  }

  function Joined(a: Interval, b: Interval): Interval {
    Interval(a.start, a.startState, a.firstFrame, b.end, b.endState, b.lastFrame, b.open)
  }

  /** Merge the next interval into the last one when it starts within the debounce. */
  function Absorb(merged: seq<Interval>, next: Interval, debounce: int): seq<Interval> {
    var n := |merged|;
    if n > 0 && debounce > 0 && !merged[n - 1].open && next.start - merged[n - 1].end <= debounce
    then merged[..n - 1] + [Joined(merged[n - 1], next)]
    else merged + [next]
  }

  function MergeAll(runs: seq<Interval>, debounce: int): seq<Interval> {
    if runs == [] then []
    else Absorb(MergeAll(runs[..|runs| - 1], debounce), runs[|runs| - 1], debounce)
  }

  /** The event reported for an interval. */
  function Report(iv: Interval, gaps: set<GapInterval>): Alarm {
    var hasGap := exists g :: g in gaps && g.Overlaps(iv.start, iv.end);
    Alarm(
      iv.start,
      if iv.open then None else Some(iv.end),
      AtLeastZero(iv.end - iv.start),
      iv.open,
      iv.startState,
      iv.endState,
      if iv.open || hasGap then MEDIUM else HIGH,
      hasGap,
      (if iv.open then [ALARM_OPEN_ENDED] else []) + (if hasGap then [EVENT_HAS_GAP] else []),
      iv.firstFrame,
      iv.lastFrame)
  }

  function ReportAll(ivs: seq<Interval>, gaps: set<GapInterval>): (r: seq<Alarm>)
    ensures |r| == |ivs|
  {
    if ivs == [] then [] else ReportAll(ivs[..|ivs| - 1], gaps) + [Report(ivs[|ivs| - 1], gaps)]
  }

  /** The whole batch specification. */
  function Events(observations: seq<Observation>, debounce: int, gaps: set<GapInterval>): seq<Alarm> {
    ReportAll(MergeAll(Runs(Sort(observations, ObservedLe)), debounce), gaps)
  }

  // ----- one more observation

  function Continued(iv: Interval, o: Observation): Interval {
    Interval(iv.start, iv.startState, iv.firstFrame, o.time, o.state, o.frame, o.active)
  }

  predicate EndsOpen(ivs: seq<Interval>) {
    ivs != [] && ivs[|ivs| - 1].open
  }

  function ExtendRuns(runs: seq<Interval>, o: Observation): seq<Interval> {
    if EndsOpen(runs) then runs[..|runs| - 1] + [Continued(runs[|runs| - 1], o)]
    else if o.active then runs + [Stretch(o, o)]
    else runs
  }

  function ExtendMerged(merged: seq<Interval>, o: Observation, debounce: int): seq<Interval> {
    if EndsOpen(merged) then merged[..|merged| - 1] + [Continued(merged[|merged| - 1], o)]
    else if o.active then Absorb(merged, Stretch(o, o), debounce)
    else merged
  }

  lemma RunLengthIs(s: seq<Observation>, k: nat)
    requires k <= |s|
    requires forall i :: 0 <= i < k ==> s[i].active
    requires k < |s| ==> !s[k].active
    ensures RunLength(s) == k
  {
  }

  lemma {:induction false} RunsAppend(s: seq<Observation>, o: Observation)
    ensures Runs(s + [o]) == ExtendRuns(Runs(s), o)
    decreases |s|
  {
    var t := s + [o];
    if s == [] {
      assert t[1..] == [];
      RunLengthIs(t, if o.active then 1 else 0);
    } else if !s[0].active {
      assert t[1..] == s[1..] + [o];
      RunsAppend(s[1..], o);
    } else {
      var k := RunLength(s);
      if k < |s| {
        RunLengthIs(t, k);
        assert t[k + 1..] == s[k + 1..] + [o];
        RunsAppend(s[k + 1..], o);
        ExtendAfter(Stretch(s[0], s[k]), Runs(s[k + 1..]), o);
      } else {
        RunLengthIs(t, if o.active then k + 1 else k);
        assert !o.active ==> t[k + 1..] == [];
        assert Runs(s) == [Stretch(s[0], s[k - 1])];
      }
    }
  }

  lemma ExtendAfter(first: Interval, rest: seq<Interval>, o: Observation)
    requires !first.open
    ensures ExtendRuns([first] + rest, o) == [first] + ExtendRuns(rest, o)
  {
    if rest != [] {
      assert ([first] + rest)[..|rest|] == [first] + rest[..|rest| - 1];
    }
  }

  /** Only the last interval can be open. */
  ghost predicate OpenOnlyLast(ivs: seq<Interval>) {
    forall i :: 0 <= i < |ivs| - 1 ==> !ivs[i].open
  }

  lemma {:induction false} RunsOpenOnlyLast(s: seq<Observation>)
    ensures OpenOnlyLast(Runs(s))
    decreases |s|
  {
    if s != [] && !s[0].active {
      RunsOpenOnlyLast(s[1..]);
    } else if s != [] && RunLength(s) < |s| {
      RunsOpenOnlyLast(s[RunLength(s) + 1..]);
    }
  }

  lemma {:induction false} MergeKeepsLast(runs: seq<Interval>, debounce: int)
    requires OpenOnlyLast(runs)
    ensures OpenOnlyLast(MergeAll(runs, debounce))
    ensures MergeAll(runs, debounce) == [] <==> runs == []
    ensures runs != [] ==>
              var merged := MergeAll(runs, debounce);
              merged[|merged| - 1].open == runs[|runs| - 1].open && merged[|merged| - 1].end == runs[|runs| - 1].end
  {
    hide Absorb;
    if runs != [] {
      var init, last := runs[..|runs| - 1], runs[|runs| - 1];
      assert init != [] ==> !init[|init| - 1].open;
      MergeKeepsLast(init, debounce);
      AbsorbKeepsLast(MergeAll(init, debounce), last, debounce);
    }
  }

  lemma AbsorbKeepsLast(merged: seq<Interval>, next: Interval, debounce: int)
    requires OpenOnlyLast(merged) && !EndsOpen(merged)
    ensures var r := Absorb(merged, next, debounce);
            OpenOnlyLast(r) && r != [] && r[|r| - 1].open == next.open && r[|r| - 1].end == next.end
  {
    forall i | 0 <= i < |merged|
      ensures !merged[i].open
    {
      assert i == |merged| - 1 || i < |merged| - 1;
    }
  }

  lemma MergeExtends(runs: seq<Interval>, o: Observation, debounce: int)
    requires OpenOnlyLast(runs)
    ensures MergeAll(ExtendRuns(runs, o), debounce) == ExtendMerged(MergeAll(runs, debounce), o, debounce)
  {
    hide Joined, Stretch;
    MergeKeepsLast(runs, debounce);
    if EndsOpen(runs) {
      var init, last := runs[..|runs| - 1], runs[|runs| - 1];
      assert (init + [Continued(last, o)])[..|init|] == init;
      AbsorbContinued(MergeAll(init, debounce), last, o, debounce);
    } else if o.active {
      assert (runs + [Stretch(o, o)])[..|runs|] == runs;
    }
  }

  lemma AbsorbContinued(merged: seq<Interval>, last: Interval, o: Observation, debounce: int)
    requires last.open
    ensures Absorb(merged, Continued(last, o), debounce) == ExtendMerged(Absorb(merged, last, debounce), o, debounce)
  {
    var n := |merged|;
    var whole := Absorb(merged, last, debounce);
    if n > 0 && debounce > 0 && !merged[n - 1].open && last.start - merged[n - 1].end <= debounce {
      assert whole[..|whole| - 1] == merged[..n - 1];
    } else {
      assert whole[..|whole| - 1] == merged;
    }
  }

  lemma MergedAppend(s: seq<Observation>, o: Observation, debounce: int)
    ensures MergeAll(Runs(s + [o]), debounce) == ExtendMerged(MergeAll(Runs(s), debounce), o, debounce)
  {
    hide Runs, MergeAll, ExtendRuns, ExtendMerged;
    RunsAppend(s, o);
    RunsOpenOnlyLast(s);
    MergeExtends(Runs(s), o, debounce);
  }

  // ----- the streaming machine

  lemma ReportAppend(ivs: seq<Interval>, iv: Interval, gaps: set<GapInterval>)
    ensures ReportAll(ivs + [iv], gaps) == ReportAll(ivs, gaps) + [Report(iv, gaps)]
  {
    assert (ivs + [iv])[..|ivs|] == ivs;
  }

  lemma ReportPrefix(ivs: seq<Interval>, gaps: set<GapInterval>)
    requires ivs != []
    ensures ReportAll(ivs, gaps)[..|ivs| - 1] == ReportAll(ivs[..|ivs| - 1], gaps)
    ensures ReportAll(ivs, gaps)[|ivs| - 1] == Report(ivs[|ivs| - 1], gaps)
  {
    hide Report;
  }

  /** Convert one alarm's observations into interval events. */
  method ReconstructAlarms(observations: seq<Observation>, debounce: int, gaps: set<GapInterval>)
    returns (reconstructed: seq<Alarm>)
    ensures reconstructed == Events(observations, debounce, gaps)
  {
    hide Runs, MergeAll, ReportAll, Sort;
    var ordered := Sort(observations, ObservedLe);
    reconstructed := [];
    var inAlarm := false;
    var start, lastActive := 0, 0;
    var firstFrame, lastFrame := 0, 0;
    var startState: Option<string>, lastState: Option<string> := None, None;
    ghost var closed: seq<Interval> := [];
    NothingMerged(debounce, gaps);
    for i := 0 to |ordered|
      invariant reconstructed == ReportAll(closed, gaps)
      invariant forall k :: 0 <= k < |closed| ==> !closed[k].open
      invariant MergeAll(Runs(ordered[..i]), debounce)
                == closed
                   + if inAlarm then [Interval(start, startState, firstFrame, lastActive, lastState, lastFrame, true)]
                     else []
    {
      var obs := ordered[i];
      MergedAppend(ordered[..i], obs, debounce);
      assert ordered[..i + 1] == ordered[..i] + [obs];
      ghost var merged := MergeAll(Runs(ordered[..i]), debounce);
      assert inAlarm ==> merged[..|merged| - 1] == closed;
      if obs.active {
        if !inAlarm {
          var n := |reconstructed|;
          if n > 0 {
            ReportPrefix(closed, gaps);
          }
          if n > 0 && debounce > 0 && reconstructed[n - 1].end.Some?
             && obs.time - reconstructed[n - 1].end.value <= debounce
          {
            var prev := reconstructed[n - 1];
            reconstructed := reconstructed[..n - 1];
            closed := closed[..n - 1];
            inAlarm := true;
            start, startState, firstFrame := prev.start, prev.startState, prev.firstFrame;
          } else {
            inAlarm := true;
            start, startState, firstFrame := obs.time, obs.state, obs.frame;
          }
        }
        lastActive, lastState, lastFrame := obs.time, obs.state, obs.frame;
      } else if inAlarm {
        var interval := Interval(start, startState, firstFrame, obs.time, obs.state, obs.frame, false);
        ReportAppend(closed, interval, gaps);
        reconstructed := reconstructed + [Report(interval, gaps)];
        closed := closed + [interval];
        inAlarm := false;
      }
    }
    assert ordered[..|ordered|] == ordered;
    assert closed + [] == closed;
    if inAlarm {
      var interval := Interval(start, startState, firstFrame, lastActive, lastState, lastFrame, true);
      ReportAppend(closed, interval, gaps);
      reconstructed := reconstructed + [Report(interval, gaps)];
    }
  }

  lemma NothingMerged(debounce: int, gaps: set<GapInterval>)
    ensures MergeAll(Runs([]), debounce) == []
    ensures ReportAll([], gaps) == []
  {
  }

  /** An event is certain exactly when nothing is flagged, open exactly when it has no end,
      and lasts until it is cleared or was last seen active. */
  lemma EventFlags(iv: Interval, gaps: set<GapInterval>)
    ensures var e := Report(iv, gaps);
            && (e.confidence == HIGH <==> e.flags == [])
            && (e.isOpen <==> e.end.None?)
            && (e.isOpen <==> ALARM_OPEN_ENDED in e.flags)
            && (e.hasGap <==> EVENT_HAS_GAP in e.flags)
            && e.duration == if iv.end >= iv.start then iv.end - iv.start else 0
  {
  }

  // ----- what debounce means

  /** Closed events are more than the debounce before their successor, and only the
      last event can be open. */
  lemma EventsSeparated(observations: seq<Observation>, debounce: int, gaps: set<GapInterval>, i: nat)
    requires i + 1 < |Events(observations, debounce, gaps)|
    ensures var events := Events(observations, debounce, gaps);
            && !events[i].isOpen && events[i].end.Some?
            && (debounce > 0 ==> events[i + 1].start - events[i].end.value > debounce)
  {
    hide Runs, MergeAll, Report, Sort;
    var runs := Runs(Sort(observations, ObservedLe));
    RunsOpenOnlyLast(Sort(observations, ObservedLe));
    MergeKeepsLast(runs, debounce);
    MergedApart(runs, debounce);
    ReportAt(MergeAll(runs, debounce), gaps, i);
    ReportAt(MergeAll(runs, debounce), gaps, i + 1);
    ReportShape(MergeAll(runs, debounce)[i], gaps);
    ReportShape(MergeAll(runs, debounce)[i + 1], gaps);
  }

  lemma {:induction false} ReportAt(ivs: seq<Interval>, gaps: set<GapInterval>, i: nat)
    requires i < |ivs|
    ensures ReportAll(ivs, gaps)[i] == Report(ivs[i], gaps)
  {
    hide Report;
    if i < |ivs| - 1 {
      ReportAt(ivs[..|ivs| - 1], gaps, i);
    }
  }

  lemma ReportShape(iv: Interval, gaps: set<GapInterval>)
    ensures Report(iv, gaps).isOpen == iv.open && Report(iv, gaps).start == iv.start
    ensures Report(iv, gaps).end == if iv.open then None else Some(iv.end)
  {
  }

  ghost predicate Apart(ivs: seq<Interval>, debounce: int) {
    forall i :: 0 <= i < |ivs| - 1 ==> ivs[i + 1].start - ivs[i].end > debounce
  }

  lemma {:induction false} MergedApart(runs: seq<Interval>, debounce: int)
    requires OpenOnlyLast(runs)
    ensures debounce > 0 ==> Apart(MergeAll(runs, debounce), debounce)
  {
    if runs != [] {
      var init, last := runs[..|runs| - 1], runs[|runs| - 1];
      MergedApart(init, debounce);
      MergeKeepsLast(init, debounce);
      AbsorbApart(MergeAll(init, debounce), last, debounce);
    }
  }

  lemma AbsorbApart(merged: seq<Interval>, next: Interval, debounce: int)
    requires debounce > 0 ==> Apart(merged, debounce)
    requires merged != [] ==> !merged[|merged| - 1].open
    ensures debounce > 0 ==> Apart(Absorb(merged, next, debounce), debounce)
  {
  }

  /** Debouncing in two steps, small then large, is debouncing once by the larger:
      a merge never hides a later one. */
  lemma {:induction false} DebounceComposes(runs: seq<Interval>, small: int, large: int)
    requires OpenOnlyLast(runs)
    requires 0 < small <= large
    ensures MergeAll(MergeAll(runs, small), large) == MergeAll(runs, large)
  {
    hide Joined;
    if runs != [] {
      var init, x := runs[..|runs| - 1], runs[|runs| - 1];
      DebounceComposes(init, small, large);
      MergeKeepsLast(init, small);
      MergeKeepsLast(init, large);
      AbsorbTwice(MergeAll(init, small), x, small, large);
    }
  }

  lemma AbsorbTwice(merged: seq<Interval>, x: Interval, small: int, large: int)
    requires 0 < small <= large
    requires OpenOnlyLast(merged) && !EndsOpen(merged)
    ensures MergeAll(Absorb(merged, x, small), large) == Absorb(MergeAll(merged, large), x, large)
  {
    var n := |merged|;
    if n > 0 && x.start - merged[n - 1].end <= small {
      var init, a := merged[..n - 1], merged[n - 1];
      var whole := init + [Joined(a, x)];
      assert whole[..n - 1] == init;
      AbsorbAssociates(MergeAll(init, large), a, x, large);
    } else {
      assert (merged + [x])[..n] == merged;
    }
  }

  lemma AbsorbAssociates(merged: seq<Interval>, a: Interval, x: Interval, debounce: int)
    requires debounce > 0 && !a.open && x.start - a.end <= debounce
    ensures Absorb(merged, Joined(a, x), debounce) == Absorb(Absorb(merged, a, debounce), x, debounce)
  {
    var once := Absorb(merged, a, debounce);
    var n := |merged|;
    if n > 0 && !merged[n - 1].open && a.start - merged[n - 1].end <= debounce {
      assert once[..|once| - 1] == merged[..n - 1];
    } else {
      assert once[..|once| - 1] == merged;
    }
  }

  // ----- no active observation is left out

  ghost predicate Covers(ivs: seq<Interval>, t: int) {
    exists i :: 0 <= i < |ivs| && ivs[i].start <= t <= ivs[i].end
  }

  lemma PrependCovers(first: Interval, rest: seq<Interval>, t: int)
    requires Covers(rest, t)
    ensures Covers([first] + rest, t)
  {
    var i :| 0 <= i < |rest| && rest[i].start <= t <= rest[i].end;
    assert ([first] + rest)[i + 1] == rest[i];
  }

  lemma {:induction false} RunsCover(s: seq<Observation>, o: Observation)
    requires Ascending(s, ObservedLe)
    requires o in s && o.active
    ensures Covers(Runs(s), o.time)
    decreases |s|
  {
    var j :| 0 <= j < |s| && s[j] == o;
    if !s[0].active {
      assert s[1..][j - 1] == o;
      RunsCover(s[1..], o);
    } else {
      var k := RunLength(s);
      assert forall i :: 0 < i < |s| ==> ObservedLe(s[0], s[i]);
      if j <= k {
        assert j == |s| - 1 || k == |s| || ObservedLe(s[j], s[k]) || j == k;
        assert k == |s| ==> j == k - 1 || ObservedLe(s[j], s[k - 1]);
        assert Runs(s)[0].start <= o.time <= Runs(s)[0].end;
      } else {
        var rest := s[k + 1..];
        assert rest[j - k - 1] == o;
        RunsCover(rest, o);
        PrependCovers(Stretch(s[0], s[k]), Runs(rest), o.time);
      }
    }
  }

  ghost predicate InOrder(ivs: seq<Interval>) {
    && (forall i :: 0 <= i < |ivs| ==> ivs[i].start <= ivs[i].end)
    && (forall i, j :: 0 <= i < j < |ivs| ==> ivs[i].end <= ivs[j].start)
  }

  lemma InOrderBasics()
    ensures InOrder([])
    ensures forall iv: Interval :: iv.start <= iv.end ==> InOrder([iv])
  {
  }

  lemma PrependInOrder(first: Interval, rest: seq<Interval>)
    requires first.start <= first.end && InOrder(rest)
    requires forall i :: 0 <= i < |rest| ==> first.end <= rest[i].start
    ensures InOrder([first] + rest)
    ensures forall i :: 0 <= i < |[first] + rest| ==> first.start <= ([first] + rest)[i].start
  {
  }

  lemma {:induction false} RunsInOrder(s: seq<Observation>)
    requires Ascending(s, ObservedLe)
    ensures InOrder(Runs(s))
    ensures forall i :: 0 <= i < |Runs(s)| ==> s != [] && s[0].time <= Runs(s)[i].start
    decreases |s|
  {
    hide InOrder;
    InOrderBasics();
    if s != [] {
      assert forall i :: 0 < i < |s| ==> ObservedLe(s[0], s[i]);
      if !s[0].active {
        RunsInOrder(s[1..]);
      } else {
        var k := RunLength(s);
        if k < |s| {
          var rest := s[k + 1..];
          RunsInOrder(rest);
          assert rest != [] ==> ObservedLe(s[k], rest[0]);
          PrependInOrder(Stretch(s[0], s[k]), Runs(rest));
        }
      }
    }
  }

  /** Where the merged stretches end up. */
  ghost predicate EndsLike(merged: seq<Interval>, runs: seq<Interval>) {
    && (runs != [] <==> merged != [])
    && (runs != [] ==>
          && merged[|merged| - 1].start <= runs[|runs| - 1].start
          && merged[|merged| - 1].end == runs[|runs| - 1].end)
  }

  lemma AbsorbEnds(merged: seq<Interval>, init: seq<Interval>, last: Interval, debounce: int)
    requires InOrder(init + [last]) && EndsLike(merged, init)
    ensures merged != [] ==> merged[|merged| - 1].end <= last.start
    ensures last.start <= last.end && InOrder(init)
    ensures EndsLike(Absorb(merged, last, debounce), init + [last])
  {
    var runs := init + [last];
    assert runs[|init|] == last;
    assert forall i :: 0 <= i < |init| ==> runs[i] == init[i];
  }

  lemma {:induction false} MergeInOrder(runs: seq<Interval>, debounce: int)
    requires InOrder(runs)
    ensures InOrder(MergeAll(runs, debounce)) && EndsLike(MergeAll(runs, debounce), runs)
  {
    if runs != [] {
      hide Absorb, InOrder, EndsLike;
      var init, last := runs[..|runs| - 1], runs[|runs| - 1];
      assert runs == init + [last];
      OrderedPrefix(init, last);
      MergeInOrder(init, debounce);
      AbsorbEnds(MergeAll(init, debounce), init, last, debounce);
      AbsorbInOrder(MergeAll(init, debounce), last, debounce);
    }
  }

  lemma OrderedPrefix(init: seq<Interval>, last: Interval)
    requires InOrder(init + [last])
    ensures InOrder(init)
  {
    var runs := init + [last];
    assert forall i :: 0 <= i < |init| ==> runs[i] == init[i];
  }

  lemma CoversSplit(init: seq<Interval>, last: Interval, t: int)
    ensures Covers(init + [last], t) ==> Covers(init, t) || last.start <= t <= last.end
  {
    if Covers(init + [last], t) {
      var i :| 0 <= i < |init + [last]| && (init + [last])[i].start <= t <= (init + [last])[i].end;
      if i < |init| {
        assert init[i].start <= t <= init[i].end;
      }
    }
  }

  lemma {:induction false} MergeCovers(runs: seq<Interval>, debounce: int, t: int)
    requires InOrder(runs)
    ensures Covers(runs, t) ==> Covers(MergeAll(runs, debounce), t)
  {
    if runs != [] {
      hide Absorb, InOrder, EndsLike, Covers;
      var init, last := runs[..|runs| - 1], runs[|runs| - 1];
      assert runs == init + [last];
      OrderedPrefix(init, last);
      MergeCovers(init, debounce, t);
      MergeInOrder(init, debounce);
      AbsorbEnds(MergeAll(init, debounce), init, last, debounce);
      AbsorbCovers(MergeAll(init, debounce), last, debounce, t);
      CoversSplit(init, last, t);
    }
  }

  lemma AbsorbInOrder(merged: seq<Interval>, next: Interval, debounce: int)
    requires InOrder(merged) && next.start <= next.end
    requires merged != [] ==> merged[|merged| - 1].end <= next.start
    ensures InOrder(Absorb(merged, next, debounce))
  {
    var n := |merged|;
    assert n > 0 ==> forall i :: 0 <= i < n - 1 ==> merged[i].end <= merged[n - 1].start;
  }

  lemma AbsorbCovers(merged: seq<Interval>, next: Interval, debounce: int, t: int)
    requires InOrder(merged) && next.start <= next.end
    requires merged != [] ==> merged[|merged| - 1].end <= next.start
    ensures Covers(merged, t) || next.start <= t <= next.end ==> Covers(Absorb(merged, next, debounce), t)
  {
    var n := |merged|;
    var whole := Absorb(merged, next, debounce);
    if Covers(merged, t) {
      var i :| 0 <= i < n && merged[i].start <= t <= merged[i].end;
      assert whole[i].start <= t <= whole[i].end;
    } else if next.start <= t <= next.end {
      assert whole[|whole| - 1].start <= t <= whole[|whole| - 1].end;
    }
  }

  /** Events never overlap, and every active observation lies inside one of them,
      whatever the debounce. */
  lemma ActiveObservationsCovered(observations: seq<Observation>, debounce: int, o: Observation)
    requires o in observations && o.active
    ensures var merged := MergeAll(Runs(Sort(observations, ObservedLe)), debounce);
            InOrder(merged) && Covers(merged, o.time)
  {
    hide Runs, MergeAll, InOrder, Covers;
    var ordered := Sort(observations, ObservedLe);
    assert TotalPreorder(ObservedLe);
    SortAscends(observations, ObservedLe);
    MembersFromMultiset(ordered, observations);
    RunsCover(ordered, o);
    RunsInOrder(ordered);
    MergeInOrder(Runs(ordered), debounce);
    MergeCovers(Runs(ordered), debounce, o.time);
  }
}
