/** Alarm events read off the observations in order: which one begins an event, which ends
    it, and when the debounce joins two stretches. */
module AlarmFacts {
  import opened Sorting
  import opened FrameModels
  import opened Instants
  import opened AlarmReconstructor

  /** An event's first and last observation, by index. */
  datatype Span = Span(from: nat, to: nat)

  /** Observation k is the first inactive one after an active one. */
  ghost predicate Clears(s: seq<Observation>, k: int) {
    0 < k < |s| && s[k - 1].active && !s[k].active
  }

  /** Observation m is the first active one after k. */
  ghost predicate Resumes(s: seq<Observation>, k: int, m: int) {
    0 <= k < m < |s| && s[m].active && forall j :: k < j < m ==> !s[j].active
  }

  ghost predicate WithinDebounce(s: seq<Observation>, debounce: int, k: int, m: int)
    requires 0 <= k < |s| && 0 <= m < |s|
  {
    debounce > 0 && s[m].time - s[k].time <= debounce
  }

  /** An event begins at an active observation that follows none, and ends at one that
      clears it; only the last may end at the last observation, still active. */
  ghost predicate Bounded(s: seq<Observation>, sp: Span) {
    && sp.from <= sp.to < |s|
    && s[sp.from].active && (sp.from > 0 ==> !s[sp.from - 1].active)
    && (Clears(s, sp.to) || (sp.to == |s| - 1 && s[sp.to].active))
  }

  /** Within an event the alarm clears for no longer than the debounce. */
  ghost predicate Bridged(s: seq<Observation>, debounce: int, sp: Span) {
    forall k, m :: sp.from < k < m <= sp.to && Clears(s, k) && Resumes(s, k, m) ==> WithinDebounce(s, debounce, k, m)
  }

  /** The events' observations: every active one belongs to an event, and events follow
      one another further apart than the debounce. */
  ghost predicate Spanned(s: seq<Observation>, debounce: int, spans: seq<Span>) {
    && (forall i :: 0 <= i < |spans| ==> Bounded(s, spans[i]) && Bridged(s, debounce, spans[i]))
    && (forall i, j :: 0 <= i < j < |spans| ==> spans[i].to < spans[j].from)
    && (forall i :: 0 < i < |spans| ==> !WithinDebounce(s, debounce, spans[i - 1].to, spans[i].from))
    && forall k :: 0 <= k < |s| && s[k].active ==> InSome(spans, k)
  }

  ghost predicate InSome(spans: seq<Span>, k: int) {
    exists i :: 0 <= i < |spans| && spans[i].from <= k <= spans[i].to
  }

  /** One event as reported, from its first and last observation. */
  ghost predicate AlarmRead(s: seq<Observation>, gaps: set<GapInterval>, sp: Span, alarm: Alarm)
    requires Bounded(s, sp)
  {
    var first, last := s[sp.from], s[sp.to];
    && alarm.start == first.time && alarm.startState == first.state && alarm.firstFrame == first.frame
    && alarm.endState == last.state && alarm.lastFrame == last.frame
    && alarm.isOpen == last.active
    && alarm.end == (if last.active then None else Some(last.time))
    && alarm.duration == (if last.time >= first.time then last.time - first.time else 0)
    && (alarm.hasGap <==> exists gap :: gap in gaps && gap.start < last.time && gap.end > first.time)
    && (ALARM_OPEN_ENDED in alarm.flags <==> alarm.isOpen)
    && (EVENT_HAS_GAP in alarm.flags <==> alarm.hasGap)
    && (alarm.confidence == HIGH <==> !alarm.isOpen && !alarm.hasGap)
  }

  // ----- intervals and their observations

  ghost predicate IntervalRead(s: seq<Observation>, sp: Span, iv: Interval)
    requires Bounded(s, sp)
  {
    && iv.start == s[sp.from].time && iv.startState == s[sp.from].state && iv.firstFrame == s[sp.from].frame
    && iv.end == s[sp.to].time && iv.endState == s[sp.to].state && iv.lastFrame == s[sp.to].frame
    && iv.open == s[sp.to].active
  }

  ghost predicate Traced(s: seq<Observation>, debounce: int, spans: seq<Span>, ivs: seq<Interval>) {
    && Spanned(s, debounce, spans)
    && |spans| == |ivs|
    && forall i :: 0 <= i < |spans| ==> IntervalRead(s, spans[i], ivs[i])
  }

  lemma SameBefore(s: seq<Observation>, o: Observation, debounce: int, sp: Span)
    requires Bounded(s, sp)
    ensures Clears(s, sp.to) ==> Bounded(s + [o], sp)
    ensures Bridged(s + [o], debounce, sp) <==> Bridged(s, debounce, sp)
  {
    var t := s + [o];
    assert forall j :: 0 <= j < |s| ==> t[j] == s[j];
    forall k, m | sp.from < k < m <= sp.to
      ensures Clears(t, k) <==> Clears(s, k)
      ensures Resumes(t, k, m) <==> Resumes(s, k, m)
    {
    }
  }

  /** The last event runs on to the next observation. */
  lemma RunsOn(s: seq<Observation>, o: Observation, debounce: int, sp: Span)
    requires Bounded(s, sp) && Bridged(s, debounce, sp) && s[sp.to].active
    ensures Bounded(s + [o], Span(sp.from, |s|)) && Bridged(s + [o], debounce, Span(sp.from, |s|))
  {
    var t, n := s + [o], |s|;
    assert forall j :: 0 <= j < n ==> t[j] == s[j];
    forall k, m | sp.from < k < m <= n && Clears(t, k) && Resumes(t, k, m)
      ensures WithinDebounce(t, debounce, k, m)
    {
      assert t[n - 1].active;
      assert k != n - 1;
      assert m < n;
      assert Clears(s, k) && Resumes(s, k, m);
      assert WithinDebounce(s, debounce, k, m);
    }
  }

  /** The last event is taken up again. */
  lemma TakesUp(s: seq<Observation>, o: Observation, debounce: int, sp: Span)
    requires Bounded(s, sp) && Bridged(s, debounce, sp) && Clears(s, sp.to) && o.active
    requires forall k :: sp.to < k < |s| ==> !s[k].active
    requires WithinDebounce(s + [o], debounce, sp.to, |s|)
    ensures Bounded(s + [o], Span(sp.from, |s|)) && Bridged(s + [o], debounce, Span(sp.from, |s|))
  {
    var t, n := s + [o], |s|;
    assert forall j :: 0 <= j < n ==> t[j] == s[j];
    forall k, m | sp.from < k < m <= n && Clears(t, k) && Resumes(t, k, m)
      ensures WithinDebounce(t, debounce, k, m)
    {
      assert t[sp.to - 1].active;
      if k < sp.to {
        assert k < sp.to - 1 || k == sp.to - 1;
        assert m <= sp.to - 1;
        assert Clears(s, k) && Resumes(s, k, m);
        assert WithinDebounce(s, debounce, k, m);
      } else {
        assert k == sp.to && m == n;
      }
    }
  }

  lemma InSomeStays(spans: seq<Span>, last: Span, k: int)
    ensures InSome(spans, k) ==> InSome(spans + [last], k)
    ensures last.from <= k <= last.to ==> InSome(spans + [last], k)
  {
    if i :| 0 <= i < |spans| && spans[i].from <= k <= spans[i].to {
      assert (spans + [last])[i] == spans[i];
    }
    assert (spans + [last])[|spans|] == last;
  }

  lemma ActiveByLast(s: seq<Observation>, debounce: int, spans: seq<Span>, k: int)
    requires Spanned(s, debounce, spans) && 0 <= k < |s| && s[k].active
    ensures spans != [] && k <= spans[|spans| - 1].to
  {
    hide Bridged, WithinDebounce;
    assert InSome(spans, k);
    var i :| 0 <= i < |spans| && spans[i].from <= k <= spans[i].to;
    var last := |spans| - 1;
    if i < last {
      assert spans[i].to < spans[last].from;
      assert Bounded(s, spans[last]);
    }
  }

  lemma LastInRange(s: seq<Observation>, debounce: int, spans: seq<Span>)
    requires Spanned(s, debounce, spans) && spans != []
    ensures Bounded(s, spans[|spans| - 1]) && Bridged(s, debounce, spans[|spans| - 1])
    ensures spans[|spans| - 1].to < |s|
  {
    hide Bridged, WithinDebounce;
  }

  /** Without an open event no observation since the last event is active. */
  lemma QuietSince(s: seq<Observation>, debounce: int, spans: seq<Span>)
    requires Spanned(s, debounce, spans)
    requires spans != [] ==> spans[|spans| - 1].to < |s| && !s[spans[|spans| - 1].to].active
    ensures forall k :: (if spans == [] then -1 else spans[|spans| - 1].to) < k < |s| ==> !s[k].active
    ensures s != [] ==> !s[|s| - 1].active
  {
    hide Spanned;
    forall k | 0 <= k < |s| && s[k].active
      ensures spans != [] && k < spans[|spans| - 1].to
    {
      ActiveByLast(s, debounce, spans, k);
    }
    if spans != [] {
      LastInRange(s, debounce, spans);
    }
  }

  // ----- one more observation

  /** A closed event is the same after one more observation. */
  ghost predicate Settled(s: seq<Observation>, debounce: int, sp: Span, iv: Interval) {
    Bounded(s, sp) && Bridged(s, debounce, sp) && Clears(s, sp.to) && IntervalRead(s, sp, iv)
  }

  lemma SettledStays(s: seq<Observation>, o: Observation, debounce: int, sp: Span, iv: Interval)
    requires Settled(s, debounce, sp, iv)
    ensures Settled(s + [o], debounce, sp, iv)
  {
    hide Bridged;
    SameBefore(s, o, debounce, sp);
  }

  lemma SettledBefore(s: seq<Observation>, debounce: int, spans: seq<Span>, ivs: seq<Interval>, i: nat)
    requires Traced(s, debounce, spans, ivs) && i < |spans|
    requires i < |spans| - 1 || !ivs[i].open
    ensures Settled(s, debounce, spans[i], ivs[i])
  {
    hide Bridged, WithinDebounce;
    assert Bounded(s, spans[i]) && IntervalRead(s, spans[i], ivs[i]);
    if i < |spans| - 1 {
      assert spans[i].to < spans[i + 1].from;
      assert Bounded(s, spans[i + 1]);
    }
  }

  ghost predicate AllSettled(s: seq<Observation>, debounce: int, spans: seq<Span>, ivs: seq<Interval>) {
    && |spans| == |ivs|
    && (forall i :: 0 <= i < |spans| ==> Settled(s, debounce, spans[i], ivs[i]))
    && (forall i, j :: 0 <= i < j < |spans| ==> spans[i].to < spans[j].from)
    && (forall i :: 0 < i < |spans| ==> !FollowsClosely(s, debounce, spans[i - 1], spans[i]))
  }

  ghost predicate FollowsClosely(s: seq<Observation>, debounce: int, a: Span, b: Span) {
    a.to < |s| && b.from < |s| && WithinDebounce(s, debounce, a.to, b.from)
  }

  lemma InitSettled(s: seq<Observation>, o: Observation, debounce: int, spans: seq<Span>, ivs: seq<Interval>)
    requires Traced(s, debounce, spans, ivs)
    ensures spans != [] ==> AllSettled(s + [o], debounce, spans[..|spans| - 1], ivs[..|ivs| - 1])
    ensures !EndsOpen(ivs) ==> AllSettled(s + [o], debounce, spans, ivs)
  {
    hide Settled, Bounded, Bridged, WithinDebounce, FollowsClosely, IntervalRead, InSome;
    forall i | 0 <= i < |spans| && (i < |spans| - 1 || !ivs[i].open)
      ensures Settled(s + [o], debounce, spans[i], ivs[i])
    {
      SettledBefore(s, debounce, spans, ivs, i);
      SettledStays(s, o, debounce, spans[i], ivs[i]);
    }
    forall i | 0 < i < |spans|
      ensures !FollowsClosely(s + [o], debounce, spans[i - 1], spans[i])
    {
      StillApart(s, o, debounce, spans, i);
    }
  }

  lemma StillApart(s: seq<Observation>, o: Observation, debounce: int, spans: seq<Span>, i: nat)
    requires Spanned(s, debounce, spans) && 0 < i < |spans|
    ensures !FollowsClosely(s + [o], debounce, spans[i - 1], spans[i])
  {
    hide Bridged, WithinDebounce, InSome;
    assert Bounded(s, spans[i - 1]) && Bounded(s, spans[i]);
    assert !WithinDebounce(s, debounce, spans[i - 1].to, spans[i].from);
    SameDistance(s, o, debounce, spans[i - 1].to, spans[i].from);
  }

  lemma SameDistance(s: seq<Observation>, o: Observation, debounce: int, k: int, m: int)
    requires 0 <= k < |s| && 0 <= m < |s|
    ensures WithinDebounce(s + [o], debounce, k, m) <==> WithinDebounce(s, debounce, k, m)
  {
  }

  lemma EachBounded(t: seq<Observation>, debounce: int, init: seq<Span>, settled: seq<Interval>, sp: Span, iv: Interval)
    requires AllSettled(t, debounce, init, settled)
    requires Bounded(t, sp) && Bridged(t, debounce, sp) && IntervalRead(t, sp, iv)
    ensures forall i :: 0 <= i < |init + [sp]| ==>
              && Bounded(t, (init + [sp])[i]) && Bridged(t, debounce, (init + [sp])[i])
              && IntervalRead(t, (init + [sp])[i], (settled + [iv])[i])
  {
    hide Bridged, Bounded, IntervalRead, FollowsClosely;
    forall i | 0 <= i < |init + [sp]|
      ensures Bounded(t, (init + [sp])[i]) && Bridged(t, debounce, (init + [sp])[i])
      ensures IntervalRead(t, (init + [sp])[i], (settled + [iv])[i])
    {
      assert i < |init| ==> Settled(t, debounce, init[i], settled[i]);
    }
  }

  lemma EachFollows(t: seq<Observation>, debounce: int, init: seq<Span>, settled: seq<Interval>, sp: Span)
    requires AllSettled(t, debounce, init, settled)
    requires init != [] ==> init[|init| - 1].to < sp.from && !FollowsClosely(t, debounce, init[|init| - 1], sp)
    ensures var spans := init + [sp];
            && (forall i, j :: 0 <= i < j < |spans| ==> spans[i].to < spans[j].from)
            && forall i :: 0 < i < |spans| ==> !FollowsClosely(t, debounce, spans[i - 1], spans[i])
  {
    hide Bridged, IntervalRead, FollowsClosely;
    var spans, n := init + [sp], |init|;
    if init != [] {
      assert Settled(t, debounce, init[n - 1], settled[n - 1]);
    }
    forall i, j | 0 <= i < j < |spans|
      ensures spans[i].to < spans[j].from
    {
      if j == n && i < n - 1 {
        assert init[i].to < init[n - 1].from <= init[n - 1].to;
      }
    }
  }

  lemma SpannedFrom(t: seq<Observation>, debounce: int, spans: seq<Span>)
    requires forall i :: 0 <= i < |spans| ==> Bounded(t, spans[i]) && Bridged(t, debounce, spans[i])
    requires forall i, j :: 0 <= i < j < |spans| ==> spans[i].to < spans[j].from
    requires forall i :: 0 < i < |spans| ==> !FollowsClosely(t, debounce, spans[i - 1], spans[i])
    requires forall k :: 0 <= k < |t| && t[k].active ==> InSome(spans, k)
    ensures Spanned(t, debounce, spans)
  {
    hide Bridged, WithinDebounce, InSome;
    forall i | 0 < i < |spans|
      ensures !WithinDebounce(t, debounce, spans[i - 1].to, spans[i].from)
    {
      assert Bounded(t, spans[i - 1]) && Bounded(t, spans[i]);
      assert !FollowsClosely(t, debounce, spans[i - 1], spans[i]);
    }
  }

  /** Settled events and one more make up the whole. */
  lemma TracedByLast(
      t: seq<Observation>, debounce: int, init: seq<Span>, settled: seq<Interval>, sp: Span, iv: Interval)
    requires AllSettled(t, debounce, init, settled)
    requires Bounded(t, sp) && Bridged(t, debounce, sp) && IntervalRead(t, sp, iv)
    requires init != [] ==> init[|init| - 1].to < sp.from && !FollowsClosely(t, debounce, init[|init| - 1], sp)
    requires forall k :: 0 <= k < |t| && t[k].active ==> InSome(init + [sp], k)
    ensures Traced(t, debounce, init + [sp], settled + [iv])
  {
    hide Bridged, Bounded, Spanned, IntervalRead, InSome, FollowsClosely, Settled;
    EachBounded(t, debounce, init, settled, sp, iv);
    EachFollows(t, debounce, init, settled, sp);
    SpannedFrom(t, debounce, init + [sp]);
  }

  /** The last event, replaced by one that runs on to the new observation. */
  lemma RunOnTraced(
      s: seq<Observation>, o: Observation, debounce: int, spans: seq<Span>, ivs: seq<Interval>, iv: Interval)
    requires Traced(s, debounce, spans, ivs) && spans != []
    requires var sp := Span(spans[|spans| - 1].from, |s|);
             Bounded(s + [o], sp) && Bridged(s + [o], debounce, sp) && IntervalRead(s + [o], sp, iv)
    ensures Traced(s + [o], debounce, spans[..|spans| - 1] + [Span(spans[|spans| - 1].from, |s|)],
                   ivs[..|ivs| - 1] + [iv])
  {
    hide Bridged, WithinDebounce, Settled, Spanned, Bounded, IntervalRead, InSome, FollowsClosely, AllSettled;
    var t, n, last := s + [o], |s|, |spans| - 1;
    var init, sp := spans[..last], Span(spans[last].from, n);
    InitSettled(s, o, debounce, spans, ivs);
    forall k | 0 <= k < |t| && t[k].active
      ensures InSome(init + [sp], k)
    {
      RunOnHolds(s, o, debounce, spans, k);
    }
    if init != [] {
      SameFrom(s, o, debounce, spans);
    }
    TracedByLast(t, debounce, init, ivs[..|ivs| - 1], sp, iv);
  }

  lemma HeldBy(s: seq<Observation>, debounce: int, spans: seq<Span>, k: int)
    requires Spanned(s, debounce, spans) && 0 <= k < |s| && s[k].active
    ensures InSome(spans, k)
  {
    hide Bounded, Bridged, WithinDebounce, InSome;
  }

  lemma InSomeSplit(spans: seq<Span>, k: int)
    requires InSome(spans, k)
    ensures spans != [] && (InSome(spans[..|spans| - 1], k) || spans[|spans| - 1].from <= k <= spans[|spans| - 1].to)
  {
    var i :| 0 <= i < |spans| && spans[i].from <= k <= spans[i].to;
    var init := spans[..|spans| - 1];
    if i < |init| {
      assert init[i].from <= k <= init[i].to;
    }
  }

  lemma RunOnHolds(s: seq<Observation>, o: Observation, debounce: int, spans: seq<Span>, k: int)
    requires Spanned(s, debounce, spans) && spans != []
    requires 0 <= k <= |s| && (s + [o])[k].active
    ensures InSome(spans[..|spans| - 1] + [Span(spans[|spans| - 1].from, |s|)], k)
  {
    hide Spanned, InSome;
    var last := |spans| - 1;
    LastInRange(s, debounce, spans);
    InSomeStays(spans[..last], Span(spans[last].from, |s|), k);
    if k < |s| {
      HeldBy(s, debounce, spans, k);
      InSomeSplit(spans, k);
    }
  }

  lemma SameFrom(s: seq<Observation>, o: Observation, debounce: int, spans: seq<Span>)
    requires Spanned(s, debounce, spans) && |spans| > 1
    ensures var a, b := spans[|spans| - 2], spans[|spans| - 1];
            a.to < b.from && !FollowsClosely(s + [o], debounce, a, Span(b.from, |s|))
  {
    hide Bridged;
    var a, b := spans[|spans| - 2], spans[|spans| - 1];
    assert Bounded(s, a) && Bounded(s, b);
    assert !WithinDebounce(s, debounce, a.to, b.from);
    SameDistance(s, o, debounce, a.to, b.from);
  }

  /** What happens at one more observation happens to the events' observations. */
  lemma Extends(s: seq<Observation>, o: Observation, debounce: int, spans: seq<Span>, ivs: seq<Interval>)
    returns (more: seq<Span>)
    requires Traced(s, debounce, spans, ivs)
    ensures Traced(s + [o], debounce, more, ExtendMerged(ivs, o, debounce))
  {
    hide Spanned, Bridged, Bounded, WithinDebounce, IntervalRead;
    var t, n, last := s + [o], |s|, |spans| - 1;
    if EndsOpen(ivs) {
      more := spans[..last] + [Span(spans[last].from, n)];
      OpenRunsOn(s, o, debounce, spans, ivs);
      RunOnTraced(s, o, debounce, spans, ivs, Continued(ivs[last], o));
    } else if !o.active {
      more := spans;
      StaysQuiet(s, o, debounce, spans, ivs);
    } else if spans != [] && FollowsClosely(t, debounce, spans[last], Span(n, n)) {
      more := spans[..last] + [Span(spans[last].from, n)];
      ClosedTakenUp(s, o, debounce, spans, ivs);
      RunOnTraced(s, o, debounce, spans, ivs, Joined(ivs[last], Stretch(o, o)));
      AbsorbsIff(s, o, debounce, spans, ivs);
    } else {
      more := spans + [Span(n, n)];
      StartsAnew(s, o, debounce, spans, ivs);
      AbsorbsIff(s, o, debounce, spans, ivs);
    }
  }

  lemma OpenRunsOn(s: seq<Observation>, o: Observation, debounce: int, spans: seq<Span>, ivs: seq<Interval>)
    requires Traced(s, debounce, spans, ivs) && EndsOpen(ivs)
    ensures var sp := Span(spans[|spans| - 1].from, |s|);
            && Bounded(s + [o], sp) && Bridged(s + [o], debounce, sp)
            && IntervalRead(s + [o], sp, Continued(ivs[|spans| - 1], o))
  {
    hide Bridged, WithinDebounce, Spanned;
    var last := |spans| - 1;
    LastInRange(s, debounce, spans);
    assert IntervalRead(s, spans[last], ivs[last]);
    RunsOn(s, o, debounce, spans[last]);
  }

  lemma StaysQuiet(s: seq<Observation>, o: Observation, debounce: int, spans: seq<Span>, ivs: seq<Interval>)
    requires Traced(s, debounce, spans, ivs) && !EndsOpen(ivs) && !o.active
    ensures Traced(s + [o], debounce, spans, ivs)
  {
    hide Bridged, WithinDebounce, Settled;
    InitSettled(s, o, debounce, spans, ivs);
    var t := s + [o];
    forall k | 0 <= k < |t| && t[k].active
      ensures InSome(spans, k)
    {
      assert s[k].active;
    }
    AllSettledTraced(t, debounce, spans, ivs);
  }

  lemma AllSettledTraced(t: seq<Observation>, debounce: int, spans: seq<Span>, ivs: seq<Interval>)
    requires AllSettled(t, debounce, spans, ivs)
    requires forall k :: 0 <= k < |t| && t[k].active ==> InSome(spans, k)
    ensures Traced(t, debounce, spans, ivs)
  {
    hide Bridged, Bounded, Spanned, IntervalRead, InSome, FollowsClosely;
    forall i | 0 <= i < |spans|
      ensures Bounded(t, spans[i]) && Bridged(t, debounce, spans[i]) && IntervalRead(t, spans[i], ivs[i])
    {
      assert Settled(t, debounce, spans[i], ivs[i]);
    }
    SpannedFrom(t, debounce, spans);
  }

  /** The last event is closed, and nothing since it is active. */
  lemma ClosedLast(s: seq<Observation>, debounce: int, spans: seq<Span>, ivs: seq<Interval>)
    requires Traced(s, debounce, spans, ivs) && !EndsOpen(ivs)
    ensures spans != [] ==> Settled(s, debounce, spans[|spans| - 1], ivs[|spans| - 1])
    ensures forall k :: (if spans == [] then -1 else spans[|spans| - 1].to) < k < |s| ==> !s[k].active
    ensures s != [] ==> !s[|s| - 1].active
  {
    hide Bridged, WithinDebounce, Spanned;
    if spans != [] {
      SettledBefore(s, debounce, spans, ivs, |spans| - 1);
    }
    QuietSince(s, debounce, spans);
  }

  lemma ClosedTakenUp(s: seq<Observation>, o: Observation, debounce: int, spans: seq<Span>, ivs: seq<Interval>)
    requires Traced(s, debounce, spans, ivs) && !EndsOpen(ivs) && o.active && spans != []
    requires FollowsClosely(s + [o], debounce, spans[|spans| - 1], Span(|s|, |s|))
    ensures var sp := Span(spans[|spans| - 1].from, |s|);
            && Bounded(s + [o], sp) && Bridged(s + [o], debounce, sp)
            && IntervalRead(s + [o], sp, Joined(ivs[|spans| - 1], Stretch(o, o)))
  {
    hide Bridged, WithinDebounce, Spanned, Traced;
    ClosedLast(s, debounce, spans, ivs);
    TracedLength(s, debounce, spans, ivs);
    TakesUp(s, o, debounce, spans[|spans| - 1]);
  }

  lemma TracedLength(s: seq<Observation>, debounce: int, spans: seq<Span>, ivs: seq<Interval>)
    requires Traced(s, debounce, spans, ivs)
    ensures |spans| == |ivs|
  {
  }

  lemma StartsAnew(s: seq<Observation>, o: Observation, debounce: int, spans: seq<Span>, ivs: seq<Interval>)
    requires Traced(s, debounce, spans, ivs) && !EndsOpen(ivs) && o.active
    requires spans != [] ==> !FollowsClosely(s + [o], debounce, spans[|spans| - 1], Span(|s|, |s|))
    ensures Traced(s + [o], debounce, spans + [Span(|s|, |s|)], ivs + [Stretch(o, o)])
  {
    hide Bridged, WithinDebounce, Settled;
    var t, n, sp := s + [o], |s|, Span(|s|, |s|);
    InitSettled(s, o, debounce, spans, ivs);
    ClosedLast(s, debounce, spans, ivs);
    OneBridged(t, debounce, sp);
    forall k | 0 <= k < |t| && t[k].active
      ensures InSome(spans + [sp], k)
    {
      InSomeStays(spans, sp, k);
      assert k < n ==> s[k].active;
    }
    if spans != [] {
      LastInRange(s, debounce, spans);
    }
    TracedByLast(t, debounce, spans, ivs, sp, Stretch(o, o));
  }

  lemma OneBridged(t: seq<Observation>, debounce: int, sp: Span)
    requires sp.from == sp.to
    ensures Bridged(t, debounce, sp)
  {
  }

  lemma AbsorbsIff(s: seq<Observation>, o: Observation, debounce: int, spans: seq<Span>, ivs: seq<Interval>)
    requires Traced(s, debounce, spans, ivs) && !EndsOpen(ivs) && o.active
    ensures |spans| == |ivs|
    ensures ExtendMerged(ivs, o, debounce)
            == if spans != [] && FollowsClosely(s + [o], debounce, spans[|spans| - 1], Span(|s|, |s|))
               then ivs[..|ivs| - 1] + [Joined(ivs[|ivs| - 1], Stretch(o, o))]
               else ivs + [Stretch(o, o)]
  {
    hide Bridged, Spanned;
    if spans != [] {
      LastInRange(s, debounce, spans);
      assert IntervalRead(s, spans[|spans| - 1], ivs[|spans| - 1]);
    }
  }

  // ----- the events

  lemma {:induction false} MergedTraced(s: seq<Observation>, debounce: int) returns (spans: seq<Span>)
    ensures Traced(s, debounce, spans, MergeAll(Runs(s), debounce))
  {
    hide Runs, MergeAll, Traced, ExtendMerged;
    if s == [] {
      spans := [];
      NothingTraced(debounce);
    } else {
      var init, o := s[..|s| - 1], s[|s| - 1];
      assert s == init + [o];
      var before := MergedTraced(init, debounce);
      spans := Extends(init, o, debounce, before, MergeAll(Runs(init), debounce));
      MergedAppend(init, o, debounce);
    }
  }

  lemma NothingTraced(debounce: int)
    ensures Traced([], debounce, [], MergeAll(Runs([]), debounce))
  {
  }

  lemma ReportRead(s: seq<Observation>, gaps: set<GapInterval>, sp: Span, iv: Interval)
    requires Bounded(s, sp) && IntervalRead(s, sp, iv)
    ensures AlarmRead(s, gaps, sp, Report(iv, gaps))
  {
    var first, last := s[sp.from], s[sp.to];
    if gap :| gap in gaps && gap.start < last.time && gap.end > first.time {
      assert gap.Overlaps(iv.start, iv.end);
    }
  }

  /** Every event, from the observations in order: there are spans of observations that
      hold all active ones, and each event is what its span says. */
  lemma EventsRead(observations: seq<Observation>, debounce: int, gaps: set<GapInterval>) returns (spans: seq<Span>)
    ensures var s, events := Sort(observations, ObservedLe), Events(observations, debounce, gaps);
            && Spanned(s, debounce, spans)
            && |spans| == |events|
            && forall i :: 0 <= i < |events| ==> AlarmRead(s, gaps, spans[i], events[i])
  {
    hide Runs, MergeAll, Sort, Report, AlarmRead, ReportAll, Bridged, WithinDebounce, InSome;
    var s := Sort(observations, ObservedLe);
    var merged := MergeAll(Runs(s), debounce);
    spans := MergedTraced(s, debounce);
    forall i | 0 <= i < |merged|
      ensures Bounded(s, spans[i])
      ensures AlarmRead(s, gaps, spans[i], Events(observations, debounce, gaps)[i])
    {
      ReportAt(merged, gaps, i);
      assert Bounded(s, spans[i]) && IntervalRead(s, spans[i], merged[i]);
      ReportRead(s, gaps, spans[i], merged[i]);
    }
  }

  /** The observations in order: by time, and at one time by sequence. */
  lemma ObservationsInOrder(observations: seq<Observation>, i: nat, j: nat)
    requires i < j < |observations|
    ensures var s := Sort(observations, ObservedLe);
            && multiset(s) == multiset(observations)
            && (s[i].time < s[j].time || (s[i].time == s[j].time && s[i].sequence <= s[j].sequence))
  {
    hide Sort;
    assert TotalPreorder(ObservedLe);
    SortAscends(observations, ObservedLe);
    assert ObservedLe(Sort(observations, ObservedLe)[i], Sort(observations, ObservedLe)[j]);
  }
}
