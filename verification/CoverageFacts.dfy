/** What each figure of a charger-day says of the contributions and the policy, field by
    field. */
module CoverageFacts {
  import opened Sorting
  import opened FrameModels
  import opened Instants
  import opened Rounding
  import opened Cadence
  import opened Coverage
  import opened CoverageLaws

  // ----- the day's stamps

  lemma {:induction false} DayStampsAre(items: seq<Contribution>, dayStart: int, dayEnd: int, t: int)
    ensures t in DayStamps(items, dayStart, dayEnd)
            <==> dayStart <= t < dayEnd && exists i :: 0 <= i < |items| && t in items[i].stamps
  {
    if items != [] {
      var init, last := items[..|items| - 1], items[|items| - 1];
      DayStampsAre(init, dayStart, dayEnd, t);
      assert forall i :: 0 <= i < |init| ==> init[i] == items[i];
    }
  }

  lemma {:induction false} SuppliersPositive(items: seq<Contribution>, dayStart: int, dayEnd: int, t: int)
    requires dayStart <= t < dayEnd
    ensures Suppliers(items, dayStart, dayEnd, t) > 0 <==> exists i :: 0 <= i < |items| && t in items[i].stamps
  {
    if items != [] {
      var init := items[..|items| - 1];
      SuppliersPositive(init, dayStart, dayEnd, t);
      assert forall i :: 0 <= i < |init| ==> init[i] == items[i];
    }
  }

  ghost predicate TwoSupply(items: seq<Contribution>, t: int) {
    exists i, j :: 0 <= i < j < |items| && t in items[i].stamps && t in items[j].stamps
  }

  lemma TwoSupplyPush(init: seq<Contribution>, last: Contribution, t: int)
    ensures TwoSupply(init + [last], t)
            <==> TwoSupply(init, t) || (t in last.stamps && exists i :: 0 <= i < |init| && t in init[i].stamps)
  {
    var items := init + [last];
    assert items[|init|] == last;
    assert forall i :: 0 <= i < |init| ==> items[i] == init[i];
  }

  lemma {:induction false} SuppliersMany(items: seq<Contribution>, dayStart: int, dayEnd: int, t: int)
    requires dayStart <= t < dayEnd
    ensures Suppliers(items, dayStart, dayEnd, t) > 1 <==> TwoSupply(items, t)
  {
    hide TwoSupply;
    if items == [] {
      NoneSupply(t);
    } else {
      var init, last := items[..|items| - 1], items[|items| - 1];
      assert items == init + [last];
      SuppliersMany(init, dayStart, dayEnd, t);
      SuppliersPositive(init, dayStart, dayEnd, t);
      TwoSupplyPush(init, last, t);
    }
  }

  lemma NoneSupply(t: int)
    ensures !TwoSupply([], t)
  {
  }

  /** The overlap holds the instants of the day that two contributions list. */
  lemma OverlapReads(items: seq<Contribution>, dayStart: int, dayEnd: int, t: int)
    ensures t in Overlapping(items, dayStart, dayEnd) <==> dayStart <= t < dayEnd && TwoSupply(items, t)
  {
    hide DayStamps, Suppliers;
    DayStampsAre(items, dayStart, dayEnd, t);
    if dayStart <= t < dayEnd {
      SuppliersMany(items, dayStart, dayEnd, t);
      if TwoSupply(items, t) {
        var i, j :| 0 <= i < j < |items| && t in items[i].stamps && t in items[j].stamps;
      }
    }
  }

  // ----- what the contributions report

  lemma {:induction false} FilesWithRepeats(items: seq<Contribution>)
    ensures ReportedBy(items).duplicateFiles == |RepeatIndices(items)|
  {
    hide RepeatIndices;
    if items == [] {
      NoRepeats();
    } else {
      var init, last := items[..|items| - 1], items[|items| - 1];
      assert items == init + [last];
      FilesWithRepeats(init);
      RepeatsPush(init, last);
    }
  }

  function RepeatIndices(items: seq<Contribution>): set<nat> {
    set i: nat | i < |items| && items[i].exactDuplicateRows > 0
  }

  lemma NoRepeats()
    ensures RepeatIndices([]) == {}
  {
  }

  lemma RepeatsPush(init: seq<Contribution>, last: Contribution)
    ensures |RepeatIndices(init + [last])| == |RepeatIndices(init)| + if last.exactDuplicateRows > 0 then 1 else 0
  {
    var items := init + [last];
    assert items[|init|] == last;
    assert forall i :: 0 <= i < |init| ==> items[i] == init[i];
    assert RepeatIndices(items) == RepeatIndices(init) + if last.exactDuplicateRows > 0 then {|init|} else {};
    assert |init| !in RepeatIndices(init);
  }

  /** A receipt time or score is among those reported exactly when some contribution
      has it. */
  lemma {:induction false} ReceiptsReported(items: seq<Contribution>, t: int)
    ensures t in ReportedBy(items).received <==> exists i :: 0 <= i < |items| && items[i].received == Some(t)
  {
    if items != [] {
      var init := items[..|items| - 1];
      ReceiptsReported(init, t);
      assert forall i :: 0 <= i < |init| ==> init[i] == items[i];
    }
  }

  /** The first receipt is the earliest of any contribution. */
  lemma FirstReceiptReads(items: seq<Contribution>)
    ensures var r := Earliest(ReportedBy(items).received);
            && (r.None? <==> forall i :: 0 <= i < |items| ==> items[i].received.None?)
            && (r.Some? ==>
                  && (exists i :: 0 <= i < |items| && items[i].received == r)
                  && forall i :: 0 <= i < |items| && items[i].received.Some? ==> r.value <= items[i].received.value)
  {
    hide ReportedBy;
    var times := ReportedBy(items).received;
    forall t
      ensures t in times <==> exists i :: 0 <= i < |items| && items[i].received == Some(t)
    {
      ReceiptsReported(items, t);
    }
    forall i | 0 <= i < |items| && items[i].received.Some?
      ensures items[i].received.value in times
    {
    }
    if times != [] {
      assert times[0] in times;
    }
  }

  /** The mean score times the number of scores is their sum. */
  lemma MeanReads(scores: seq<real>)
    ensures Mean(scores).None? <==> scores == []
    ensures scores != [] ==> Mean(scores).value * |scores| as real == Total(scores)
  {
  }

  // ----- figures of the day

  /** As many samples are expected as whole intervals fit in the day, but at least one; an
      interval below one second counts as one. */
  lemma ExpectedReads(policy: Policy)
    ensures var n := ExpectedCount(policy);
            var interval := if policy.expectedInterval > 1 then policy.expectedInterval else 1;
            && (policy.daySeconds < interval ==> n == 1)
            && (policy.daySeconds >= interval ==> n * interval <= policy.daySeconds < (n + 1) * interval)
  {
    var interval := if policy.expectedInterval > 1 then policy.expectedInterval else 1;
    var q := policy.daySeconds / interval;
    assert policy.daySeconds == q * interval + policy.daySeconds % interval;
    assert (q + 1) * interval == q * interval + interval;
    QuotientSign(policy.daySeconds, interval);
  }

  lemma QuotientSign(x: int, unit: int)
    requires unit > 0
    ensures x < unit <==> x / unit < 1
    ensures x < 2 * unit <==> x / unit < 2
  {
    if x >= unit {
      QuotientGrows(unit, x, unit);
    } else {
      var q := x / unit;
      assert x == q * unit + x % unit;
      ProductOrder(1, q, unit);
    }
    if x >= 2 * unit {
      QuotientGrows(2 * unit, x, unit);
      TwiceQuotient(unit);
    } else {
      var q := x / unit;
      assert x == q * unit + x % unit;
      ProductOrder(2, q, unit);
    }
  }

  lemma TwiceQuotient(unit: int)
    requires unit > 0
    ensures (2 * unit) / unit == 2
  {
  }

  /** Whole seconds of a stretch of time, cut off towards the past. */
  predicate WholeSecondsOf(seconds: int, micros: int) {
    seconds * MICROS <= micros < (seconds + 1) * MICROS
  }

  /** First and last stamp, and the whole seconds between and around them. */
  lemma SpanReads(policy: Policy, dayStart: int, dayEnd: int, d: set<int>)
    requires policy.daySeconds != 0
    requires forall t :: t in d ==> dayStart <= t < dayEnd
    ensures var n := Numbers(policy, dayStart, dayEnd, Sorted(d));
            && n.uniqueCount == |d|
            && (d == {} ==> n.first.None? && n.last.None? && n.spanSeconds == n.leading == n.trailing == 0)
            && (d != {} ==>
                  && n.first.Some? && n.first.value in d && (forall t :: t in d ==> n.first.value <= t)
                  && n.last.Some? && n.last.value in d && (forall t :: t in d ==> t <= n.last.value)
                  && WholeSecondsOf(n.spanSeconds, n.last.value - n.first.value)
                  && WholeSecondsOf(n.leading, n.first.value - dayStart)
                  && WholeSecondsOf(n.trailing, dayEnd - n.last.value))
  {
    hide Gaps, TotalGap, LargestGap, SampleCoverage, SpanCoverage, GapAdjusted, ClassifyCompleteness, ExpectedCount;
    if d != {} {
      SortedEnds(d);
    }
  }

  /** A percentage of a whole, capped at one hundred. */
  predicate PercentOf(pct: real, part: int, whole: int) {
    if part >= whole then pct == 100.0 else pct * whole as real == 100.0 * part as real
  }

  lemma CappedPercent(part: int, whole: int)
    requires whole > 0
    ensures PercentOf(CapPct(100.0 * part as real / whole as real), part, whole)
  {
    var a, e := 100.0 * part as real, whole as real;
    QuotientOrder(100.0 * e, a, e);
    QuotientOrder(a, 100.0 * e, e);
    assert (a / e) * e == a;
    assert 100.0 * e / e == 100.0;
  }

  /** The three coverages are percentages of the day, or of the expected count. */
  lemma CoveragesRead(policy: Policy, dayStart: int, dayEnd: int, stamps: seq<int>)
    requires policy.daySeconds > 0 && Increasing(stamps)
    ensures var n := Numbers(policy, dayStart, dayEnd, stamps);
            && PercentOf(n.spanCoverage, n.spanSeconds, policy.daySeconds)
            && PercentOf(n.gapAdjusted, n.spanSeconds - n.totalGap, policy.daySeconds)
            && PercentOf(n.sampleCoverage, n.uniqueCount, n.expectedCount)
  {
    hide Gaps, TotalGap, LargestGap, SpanSeconds, ClassifyCompleteness, ExpectedCount, CapPct, PercentOf, GapSeconds;
    TotalGapIs(policy, stamps);
    GapWithinSpan(policy, stamps);
    CappedPercent(SpanSeconds(stamps), policy.daySeconds);
    var kept := SpanSeconds(stamps) - TotalGap(Gaps(policy, stamps));
    CappedPercent(kept, policy.daySeconds);
    Percents(kept, kept, policy.daySeconds);
    assert 100.0 * kept as real / policy.daySeconds as real >= 0.0;
    CappedPercent(|stamps|, ExpectedCount(policy));
  }

  // ----- gaps

  /** What a reported gap says of the two stamps it lies between. */
  ghost predicate GapReads(policy: Policy, gap: Gap, earlier: int, later: int) {
    var micros := later - earlier;
    && gap.start == earlier && gap.end == later
    && WholeSecondsOf(gap.seconds, micros)
    && (gap.severity == CRITICAL <==> micros >= policy.critical * MICROS)
    && (gap.severity == MAJOR <==> policy.major * MICROS <= micros < policy.critical * MICROS)
    && (gap.severity == MODERATE
        <==> policy.moderate * MICROS <= micros < policy.critical * MICROS && micros < policy.major * MICROS)
    && (gap.severity == MINOR <==> micros < policy.moderate * MICROS && micros < policy.major * MICROS
                                   && micros < policy.critical * MICROS)
    && (gap.missing > 0 <==> policy.expectedInterval > 0 && micros >= 2 * (policy.expectedInterval * MICROS))
    && (gap.missing > 0 ==>
          var unit := policy.expectedInterval * MICROS;
          (gap.missing + 1) * unit <= micros < (gap.missing + 2) * unit)
  }

  lemma MadeGapReads(policy: Policy, earlier: int, later: int)
    ensures GapReads(policy, MakeGap(policy, earlier, later), earlier, later)
  {
    var micros := later - earlier;
    if policy.expectedInterval > 0 {
      var unit := policy.expectedInterval * MICROS;
      var q := micros / unit;
      assert micros == q * unit + micros % unit;
      assert (q + 1) * unit == q * unit + unit;
      QuotientSign(micros, unit);
    }
  }

  /** The list of gaps is read off the consecutive stamps that lie too far apart, in
      order: `at` names the earlier stamp of each. */
  ghost predicate GapsAt(policy: Policy, stamps: seq<int>, gaps: seq<Gap>, at: seq<nat>) {
    && |at| == |gaps|
    && (forall k :: 0 <= k < |at| ==>
          at[k] + 1 < |stamps| && GapReads(policy, gaps[k], stamps[at[k]], stamps[at[k] + 1]))
    && (forall j, k :: 0 <= j < k < |at| ==> at[j] < at[k])
    && forall i: nat :: i in at <==> TooFar(policy, stamps, i)
  }

  /** The next stamp comes later than the expected interval times the multiplier. */
  ghost predicate TooFar(policy: Policy, stamps: seq<int>, i: nat) {
    && i + 1 < |stamps|
    && (stamps[i + 1] - stamps[i]) as real
       > policy.expectedInterval as real * policy.gapMultiplier * 1_000_000.0
  }

  lemma TooFarPrefix(policy: Policy, stamps: seq<int>, n: nat, i: nat)
    requires n <= |stamps|
    ensures TooFar(policy, stamps[..n], i) <==> TooFar(policy, stamps, i) && i + 1 < n
  {
    if i + 1 < n {
      assert stamps[..n][i] == stamps[i] && stamps[..n][i + 1] == stamps[i + 1];
    }
  }

  lemma TooFarIsGap(policy: Policy, stamps: seq<int>, n: nat)
    requires n + 1 < |stamps|
    ensures TooFar(policy, stamps, n) <==> IsGap(policy, stamps[n + 1] - stamps[n])
  {
  }

  /** Reading off one more pair of stamps. */
  lemma GapsAtPush(policy: Policy, stamps: seq<int>, gaps: seq<Gap>, at: seq<nat>, last: seq<Gap>)
    requires |stamps| >= 2
    requires GapsAt(policy, stamps[..|stamps| - 1], gaps, at)
    requires var n := |stamps| - 1;
             if TooFar(policy, stamps, n - 1)
             then |last| == 1 && GapReads(policy, last[0], stamps[n - 1], stamps[n])
             else last == []
    ensures GapsAt(policy, stamps, gaps + last, at + if last == [] then [] else [|stamps| - 2])
  {
    hide GapReads, TooFar;
    var n, prefix := |stamps| - 1, stamps[..|stamps| - 1];
    var all, places := gaps + last, at + if last == [] then [] else [n - 1];
    forall k | 0 <= k < |places|
      ensures places[k] + 1 < |stamps| && GapReads(policy, all[k], stamps[places[k]], stamps[places[k] + 1])
    {
      if k < |at| {
        assert places[k] == at[k] && all[k] == gaps[k] && at[k] + 1 < n;
        assert prefix[at[k]] == stamps[at[k]] && prefix[at[k] + 1] == stamps[at[k] + 1];
      }
    }
    forall i: nat
      ensures i in places <==> TooFar(policy, stamps, i)
    {
      TooFarPrefix(policy, stamps, n, i);
      TooFarInRange(policy, stamps, i);
      assert i in at <==> TooFar(policy, prefix, i);
    }
  }

  /** Every gap reported lies between consecutive stamps too far apart, and every such
      pair is reported. */
  lemma {:induction false} GapsRead(policy: Policy, stamps: seq<int>) returns (at: seq<nat>)
    ensures GapsAt(policy, stamps, Gaps(policy, stamps), at)
  {
    hide GapReads, TooFar, IsGap, MakeGap, GapsAt;
    if |stamps| < 2 {
      at := [];
      NoneAt(policy, stamps);
    } else {
      var n := |stamps| - 1;
      at := GapsRead(policy, stamps[..n]);
      TooFarIsGap(policy, stamps, n - 1);
      MadeGapReads(policy, stamps[n - 1], stamps[n]);
      var last := if IsGap(policy, stamps[n] - stamps[n - 1]) then [MakeGap(policy, stamps[n - 1], stamps[n])] else [];
      GapsAtPush(policy, stamps, Gaps(policy, stamps[..n]), at, last);
      at := at + if last == [] then [] else [n - 1];
    }
  }

  lemma TooFarInRange(policy: Policy, stamps: seq<int>, i: nat)
    ensures TooFar(policy, stamps, i) ==> i + 1 < |stamps|
  {
  }

  lemma NoneAt(policy: Policy, stamps: seq<int>)
    requires |stamps| < 2
    ensures GapsAt(policy, stamps, [], [])
  {
  }

  /** Total gap time is the sum of the gaps' seconds. */
  lemma TotalGapReads(gaps: seq<Gap>, more: seq<Gap>)
    ensures TotalGap([]) == 0
    ensures forall gap :: TotalGap([gap]) == gap.seconds
    ensures TotalGap(gaps + more) == TotalGap(gaps) + TotalGap(more)
  {
    forall gap
      ensures TotalGap([gap]) == gap.seconds
    {
      TotalGapAppend([], gap);
      assert [] + [gap] == [gap];
    }
    TotalGapConcat(gaps, more);
  }

  lemma {:induction false} TotalGapConcat(gaps: seq<Gap>, more: seq<Gap>)
    ensures TotalGap(gaps + more) == TotalGap(gaps) + TotalGap(more)
  {
    if more == [] {
      assert gaps + more == gaps;
    } else {
      var init, last := more[..|more| - 1], more[|more| - 1];
      TotalGapConcat(gaps, init);
      TotalGapAppend(gaps + init, last);
      assert gaps + more == (gaps + init) + [last];
    }
  }

  // ----- cadence

  /** The statistics, read off the intervals in ascending order. */
  ghost predicate StatsRead(stats: IntervalStats, ordered: seq<int>) {
    var n := |ordered|;
    && n > 0
    && stats.least == ordered[0] && stats.most == ordered[n - 1]
    && 2.0 * stats.median == (ordered[(n - 1) / 2] + ordered[n / 2]) as real
    && exists k: nat :: k < n && stats.p95 == ordered[k] && NearestRank(k, n)
  }

  /** The whole number nearest to 0.95 (n - 1), the even one of two. */
  predicate NearestRank(k: nat, n: nat) {
    var twentieths := 20 * k - 19 * (n - 1);
    -10 <= twentieths <= 10 && (twentieths == 10 || twentieths == -10 ==> k % 2 == 0)
  }

  /** A day's interval statistics describe its intervals, rearranged in order. */
  lemma StatsOfDay(stamps: seq<int>) returns (ordered: seq<int>)
    requires Increasing(stamps) && |stamps| >= 2
    ensures multiset(ordered) == multiset(Steps(stamps))
    ensures forall i, j :: 0 <= i < j < |ordered| ==> ordered[i] <= ordered[j]
    ensures StatsOf(stamps).Some? && StatsRead(StatsOf(stamps).value, ordered)
  {
    hide Sort, Select, Steps, Positive;
    AllPositive(stamps);
    ordered := Sort(Steps(stamps), Shorter);
    SortedAscends(Steps(stamps));
    forall i, j | 0 <= i < j < |ordered|
      ensures ordered[i] <= ordered[j]
    {
      AscendingAt(ordered, i, j);
    }
    var n := |ordered|;
    RankIsNearest(n);
    assert NearestRank(P95Index(n), n);
  }

  lemma RankIsNearest(n: nat)
    requires n > 0
    ensures NearestRank(P95Index(n), n)
  {
  }

  /** The cadence is abnormal exactly when the median interval differs from the expected
      one by more than the tolerated share of it. */
  lemma CadenceReads(policy: Policy, stats: IntervalStats)
    ensures CadenceAbnormal(policy, Some(stats))
            <==> var expected := policy.expectedInterval as real * 1_000_000.0;
                 && policy.expectedInterval > 0
                 && (|| expected - stats.median > expected * policy.tolerance
                     || stats.median - expected > expected * policy.tolerance)
    ensures !CadenceAbnormal(policy, None)
  {
    var e, t := policy.expectedInterval as real, policy.tolerance;
    assert (e * 1_000_000.0) * t == (e * t) * 1_000_000.0;
    assert e * (1.0 - t) == e - e * t && e * (1.0 + t) == e + e * t;
  }
}
