/** Coverage never falls when telemetry is added, and the day's seconds add up. */
module CoverageLaws {
  import opened Sorting
  import opened Instants
  import opened Rounding
  import opened Cadence
  import opened Coverage

  // ----- gap time along a sequence

  /** Gap time between two consecutive stamps. */
  function StepGap(policy: Policy, a: int, b: int): int {
    if IsGap(policy, b - a) then (b - a) / MICROS else 0
  }

  function GapSeconds(policy: Policy, stamps: seq<int>): int {
    if |stamps| < 2 then 0
    else
      var n := |stamps| - 1;
      GapSeconds(policy, stamps[..n]) + StepGap(policy, stamps[n - 1], stamps[n])
  }

  lemma {:induction false} TotalGapIs(policy: Policy, stamps: seq<int>)
    ensures TotalGap(Gaps(policy, stamps)) == GapSeconds(policy, stamps)
  {
    hide IsGap, ClassifyGap, MissingSamples;
    if |stamps| >= 2 {
      var n := |stamps| - 1;
      TotalGapIs(policy, stamps[..n]);
      TotalGapAppend(Gaps(policy, stamps[..n]), MakeGap(policy, stamps[n - 1], stamps[n]));
    }
  }

  lemma TotalGapAppend(gaps: seq<Gap>, gap: Gap)
    ensures TotalGap(gaps + [gap]) == TotalGap(gaps) + gap.seconds
    ensures gaps + [] == gaps
  {
    assert (gaps + [gap])[..|gaps|] == gaps;
  }

  lemma {:induction false} GapConcat(policy: Policy, a: seq<int>, b: seq<int>)
    requires a != [] && b != []
    ensures GapSeconds(policy, a + b)
            == GapSeconds(policy, a) + StepGap(policy, a[|a| - 1], b[0]) + GapSeconds(policy, b)
  {
    hide StepGap;
    var s, n := a + b, |a + b| - 1;
    if |b| == 1 {
      assert s[..n] == a;
    } else {
      assert s[..n] == a + b[..|b| - 1];
      GapConcat(policy, a, b[..|b| - 1]);
    }
  }

  /** Seconds between first and last stamp that no gap swallows. */
  function KeptSeconds(policy: Policy, stamps: seq<int>): int {
    SpanSeconds(stamps) - GapSeconds(policy, stamps)
  }

  lemma FloorsAdd(a: int, b: int)
    ensures a / MICROS + b / MICROS <= (a + b) / MICROS
  {
  }

  lemma StepBound(policy: Policy, a: int, b: int)
    requires a < b
    ensures 0 <= StepGap(policy, a, b) <= (b - a) / MICROS
  {
    hide IsGap;
  }

  /** A stamp inside an interval can only shrink the gap time there. */
  lemma StepSplits(policy: Policy, a: int, x: int, b: int)
    requires a < x < b
    ensures StepGap(policy, a, x) + StepGap(policy, x, b) <= StepGap(policy, a, b)
  {
    FloorsAdd(x - a, b - x);
  }

  lemma AppendKeeps(policy: Policy, a: seq<int>, x: int)
    requires a != [] && a[0] <= a[|a| - 1] < x
    ensures KeptSeconds(policy, a) <= KeptSeconds(policy, a + [x])
  {
    hide StepGap;
    GapConcat(policy, a, [x]);
    StepBound(policy, a[|a| - 1], x);
    FloorsAdd(a[|a| - 1] - a[0], x - a[|a| - 1]);
  }

  lemma PrependKeeps(policy: Policy, x: int, b: seq<int>)
    requires b != [] && x < b[0] <= b[|b| - 1]
    ensures KeptSeconds(policy, b) <= KeptSeconds(policy, [x] + b)
  {
    hide StepGap;
    GapConcat(policy, [x], b);
    StepBound(policy, x, b[0]);
    FloorsAdd(b[0] - x, b[|b| - 1] - b[0]);
  }

  lemma MiddleKeeps(policy: Policy, a: seq<int>, x: int, b: seq<int>)
    requires a != [] && b != [] && a[|a| - 1] < x < b[0]
    ensures KeptSeconds(policy, a + b) <= KeptSeconds(policy, a + [x] + b)
  {
    hide StepGap;
    GapConcat(policy, a, b);
    GapConcat(policy, a + [x], b);
    GapConcat(policy, a, [x]);
    StepSplits(policy, a[|a| - 1], x, b[0]);
    assert (a + [x] + b)[0] == a[0] && (a + b)[0] == a[0];
    assert (a + [x] + b)[|a| + |b|] == b[|b| - 1] && (a + b)[|a| + |b| - 1] == b[|b| - 1];
  }

  /** Inserting one stamp anywhere never lowers the kept seconds. */
  lemma InsertKeeps(policy: Policy, a: seq<int>, x: int, b: seq<int>)
    requires Increasing(a + [x] + b)
    ensures KeptSeconds(policy, a + b) <= KeptSeconds(policy, a + [x] + b)
  {
    var s := a + [x] + b;
    assert s[|a|] == x;
    assert a != [] ==> s[0] == a[0] && s[|a| - 1] == a[|a| - 1];
    assert b != [] ==> s[|a| + 1] == b[0] && s[|a| + |b|] == b[|b| - 1];
    if a == [] && b == [] {
      assert a + b == [] && s == [x];
    } else if b == [] {
      hide KeptSeconds;
      assert a + b == a && s == a + [x];
      AppendKeeps(policy, a, x);
    } else if a == [] {
      hide KeptSeconds;
      assert a + b == b && s == [x] + b;
      PrependKeeps(policy, x, b);
    } else {
      hide KeptSeconds;
      MiddleKeeps(policy, a, x, b);
    }
  }

  function SeverityRank(s: Severity): nat {
    match s
    case MINOR => 0
    case MODERATE => 1
    case MAJOR => 2
    case CRITICAL => 3
  }

  /** A longer interval is never judged milder and never misses fewer samples, whatever
      order the thresholds are in. */
  lemma LongerGapsNoMilder(policy: Policy, x: int, y: int)
    requires x <= y
    ensures SeverityRank(ClassifyGap(policy, x)) <= SeverityRank(ClassifyGap(policy, y))
    ensures MissingSamples(policy, x) <= MissingSamples(policy, y)
    ensures IsGap(policy, x) ==> IsGap(policy, y)
  {
    if policy.expectedInterval > 0 {
      QuotientGrows(x, y, policy.expectedInterval * MICROS);
    }
  }

  lemma QuotientGrows(x: int, y: int, unit: int)
    requires x <= y && unit > 0
    ensures x / unit <= y / unit
  {
    var q, r := x / unit, y / unit;
    assert x == q * unit + x % unit && y == r * unit + y % unit;
    ProductOrder(r + 1, q, unit);
  }

  lemma ProductOrder(a: int, b: int, unit: int)
    requires unit > 0
    ensures a <= b ==> a * unit <= b * unit
  {
  }

  // ----- from sequences to sets

  lemma {:induction false} SplitPoint(s: seq<int>, x: int) returns (k: nat)
    requires Increasing(s) && x !in s
    ensures k <= |s|
    ensures (forall i :: 0 <= i < k ==> s[i] < x) && (forall i :: k <= i < |s| ==> x < s[i])
  {
    k := |s|;
    while k > 0 && s[k - 1] > x
      invariant k <= |s|
      invariant forall i :: k <= i < |s| ==> x < s[i]
    {
      k := k - 1;
    }
    if k > 0 {
      assert s[k - 1] in s;
    }
  }

  lemma SplicedAscends(s: seq<int>, x: int, k: nat)
    requires Increasing(s) && k <= |s|
    requires (forall i :: 0 <= i < k ==> s[i] < x) && (forall i :: k <= i < |s| ==> x < s[i])
    ensures var t := s[..k] + [x] + s[k..];
            Ascending(t, Earlier) && Distinct(t) && forall y :: y in t <==> y in s || y == x
  {
    var t := s[..k] + [x] + s[k..];
    forall i, j | 0 <= i < j < |t|
      ensures t[i] < t[j]
    {
      assert t[i] == if i < k then s[i] else if i == k then x else s[i - 1];
      assert t[j] == if j < k then s[j] else if j == k then x else s[j - 1];
    }
    forall y
      ensures y in t <==> y in s || y == x
    {
      assert s == s[..k] + s[k..];
      assert y in s <==> y in s[..k] || y in s[k..];
    }
  }

  lemma SortedInsert(stamps: set<int>, x: int) returns (k: nat)
    requires x !in stamps
    ensures k <= |Sorted(stamps)|
    ensures Sorted(stamps + {x}) == Sorted(stamps)[..k] + [x] + Sorted(stamps)[k..]
  {
    hide Sorted;
    var s, r := Sorted(stamps), Sorted(stamps + {x});
    SortedIncreases(stamps);
    k := SplitPoint(s, x);
    SplicedAscends(s, x, k);
    AscendingUnique(s[..k] + [x] + s[k..], r, Earlier);
  }

  lemma AddOneStamp(policy: Policy, stamps: set<int>, x: int)
    requires x !in stamps
    ensures KeptSeconds(policy, Sorted(stamps)) <= KeptSeconds(policy, Sorted(stamps + {x}))
  {
    hide *;
    var k := SortedInsert(stamps, x);
    var s := Sorted(stamps);
    assert s == s[..k] + s[k..];
    SortedIncreases(stamps + {x});
    InsertKeeps(policy, s[..k], x, s[k..]);
  }

  /** More stamps, at least as many kept seconds. */
  lemma {:induction false} MoreStampsKeepMore(policy: Policy, a: set<int>, b: set<int>)
    requires a <= b
    ensures |a| <= |b|
    ensures KeptSeconds(policy, Sorted(a)) <= KeptSeconds(policy, Sorted(b))
    decreases b - a
  {
    hide KeptSeconds;
    if a != b {
      var x := PickBeyond(a, b);
      assert a + {x} <= b;
      assert b - (a + {x}) < b - a;
      AddOneStamp(policy, a, x);
      MoreStampsKeepMore(policy, a + {x}, b);
    }
  }

  function Rank(c: Completeness): nat {
    match c
    case NO_DATA => 0
    case SEVERELY_INCOMPLETE_DAY => 1
    case PARTIAL_DAY => 2
    case COMPLETE_DAY => 3
  }

  lemma PercentMonotone(x: int, y: int, d: int)
    requires x <= y && d > 0
    ensures 100.0 * x as real / d as real <= 100.0 * y as real / d as real
  {
    DivideMonotone(100.0 * x as real, 100.0 * y as real, d as real);
  }

  lemma {:induction false} GapWithinSpan(policy: Policy, stamps: seq<int>)
    requires Increasing(stamps)
    ensures KeptSeconds(policy, stamps) >= 0
  {
    hide StepGap;
    if |stamps| >= 2 {
      var n := |stamps| - 1;
      GapWithinSpan(policy, stamps[..n]);
      assert stamps[..n] + [stamps[n]] == stamps;
      AppendKeeps(policy, stamps[..n], stamps[n]);
    }
  }

  lemma AdjustedMonotone(policy: Policy, x: int, y: int)
    requires policy.daySeconds != 0 && 0 <= x <= y
    ensures GapAdjusted(policy, x) <= GapAdjusted(policy, y)
  {
    if policy.daySeconds > 0 {
      PercentMonotone(x, y, policy.daySeconds);
    } else {
      NotPositive(100.0 * x as real, policy.daySeconds as real);
    }
  }

  lemma NotPositive(x: real, d: real)
    requires x >= 0.0 && d < 0.0
    ensures x / d <= 0.0
  {
    var r := x / d;
    assert r * d == x;
    SignOfQuotient(r, d);
  }

  lemma SignOfQuotient(r: real, d: real)
    requires d < 0.0
    ensures r > 0.0 ==> r * d < 0.0
  {
  }

  lemma DivideMonotone(x: real, y: real, d: real)
    requires x <= y && d > 0.0
    ensures x / d <= y / d
  {
    assert y / d - x / d == (y - x) / d;
  }

  lemma SpanGrows(a: set<int>, b: set<int>)
    requires a <= b
    ensures 0 <= SpanSeconds(Sorted(a)) <= SpanSeconds(Sorted(b))
  {
    hide Sorted;
    var s, t := Sorted(a), Sorted(b);
    SortedIncreases(a);
    SortedIncreases(b);
    if s != [] {
      var m, n := |s| - 1, |t| - 1;
      assert s[0] in b && s[m] in b;
      var i :| 0 <= i < |t| && t[i] == s[0];
      var j :| 0 <= j < |t| && t[j] == s[m];
      assert t[0] <= s[0] <= s[m] <= t[n];
    }
  }

  lemma SpanMonotone(policy: Policy, x: int, y: int)
    requires policy.daySeconds != 0 && 0 <= x <= y
    ensures policy.daySeconds > 0 ==> SpanCoverage(policy, x) <= SpanCoverage(policy, y)
  {
    if policy.daySeconds > 0 {
      PercentMonotone(x, y, policy.daySeconds);
    }
  }

  lemma NumbersMonotone(policy: Policy, dayStart: int, dayEnd: int, a: set<int>, b: set<int>)
    requires policy.daySeconds != 0 && a <= b
    ensures var before := Numbers(policy, dayStart, dayEnd, Sorted(a));
            var after := Numbers(policy, dayStart, dayEnd, Sorted(b));
            && before.uniqueCount <= after.uniqueCount
            && before.sampleCoverage <= after.sampleCoverage
            && before.gapAdjusted <= after.gapAdjusted
            && (policy.daySeconds > 0 ==> before.spanCoverage <= after.spanCoverage)
            && Rank(before.completeness) <= Rank(after.completeness)
  {
    hide Gaps, LargestGap, TotalGap, Sorted, GapAdjusted, SpanCoverage, GapSeconds, ExpectedCount, SpanSeconds;
    MoreStampsKeepMore(policy, a, b);
    TotalGapIs(policy, Sorted(a));
    TotalGapIs(policy, Sorted(b));
    PercentMonotone(|a|, |b|, ExpectedCount(policy));
    SortedIncreases(a);
    GapWithinSpan(policy, Sorted(a));
    AdjustedMonotone(policy, KeptSeconds(policy, Sorted(a)), KeptSeconds(policy, Sorted(b)));
    SpanGrows(a, b);
    SpanMonotone(policy, SpanSeconds(Sorted(a)), SpanSeconds(Sorted(b)));
  }

  /** Adding a file to a charger-day never lowers the unique count, the sample
      coverage, the gap-adjusted coverage or the completeness verdict, nor the span
      coverage of a day of positive length. */
  lemma MoreFilesNeverLowerCoverage(
      policy: Policy, dayStart: int, dayEnd: int, items: seq<Contribution>, extra: Contribution)
    requires policy.daySeconds != 0
    ensures var before := Numbers(policy, dayStart, dayEnd, Sorted(DayStamps(items, dayStart, dayEnd)));
            var after := Numbers(policy, dayStart, dayEnd, Sorted(DayStamps(items + [extra], dayStart, dayEnd)));
            && before.uniqueCount <= after.uniqueCount
            && before.sampleCoverage <= after.sampleCoverage
            && before.gapAdjusted <= after.gapAdjusted
            && (policy.daySeconds > 0 ==> before.spanCoverage <= after.spanCoverage)
            && Rank(before.completeness) <= Rank(after.completeness)
  {
    hide Numbers, Sorted, Within, Suppliers, Rank;
    UnionAppend(items, extra, dayStart, dayEnd);
    NumbersMonotone(
      policy, dayStart, dayEnd, DayStamps(items, dayStart, dayEnd), DayStamps(items + [extra], dayStart, dayEnd));
  }

  /** The gap time between the end of the stamps and one outside their span. */
  function OuterStep(policy: Policy, a: seq<int>, x: int, b: seq<int>): int {
    if a != [] && b == [] then StepGap(policy, a[|a| - 1], x)
    else if a == [] && b != [] then StepGap(policy, x, b[0])
    else 0
  }

  lemma MiddleLowersGapTime(policy: Policy, a: seq<int>, x: int, b: seq<int>)
    requires a != [] && b != [] && a[|a| - 1] < x < b[0]
    ensures GapSeconds(policy, a + [x] + b) <= GapSeconds(policy, a + b)
  {
    hide StepGap;
    GapConcat(policy, a, b);
    GapConcat(policy, a + [x], b);
    GapConcat(policy, a, [x]);
    StepSplits(policy, a[|a| - 1], x, b[0]);
  }

  /** Total gap time, by contrast, is not monotone: one more stamp raises it exactly
      when it lies outside the span of the others, at a distance that is a gap of at
      least a second. */
  lemma GapTimeRisesIff(policy: Policy, a: seq<int>, x: int, b: seq<int>)
    requires Increasing(a + [x] + b)
    ensures GapSeconds(policy, a + [x] + b) > GapSeconds(policy, a + b)
            <==> OuterStep(policy, a, x, b) > 0
    ensures a == [] || b == []
            ==> GapSeconds(policy, a + [x] + b) == GapSeconds(policy, a + b) + OuterStep(policy, a, x, b)
  {
    hide StepGap;
    var s := a + [x] + b;
    assert s[|a|] == x;
    assert a != [] ==> s[|a| - 1] == a[|a| - 1];
    assert b != [] ==> s[|a| + 1] == b[0];
    if a == [] && b == [] {
      assert a + b == [] && s == [x];
    } else if b == [] {
      assert a + b == a && s == a + [x];
      GapConcat(policy, a, [x]);
    } else if a == [] {
      assert a + b == b && s == [x] + b;
      GapConcat(policy, [x], b);
    } else {
      MiddleLowersGapTime(policy, a, x, b);
    }
  }

  /** Such a stamp exists: a late lone sample opens a gap. */
  lemma GapTimeCanRise()
    ensures var policy := Policy(120, 86400, 3.0, 1800, 7200, 21600, 95.0, 50.0, 0.5);
            && GapSeconds(policy, [0]) == 0
            && GapSeconds(policy, [0, 1000 * MICROS]) == 1000
  {
    var policy := Policy(120, 86400, 3.0, 1800, 7200, 21600, 95.0, 50.0, 0.5);
    assert policy.ThresholdSeconds() == 360.0;
    assert [0, 1000 * MICROS][..1] == [0];
  }

  // ----- re-supplying and reordering

  /** Sending known stamps again changes no timestamp-derived number. */
  lemma ResupplyChangesNothing(items: seq<Contribution>, again: Contribution, dayStart: int, dayEnd: int)
    requires Within(again.stamps, dayStart, dayEnd) <= DayStamps(items, dayStart, dayEnd)
    ensures DayStamps(items + [again], dayStart, dayEnd) == DayStamps(items, dayStart, dayEnd)
    ensures Overlapping(items + [again], dayStart, dayEnd)
            == Overlapping(items, dayStart, dayEnd) + Within(again.stamps, dayStart, dayEnd)
  {
    hide Within;
    UnionAppend(items, again, dayStart, dayEnd);
    forall t | t in DayStamps(items, dayStart, dayEnd)
      ensures Suppliers(items, dayStart, dayEnd, t) > 0
    {
      SuppliedWhenPresent(items, dayStart, dayEnd, t);
    }
  }

  lemma {:induction false} SuppliedWhenPresent(items: seq<Contribution>, dayStart: int, dayEnd: int, t: int)
    ensures t in DayStamps(items, dayStart, dayEnd) <==> Suppliers(items, dayStart, dayEnd, t) > 0
  {
    hide Within;
    if items != [] {
      SuppliedWhenPresent(items[..|items| - 1], dayStart, dayEnd, t);
    }
  }

  lemma {:induction false} SuppliersConcat(
      a: seq<Contribution>, b: seq<Contribution>, dayStart: int, dayEnd: int, t: int)
    ensures Suppliers(a + b, dayStart, dayEnd, t)
            == Suppliers(a, dayStart, dayEnd, t) + Suppliers(b, dayStart, dayEnd, t)
  {
    hide Within;
    if b == [] {
      assert a + b == a;
    } else {
      assert (a + b)[..|a + b| - 1] == a + b[..|b| - 1];
      SuppliersConcat(a, b[..|b| - 1], dayStart, dayEnd, t);
    }
  }

  lemma {:induction false} PermutedSuppliers(
      items: seq<Contribution>, other: seq<Contribution>, dayStart: int, dayEnd: int, t: int)
    requires multiset(items) == multiset(other)
    ensures Suppliers(items, dayStart, dayEnd, t) == Suppliers(other, dayStart, dayEnd, t)
  {
    hide Suppliers;
    if items == [] {
      assert |multiset(other)| == 0;
      assert other == [];
    } else {
      var init, last := items[..|items| - 1], items[|items| - 1];
      assert items == init + [last];
      var a, b := TakeOut(items, other);
      PermutedSuppliers(init, a + b, dayStart, dayEnd, t);
      SuppliersConcat(init, [last], dayStart, dayEnd, t);
      SuppliersConcat(a + [last], b, dayStart, dayEnd, t);
      SuppliersConcat(a, [last], dayStart, dayEnd, t);
      SuppliersConcat(a, b, dayStart, dayEnd, t);
    }
  }

  /** The order in which files arrive changes nothing, not even the overlap. */
  lemma OrderChangesNothing(items: seq<Contribution>, other: seq<Contribution>, dayStart: int, dayEnd: int)
    requires multiset(items) == multiset(other)
    ensures DayStamps(items, dayStart, dayEnd) == DayStamps(other, dayStart, dayEnd)
    ensures Overlapping(items, dayStart, dayEnd) == Overlapping(other, dayStart, dayEnd)
  {
    hide Suppliers, DayStamps;
    forall t
      ensures Suppliers(items, dayStart, dayEnd, t) == Suppliers(other, dayStart, dayEnd, t)
    {
      PermutedSuppliers(items, other, dayStart, dayEnd, t);
    }
    var a, b := DayStamps(items, dayStart, dayEnd), DayStamps(other, dayStart, dayEnd);
    if a != b {
      var t := PickDifference(a, b);
      SuppliedWhenPresent(items, dayStart, dayEnd, t);
      SuppliedWhenPresent(other, dayStart, dayEnd, t);
    }
  }

  // ----- the day adds up

  /** Leading, span and trailing seconds make up the day exactly when the first and
      last samples fall on whole seconds; truncation loses less than two seconds. */
  lemma DayAddsUp(policy: Policy, dayStart: int, dayEnd: int, stamps: seq<int>)
    requires policy.daySeconds != 0 && stamps != []
    requires dayStart <= stamps[0] <= stamps[|stamps| - 1] < dayEnd
    requires (dayEnd - dayStart) % MICROS == 0
    ensures var n := Numbers(policy, dayStart, dayEnd, stamps);
            var day := (dayEnd - dayStart) / MICROS;
            && day - 2 <= n.leading + n.spanSeconds + n.trailing <= day
            && (n.leading + n.spanSeconds + n.trailing == day
                <==> (stamps[0] - dayStart) % MICROS == 0 && (stamps[|stamps| - 1] - dayStart) % MICROS == 0)
  {
    hide Gaps, LargestGap, TotalGap, SampleCoverage, SpanCoverage, GapAdjusted, ExpectedCount, ClassifyCompleteness;
    var lead, span, trail := stamps[0] - dayStart, stamps[|stamps| - 1] - stamps[0], dayEnd - stamps[|stamps| - 1];
    ThreeFloors(lead, span, trail);
    assert (lead + span) % MICROS == 0 && lead % MICROS == 0
      <==> lead % MICROS == 0 && span % MICROS == 0 && trail % MICROS == 0;
  }

  lemma ThreeFloors(a: int, b: int, c: int)
    requires a >= 0 && b >= 0 && c >= 0 && (a + b + c) % MICROS == 0
    ensures var day := (a + b + c) / MICROS;
            && day - 2 <= a / MICROS + b / MICROS + c / MICROS <= day
            && (a / MICROS + b / MICROS + c / MICROS == day <==> a % MICROS == 0 && b % MICROS == 0 && c % MICROS == 0)
  {
  }

  lemma BudgetStep(before: int, k: int, slack: int, t: real, d: int)
    requires before as real <= k as real * t + slack as real
    ensures (before + d) as real <= k as real * t + (slack + d) as real
    ensures d as real <= t ==> (before + d) as real <= (k + 1) as real * t + slack as real
  {
    assert (k + 1) as real * t == k as real * t + t;
  }

  /** Microseconds between first and last stamp, less the whole gap seconds. */
  function KeptMicros(policy: Policy, stamps: seq<int>): int
    requires stamps != []
  {
    stamps[|stamps| - 1] - stamps[0] - MICROS * GapSeconds(policy, stamps)
  }

  function QuietSteps(policy: Policy, stamps: seq<int>): int {
    |stamps| - 1 - |Gaps(policy, stamps)|
  }

  lemma LastStep(policy: Policy, stamps: seq<int>)
    requires |stamps| >= 2
    ensures var n := |stamps| - 1;
            var d := stamps[n] - stamps[n - 1];
            && KeptMicros(policy, stamps)
               == KeptMicros(policy, stamps[..n]) + (if IsGap(policy, d) then d - MICROS * (d / MICROS) else d)
            && |Gaps(policy, stamps)| == |Gaps(policy, stamps[..n])| + (if IsGap(policy, d) then 1 else 0)
            && QuietSteps(policy, stamps) == QuietSteps(policy, stamps[..n]) + (if IsGap(policy, d) then 0 else 1)
  {
    hide IsGap, MakeGap;
  }

  lemma {:induction false} KeptMicrosBounded(policy: Policy, stamps: seq<int>)
    requires stamps != []
    ensures KeptMicros(policy, stamps) as real
            <= QuietSteps(policy, stamps) as real * (policy.ThresholdSeconds() * MICROS as real)
               + (|Gaps(policy, stamps)| * (MICROS - 1)) as real
  {
    hide KeptMicros, QuietSteps, Gaps, Policy.ThresholdSeconds;
    var n := |stamps| - 1;
    if n == 0 {
      LoneStamp(policy, stamps);
    } else {
      var init, d := stamps[..n], stamps[n] - stamps[n - 1];
      KeptMicrosBounded(policy, init);
      LastStep(policy, stamps);
      var t, g := policy.ThresholdSeconds() * MICROS as real, |Gaps(policy, init)|;
      BudgetStep(KeptMicros(policy, init), QuietSteps(policy, init), g * (MICROS - 1), t,
                 if IsGap(policy, d) then d - MICROS * (d / MICROS) else d);
    }
  }

  lemma LoneStamp(policy: Policy, stamps: seq<int>)
    requires |stamps| == 1
    ensures KeptMicros(policy, stamps) == 0 && QuietSteps(policy, stamps) == 0 && |Gaps(policy, stamps)| == 0
  {
  }

  lemma ScaleOut(k: real, t: real, m: real)
    ensures k * (t * m) == (k * t) * m
  {
  }

  lemma KeptScales(policy: Policy, stamps: seq<int>)
    requires stamps != []
    ensures MICROS * KeptSeconds(policy, stamps) <= KeptMicros(policy, stamps)
  {
    hide GapSeconds;
    var span := stamps[|stamps| - 1] - stamps[0];
    assert MICROS * (span / MICROS) <= span;
  }

  /** Kept seconds are bounded by the intervals that are not gaps, with less than a
      second of slack for each gap that truncation shortens. */
  lemma KeptSecondsBounded(policy: Policy, stamps: seq<int>)
    requires stamps != []
    ensures KeptSeconds(policy, stamps) as real
            <= QuietSteps(policy, stamps) as real * policy.ThresholdSeconds() + |Gaps(policy, stamps)| as real
  {
    hide Gaps, GapSeconds, Policy.ThresholdSeconds, QuietSteps, KeptSeconds, KeptMicros;
    KeptMicrosBounded(policy, stamps);
    KeptScales(policy, stamps);
    var kept, g := KeptSeconds(policy, stamps), |Gaps(policy, stamps)|;
    var quiet := QuietSteps(policy, stamps) as real * policy.ThresholdSeconds();
    ScaleOut(QuietSteps(policy, stamps) as real, policy.ThresholdSeconds(), MICROS as real);
    assert (g * (MICROS - 1)) as real <= g as real * MICROS as real;
    assert (MICROS * kept) as real == kept as real * MICROS as real;
  }

  ghost predicate WholeSeconds(stamps: seq<int>) {
    forall i :: 0 <= i < |stamps| ==> stamps[i] % MICROS == 0
  }

  lemma {:induction false} WholeKeptMicrosBounded(policy: Policy, stamps: seq<int>)
    requires stamps != [] && WholeSeconds(stamps)
    ensures KeptMicros(policy, stamps) as real
            <= QuietSteps(policy, stamps) as real * (policy.ThresholdSeconds() * MICROS as real)
  {
    hide KeptMicros, QuietSteps, Gaps, Policy.ThresholdSeconds;
    var n := |stamps| - 1;
    if n == 0 {
      LoneStamp(policy, stamps);
    } else {
      var init, d := stamps[..n], stamps[n] - stamps[n - 1];
      WholeKeptMicrosBounded(policy, init);
      LastStep(policy, stamps);
      assert stamps[n] % MICROS == 0 && stamps[n - 1] % MICROS == 0;
      assert MICROS * (d / MICROS) == d;
      var t := policy.ThresholdSeconds() * MICROS as real;
      BudgetStep(KeptMicros(policy, init), QuietSteps(policy, init), 0, t, if IsGap(policy, d) then 0 else d);
    }
  }

  /** On whole-second stamps the bound holds without slack. */
  lemma WholeKeptSecondsBounded(policy: Policy, stamps: seq<int>)
    requires stamps != [] && WholeSeconds(stamps)
    ensures KeptSeconds(policy, stamps) as real <= QuietSteps(policy, stamps) as real * policy.ThresholdSeconds()
  {
    hide Gaps, GapSeconds, Policy.ThresholdSeconds, QuietSteps, KeptSeconds, KeptMicros;
    WholeKeptMicrosBounded(policy, stamps);
    KeptScales(policy, stamps);
    var kept := KeptSeconds(policy, stamps);
    ScaleOut(QuietSteps(policy, stamps) as real, policy.ThresholdSeconds(), MICROS as real);
    assert (MICROS * kept) as real == kept as real * MICROS as real;
  }

  function MissingTotal(gaps: seq<Gap>): nat {
    if gaps == [] then 0 else MissingTotal(gaps[..|gaps| - 1]) + gaps[|gaps| - 1].missing
  }

  lemma AtLeastOnce(x: int, unit: int)
    requires unit > 0 && x >= unit
    ensures x / unit >= 1
  {
    assert x == (x / unit) * unit + x % unit;
    SignOfProduct(x / unit, unit);
  }

  lemma SignOfProduct(q: int, unit: int)
    requires unit > 0
    ensures q <= 0 ==> q * unit <= 0
  {
  }

  lemma MissingFits(interval: int, micros: int)
    requires interval > 0 && micros >= interval * MICROS
    ensures var slots := micros / (interval * MICROS);
            slots >= 1 && slots * interval <= micros / MICROS
  {
    var unit := interval * MICROS;
    var slots := micros / unit;
    assert micros == slots * unit + micros % unit;
    assert slots * unit == (slots * interval) * MICROS;
    AtLeastOnce(micros, unit);
  }

  lemma MissingInGap(policy: Policy, micros: int)
    requires policy.gapMultiplier >= 1.0 && micros > 0
    requires IsGap(policy, micros)
    ensures (MissingSamples(policy, micros) + 1) * policy.expectedInterval <= micros / MICROS
  {
    hide IsGap;
    if policy.expectedInterval > 0 {
      GapExceedsInterval(policy, micros);
      MissingFits(policy.expectedInterval, micros);
    }
  }

  /** Estimated missing samples never claim more time than the gaps hold. */
  lemma {:induction false} MissingWithinGaps(policy: Policy, stamps: seq<int>)
    requires policy.gapMultiplier >= 1.0
    requires Increasing(stamps)
    ensures var gaps := Gaps(policy, stamps);
            (MissingTotal(gaps) + |gaps|) * policy.expectedInterval <= TotalGap(gaps)
  {
    hide IsGap, ClassifyGap;
    if |stamps| >= 2 {
      var n := |stamps| - 1;
      MissingWithinGaps(policy, stamps[..n]);
      var gaps := Gaps(policy, stamps[..n]);
      var d := stamps[n] - stamps[n - 1];
      if IsGap(policy, d) {
        var gap := MakeGap(policy, stamps[n - 1], stamps[n]);
        assert (gaps + [gap])[..|gaps|] == gaps;
        MissingInGap(policy, d);
        assert (gap.missing + 1) * policy.expectedInterval <= gap.seconds;
        assert (MissingTotal(gaps) + gap.missing + |gaps| + 1) * policy.expectedInterval
            == (MissingTotal(gaps) + |gaps|) * policy.expectedInterval + (gap.missing + 1) * policy.expectedInterval;
      } else {
        assert gaps + [] == gaps;
      }
    }
  }

  lemma AtLeastItself(x: real, m: real)
    requires x > 0.0 && m >= 1.0
    ensures x * m >= x
  {
    assert x * m == x + x * (m - 1.0);
  }

  lemma GapExceedsInterval(policy: Policy, micros: int)
    requires policy.expectedInterval > 0 && policy.gapMultiplier >= 1.0
    requires IsGap(policy, micros)
    ensures micros >= policy.expectedInterval * MICROS
  {
    var interval := policy.expectedInterval as real;
    AtLeastItself(interval, policy.gapMultiplier);
    var threshold := policy.ThresholdSeconds();
    assert threshold >= interval;
    hide Policy.ThresholdSeconds;
    assert micros as real > threshold * 1_000_000.0;
    assert (policy.expectedInterval * MICROS) as real == interval * 1_000_000.0;
  }

  // ----- the numbers among themselves

  lemma LargestPush(gaps: seq<Gap>, gap: Gap)
    ensures LargestGap(gaps + [gap])
            == if gaps == [] || gap.seconds > LargestGap(gaps) then gap.seconds else LargestGap(gaps)
    ensures gaps + [] == gaps
  {
    assert (gaps + [gap])[..|gaps|] == gaps;
  }

  lemma LastInterval(stamps: seq<int>)
    requires |stamps| >= 2
    ensures var n := |stamps| - 1;
            Steps(stamps) == Steps(stamps[..n]) + [stamps[n] - stamps[n - 1]]
  {
  }

  /** No gap outlasts a bound on all intervals, and with a gap the bound is one. */
  lemma {:induction false} GapsBelow(policy: Policy, stamps: seq<int>, bound: int)
    requires forall i :: 0 <= i < |Steps(stamps)| ==> Steps(stamps)[i] <= bound
    ensures Gaps(policy, stamps) != []
            ==> IsGap(policy, bound) && LargestGap(Gaps(policy, stamps)) <= bound / MICROS
  {
    hide IsGap, ClassifyGap, MissingSamples, LargestGap, Steps;
    if |stamps| >= 2 {
      var n := |stamps| - 1;
      var d := Steps(stamps)[n - 1];
      LastInterval(stamps);
      forall i | 0 <= i < n - 1
        ensures Steps(stamps[..n])[i] <= bound
      {
        assert Steps(stamps)[i] == Steps(stamps[..n])[i];
      }
      GapsBelow(policy, stamps[..n], bound);
      LargestPush(Gaps(policy, stamps[..n]), MakeGap(policy, stamps[n - 1], stamps[n]));
      LongerGapsNoMilder(policy, d, bound);
    }
  }

  /** An interval that is a gap is reported, at its length or more. */
  lemma {:induction false} GapReported(policy: Policy, stamps: seq<int>, k: nat)
    requires k < |Steps(stamps)| && IsGap(policy, Steps(stamps)[k])
    ensures Gaps(policy, stamps) != [] && LargestGap(Gaps(policy, stamps)) >= Steps(stamps)[k] / MICROS
  {
    hide IsGap, ClassifyGap, MissingSamples, LargestGap, Steps;
    var n := |stamps| - 1;
    LargestPush(Gaps(policy, stamps[..n]), MakeGap(policy, stamps[n - 1], stamps[n]));
    LastInterval(stamps);
    if k < n - 1 {
      GapReported(policy, stamps[..n], k);
    }
  }

  /** The day has a gap exactly when its longest interval is one, and the largest gap is
      then that interval in whole seconds. */
  lemma LargestGapIsLongestInterval(policy: Policy, stamps: seq<int>)
    requires Increasing(stamps) && |stamps| >= 2
    ensures StatsOf(stamps).Some?
    ensures var gaps, longest := Gaps(policy, stamps), StatsOf(stamps).value.most;
            && (gaps != [] <==> IsGap(policy, longest))
            && (gaps != [] ==> LargestGap(gaps) == longest / MICROS)
  {
    hide IsGap, Gaps, StatsOf, LargestGap, Steps;
    ExtremesBoundSteps(stamps);
    var longest, steps := StatsOf(stamps).value.most, Steps(stamps);
    GapsBelow(policy, stamps, longest);
    var k: nat :| k < |steps| && steps[k] == longest;
    if IsGap(policy, longest) {
      GapReported(policy, stamps, k);
    }
  }

  lemma {:induction false} TotalAtLeastLargest(policy: Policy, stamps: seq<int>)
    requires Increasing(stamps)
    ensures 0 <= LargestGap(Gaps(policy, stamps)) <= TotalGap(Gaps(policy, stamps))
  {
    hide IsGap, ClassifyGap, MissingSamples;
    if |stamps| >= 2 {
      var n := |stamps| - 1;
      TotalAtLeastLargest(policy, stamps[..n]);
      var gaps, gap := Gaps(policy, stamps[..n]), MakeGap(policy, stamps[n - 1], stamps[n]);
      TotalGapAppend(gaps, gap);
      assert (gaps + [gap])[..|gaps|] == gaps;
      assert gap.seconds >= 0;
    }
  }

  lemma Percents(x: int, y: int, d: int)
    requires 0 <= x <= y && d > 0
    ensures var p, q := 100.0 * x as real / d as real, 100.0 * y as real / d as real;
            0.0 <= p <= q && (p == q <==> x == y) && (p >= 100.0 <==> x >= d) && (q >= 100.0 <==> y >= d)
  {
    QuotientOrder(0.0, 100.0 * x as real, d as real);
    QuotientOrder(100.0 * x as real, 100.0 * y as real, d as real);
    QuotientOrder(100.0 * x as real, 100.0 * d as real, d as real);
    QuotientOrder(100.0 * y as real, 100.0 * d as real, d as real);
  }

  /** Gap-adjusted coverage never exceeds span coverage; the two agree exactly when no
      gap time is counted or the cap of 100 hides it. Sample coverage reaches 100
      exactly at the expected count. A day of negative length covers nothing. */
  lemma CoveragesOrdered(policy: Policy, dayStart: int, dayEnd: int, stamps: seq<int>)
    requires policy.daySeconds != 0 && Increasing(stamps)
    ensures var n := Numbers(policy, dayStart, dayEnd, stamps);
            && 0 <= n.largestGap <= n.totalGap <= n.spanSeconds
            && 0.0 <= n.sampleCoverage <= 100.0
            && (n.sampleCoverage == 100.0 <==> n.uniqueCount >= n.expectedCount)
            && (policy.daySeconds > 0 ==>
                  && 0.0 <= n.gapAdjusted <= n.spanCoverage <= 100.0
                  && (n.gapAdjusted == n.spanCoverage
                      <==> n.totalGap == 0 || n.spanSeconds - n.totalGap >= policy.daySeconds))
            && (policy.daySeconds < 0 ==> n.gapAdjusted == 0.0 && n.spanCoverage <= 0.0)
  {
    hide Gaps, TotalGap, LargestGap, GapSeconds, ExpectedCount, SpanSeconds, ClassifyCompleteness;
    TotalAtLeastLargest(policy, stamps);
    TotalGapIs(policy, stamps);
    GapWithinSpan(policy, stamps);
    var total := TotalGap(Gaps(policy, stamps));
    CoveragePair(policy, SpanSeconds(stamps) - total, SpanSeconds(stamps));
    Percents(|stamps|, |stamps|, ExpectedCount(policy));
  }

  lemma CoveragePair(policy: Policy, kept: int, span: int)
    requires policy.daySeconds != 0 && 0 <= kept <= span
    ensures policy.daySeconds > 0 ==>
              && 0.0 <= GapAdjusted(policy, kept) <= SpanCoverage(policy, span) <= 100.0
              && (GapAdjusted(policy, kept) == SpanCoverage(policy, span)
                  <==> kept == span || kept >= policy.daySeconds)
    ensures policy.daySeconds < 0 ==> GapAdjusted(policy, kept) == 0.0 && SpanCoverage(policy, span) <= 0.0
  {
    if policy.daySeconds > 0 {
      Percents(kept, span, policy.daySeconds);
    } else {
      NotPositive(100.0 * kept as real, policy.daySeconds as real);
      NotPositive(100.0 * span as real, policy.daySeconds as real);
    }
  }
}
