/** Charger-day coverage: union of unique timestamps, inter-sample gaps, and the three
    coverage numbers. Instants are microseconds; durations are reported in whole
    seconds, truncated as the source truncates them. */
module Coverage {
  import opened Sorting
  import opened FrameModels
  import opened Instants
  import opened Rounding
  import opened Cadence

  datatype Policy = Policy(
    expectedInterval: int,
    daySeconds: int,
    gapMultiplier: real,
    moderate: int,
    major: int,
    critical: int,
    completeMin: real,
    partialMin: real,
    tolerance: real)
  {
    function ThresholdSeconds(): real {
      expectedInterval as real * gapMultiplier
    }
  }

  datatype Severity = MINOR | MODERATE | MAJOR | CRITICAL

  datatype Completeness = NO_DATA | SEVERELY_INCOMPLETE_DAY | PARTIAL_DAY | COMPLETE_DAY

  datatype Gap = Gap(start: int, end: int, seconds: int, missing: nat, severity: Severity)

  datatype Contribution = Contribution(
    file: Option<nat>,
    stamps: seq<int>,
    received: Option<int>,
    quality: Option<real>,
    connectors: set<string>,
    smrs: set<string>,
    exactDuplicateRows: nat,
    collisionGroups: nat,
    duplicateStamps: nat)

  /** The numbers that come from timestamps alone. */
  datatype DayNumbers = DayNumbers(
    first: Option<int>,
    last: Option<int>,
    uniqueCount: nat,
    expectedCount: int,
    spanSeconds: int,
    spanCoverage: real,
    sampleCoverage: real,
    gapAdjusted: real,
    gaps: seq<Gap>,
    largestGap: int,
    totalGap: int,
    leading: int,
    trailing: int,
    completeness: Completeness)

  datatype Evaluation = Evaluation(
    fileCount: nat,
    primary: Option<nat>,
    firstReceived: Option<int>,
    quality: Option<real>,
    numbers: DayNumbers,
    intervals: Option<IntervalStats>,
    cadenceAbnormal: bool,
    connectors: set<string>,
    smrs: set<string>,
    duplicateStamps: nat,
    collisions: nat,
    overlapping: nat,
    duplicateFiles: nat)

  // ----- gaps

  /** An interval must exceed the threshold; exactly the threshold is no gap. */
  predicate IsGap(policy: Policy, micros: int) {
    micros as real > policy.ThresholdSeconds() * MICROS as real
  }

  function ClassifyGap(policy: Policy, micros: int): Severity {
    if micros >= policy.critical * MICROS then CRITICAL
    else if micros >= policy.major * MICROS then MAJOR
    else if micros >= policy.moderate * MICROS then MODERATE
    else MINOR
  }

  function MissingSamples(policy: Policy, micros: int): nat {
    if policy.expectedInterval > 0 && micros / (policy.expectedInterval * MICROS) > 1
    then micros / (policy.expectedInterval * MICROS) - 1
    else 0
  }

  function MakeGap(policy: Policy, earlier: int, later: int): Gap {
    var micros := later - earlier;
    Gap(earlier, later, micros / MICROS, MissingSamples(policy, micros), ClassifyGap(policy, micros))
  }

  /** The gaps between consecutive stamps. */
  function Gaps(policy: Policy, stamps: seq<int>): seq<Gap> {
    if |stamps| < 2 then []
    else
      var n := |stamps| - 1;
      Gaps(policy, stamps[..n])
      + if IsGap(policy, stamps[n] - stamps[n - 1]) then [MakeGap(policy, stamps[n - 1], stamps[n])] else []
  }

  function TotalGap(gaps: seq<Gap>): int {
    if gaps == [] then 0 else TotalGap(gaps[..|gaps| - 1]) + gaps[|gaps| - 1].seconds
  }

  function LargestGap(gaps: seq<Gap>): int {
    if gaps == [] then 0
    else
      var rest, last := LargestGap(gaps[..|gaps| - 1]), gaps[|gaps| - 1].seconds;
      if |gaps| == 1 || last > rest then last else rest
  }

  method DetectGaps(policy: Policy, stamps: seq<int>) returns (gaps: seq<Gap>)
    ensures gaps == Gaps(policy, stamps)
  {
    hide IsGap, MakeGap;
    if |stamps| < 2 {
      return [];
    }
    gaps := [];
    for i := 1 to |stamps|
      invariant gaps == Gaps(policy, stamps[..i])
    {
      assert stamps[..i + 1][..i] == stamps[..i];
      if IsGap(policy, stamps[i] - stamps[i - 1]) {
        gaps := gaps + [MakeGap(policy, stamps[i - 1], stamps[i])];
      }
    }
    assert stamps[..|stamps|] == stamps;
  }

  // ----- the day's numbers

  function CapPct(x: real): real {
    if x > 100.0 then 100.0 else x
  }

  function ExpectedCount(policy: Policy): (n: int)
    ensures n >= 1
  {
    var interval := if policy.expectedInterval > 1 then policy.expectedInterval else 1;
    var slots := policy.daySeconds / interval;
    if slots > 1 then slots else 1
  }

  function SpanSeconds(stamps: seq<int>): int {
    if stamps == [] then 0 else (stamps[|stamps| - 1] - stamps[0]) / MICROS
  }

  function ClassifyCompleteness(policy: Policy, pct: real, hasData: bool): Completeness {
    if !hasData then NO_DATA
    else if pct >= policy.completeMin then COMPLETE_DAY
    else if pct >= policy.partialMin then PARTIAL_DAY
    else SEVERELY_INCOMPLETE_DAY
  }

  function SampleCoverage(policy: Policy, uniqueCount: nat): real {
    CapPct(100.0 * uniqueCount as real / ExpectedCount(policy) as real)
  }

  function SpanCoverage(policy: Policy, seconds: int): real
    requires policy.daySeconds != 0
  {
    CapPct(100.0 * seconds as real / policy.daySeconds as real)
  }

  function GapAdjusted(policy: Policy, seconds: int): real
    requires policy.daySeconds != 0
  {
    var pct := 100.0 * seconds as real / policy.daySeconds as real;
    CapPct(if pct > 0.0 then pct else 0.0)
  }

  function Numbers(policy: Policy, dayStart: int, dayEnd: int, stamps: seq<int>): DayNumbers
    requires policy.daySeconds != 0
  {
    var n := |stamps|;
    var gaps := Gaps(policy, stamps);
    var span, total := SpanSeconds(stamps), TotalGap(gaps);
    var sample := SampleCoverage(policy, n);
    DayNumbers(
      if n > 0 then Some(stamps[0]) else None,
      if n > 0 then Some(stamps[n - 1]) else None,
      n,
      ExpectedCount(policy),
      span,
      SpanCoverage(policy, span),
      sample,
      GapAdjusted(policy, span - total),
      gaps,
      LargestGap(gaps),
      total,
      if n > 0 then AtLeastZero((stamps[0] - dayStart) / MICROS) else 0,
      if n > 0 then AtLeastZero((dayEnd - stamps[n - 1]) / MICROS) else 0,
      ClassifyCompleteness(policy, sample, n > 0))
  }

  // ----- the verdict

  /** Thresholds compared with the share of expected samples, without dividing. */
  ghost predicate VerdictReads(policy: Policy, count: nat, expected: int, verdict: Completeness) {
    && (verdict == NO_DATA <==> count == 0)
    && (count > 0 && policy.partialMin <= policy.completeMin <= 100.0 ==>
          var held, whole := 100.0 * count as real, expected as real;
          && (verdict == COMPLETE_DAY <==> held >= policy.completeMin * whole)
          && (verdict == SEVERELY_INCOMPLETE_DAY <==> held < policy.partialMin * whole)
          && (verdict == PARTIAL_DAY <==> policy.partialMin * whole <= held < policy.completeMin * whole))
  }

  lemma ThresholdScaled(threshold: real, count: nat, expected: int)
    requires expected > 0 && threshold <= 100.0
    ensures CapPct(100.0 * count as real / expected as real) >= threshold
            <==> 100.0 * count as real >= threshold * expected as real
  {
    QuotientBelow(100.0 * count as real, expected as real, threshold);
  }

  lemma ThresholdsOrdered(low: real, high: real, expected: int)
    requires low <= high && expected > 0
    ensures low * expected as real <= high * expected as real
  {
    assert (high - low) * expected as real >= 0.0;
  }

  lemma ClassifiedReads(policy: Policy, count: nat)
    ensures VerdictReads(policy, count, ExpectedCount(policy),
                         ClassifyCompleteness(policy, SampleCoverage(policy, count), count > 0))
  {
    hide ExpectedCount, CapPct;
    var expected := ExpectedCount(policy);
    if policy.partialMin <= policy.completeMin <= 100.0 {
      ThresholdScaled(policy.completeMin, count, expected);
      ThresholdScaled(policy.partialMin, count, expected);
      ThresholdsOrdered(policy.partialMin, policy.completeMin, expected);
    }
  }

  lemma NumbersRead(policy: Policy, dayStart: int, dayEnd: int, stamps: seq<int>)
    requires policy.daySeconds != 0
    ensures var n := Numbers(policy, dayStart, dayEnd, stamps);
            && n.expectedCount > 0 && n.uniqueCount == |stamps|
            && VerdictReads(policy, |stamps|, n.expectedCount, n.completeness)
  {
    hide Gaps, TotalGap, LargestGap, SpanSeconds, SampleCoverage, SpanCoverage, GapAdjusted, ClassifyCompleteness,
      ExpectedCount, VerdictReads;
    ClassifiedReads(policy, |stamps|);
  }

  // ----- the union of contributions

  /** One contribution's stamps within the day. */
  function Within(stamps: seq<int>, dayStart: int, dayEnd: int): set<int> {
    set t | t in stamps && dayStart <= t < dayEnd
  }

  function DayStamps(items: seq<Contribution>, dayStart: int, dayEnd: int): set<int> {
    if items == [] then {}
    else DayStamps(items[..|items| - 1], dayStart, dayEnd) + Within(items[|items| - 1].stamps, dayStart, dayEnd)
  }

  /** How many contributions supply this stamp. */
  function Suppliers(items: seq<Contribution>, dayStart: int, dayEnd: int, t: int): nat {
    if items == [] then 0
    else Suppliers(items[..|items| - 1], dayStart, dayEnd, t)
         + if t in Within(items[|items| - 1].stamps, dayStart, dayEnd) then 1 else 0
  }

  predicate Earlier(a: int, b: int) {
    a <= b
  }

  function Sorted(stamps: set<int>): (r: seq<int>)
    ensures forall t :: t in r <==> t in stamps
    ensures Ascending(r, Earlier) && Distinct(r) && |r| == |stamps|
  {
    SortedSet(stamps, Earlier)
  }

  lemma SortedIncreases(stamps: set<int>)
    ensures Increasing(Sorted(stamps))
  {
    var s := Sorted(stamps);
    forall i, j | 0 <= i < j < |s|
      ensures s[i] < s[j]
    {
      assert Earlier(s[i], s[j]) && s[i] != s[j];
    }
  }

  lemma SortedEnds(stamps: set<int>)
    requires stamps != {}
    ensures var s := Sorted(stamps);
            s != [] && s[0] in stamps && s[|s| - 1] in stamps && forall t :: t in stamps ==> s[0] <= t <= s[|s| - 1]
  {
    var s := Sorted(stamps);
    var x := Pick(stamps);
    assert s[0] in s && s[|s| - 1] in s;
    forall t | t in stamps
      ensures s[0] <= t <= s[|s| - 1]
    {
      var i :| 0 <= i < |s| && s[i] == t;
      assert i == 0 || Earlier(s[0], s[i]);
      assert i == |s| - 1 || Earlier(s[i], s[|s| - 1]);
    }
  }

  function Overlapping(items: seq<Contribution>, dayStart: int, dayEnd: int): set<int> {
    set t | t in DayStamps(items, dayStart, dayEnd) && Suppliers(items, dayStart, dayEnd, t) > 1
  }

  function CountIn(seen: map<int, nat>, t: int): nat {
    if t in seen then seen[t] else 0
  }

  ghost predicate Counted(items: seq<Contribution>, dayStart: int, dayEnd: int, seen: map<int, nat>) {
    && seen.Keys == DayStamps(items, dayStart, dayEnd)
    && forall t :: CountIn(seen, t) == Suppliers(items, dayStart, dayEnd, t)
  }

  lemma UnionAppend(items: seq<Contribution>, item: Contribution, dayStart: int, dayEnd: int)
    ensures DayStamps(items + [item], dayStart, dayEnd)
            == DayStamps(items, dayStart, dayEnd) + Within(item.stamps, dayStart, dayEnd)
    ensures forall t :: Suppliers(items + [item], dayStart, dayEnd, t)
                        == Suppliers(items, dayStart, dayEnd, t)
                          + if t in Within(item.stamps, dayStart, dayEnd) then 1 else 0
  {
    assert (items + [item])[..|items|] == items;
  }

  /** Count every stamp of one contribution once. */
  method CountStamps(seen: map<int, nat>, stamps: set<int>) returns (counted: map<int, nat>)
    ensures counted.Keys == seen.Keys + stamps
    ensures forall t :: CountIn(counted, t) == CountIn(seen, t) + if t in stamps then 1 else 0
  {
    counted := seen;
    var pending := stamps;
    while pending != {}
      invariant pending <= stamps
      invariant counted.Keys == seen.Keys + (stamps - pending)
      invariant forall t :: CountIn(counted, t) == CountIn(seen, t) + if t in stamps && t !in pending then 1 else 0
      decreases pending
    {
      ghost var some := Pick(pending);
      var stamp :| stamp in pending;
      counted := counted[stamp := CountIn(counted, stamp) + 1];
      pending := pending - {stamp};
    }
  }

  method UnionStamps(items: seq<Contribution>, dayStart: int, dayEnd: int) returns (seen: map<int, nat>)
    ensures Counted(items, dayStart, dayEnd, seen)
  {
    hide Within;
    seen := map[];
    for i := 0 to |items|
      invariant Counted(items[..i], dayStart, dayEnd, seen)
    {
      UnionAppend(items[..i], items[i], dayStart, dayEnd);
      assert items[..i + 1] == items[..i] + [items[i]];
      seen := CountStamps(seen, Within(items[i].stamps, dayStart, dayEnd));
    }
    assert items[..|items|] == items;
  }

  ghost function ConnectorsOf(items: seq<Contribution>): set<string> {
    set i, c | 0 <= i < |items| && c in items[i].connectors :: c
  }

  ghost function SmrsOf(items: seq<Contribution>): set<string> {
    set i, c | 0 <= i < |items| && c in items[i].smrs :: c
  }

  lemma OverlapCounted(items: seq<Contribution>, dayStart: int, dayEnd: int, seen: map<int, nat>)
    requires Counted(items, dayStart, dayEnd, seen)
    ensures (set t | t in seen && seen[t] > 1) == Overlapping(items, dayStart, dayEnd)
  {
    hide DayStamps, Suppliers;
    assert forall t :: t in seen ==> seen[t] == CountIn(seen, t);
  }

  /** What the contributions say of themselves, added up. */
  datatype Reported = Reported(
    duplicateStamps: nat,
    collisions: nat,
    duplicateFiles: nat,
    received: seq<int>,
    scores: seq<real>)

  function AsList<T>(x: Option<T>): seq<T> {
    if x.Some? then [x.value] else []
  }

  ghost function ReportedBy(items: seq<Contribution>): Reported {
    if items == [] then Reported(0, 0, 0, [], [])
    else
      var r, last := ReportedBy(items[..|items| - 1]), items[|items| - 1];
      Reported(
        r.duplicateStamps + last.duplicateStamps,
        r.collisions + last.collisionGroups,
        r.duplicateFiles + (if last.exactDuplicateRows > 0 then 1 else 0),
        r.received + AsList(last.received),
        r.scores + AsList(last.quality))
  }

  lemma ReportedNothing()
    ensures ReportedBy([]) == Reported(0, 0, 0, [], [])
  {
  }

  lemma ReportedAppend(items: seq<Contribution>, item: Contribution)
    ensures var r := ReportedBy(items);
            ReportedBy(items + [item])
            == Reported(
                 r.duplicateStamps + item.duplicateStamps,
                 r.collisions + item.collisionGroups,
                 r.duplicateFiles + (if item.exactDuplicateRows > 0 then 1 else 0),
                 r.received + AsList(item.received),
                 r.scores + AsList(item.quality))
  {
    assert (items + [item])[..|items|] == items;
  }

  function Earliest(times: seq<int>): (r: Option<int>)
    ensures r.None? <==> times == []
    ensures r.Some? ==> r.value in times && forall t :: t in times ==> r.value <= t
  {
    if times == [] then None
    else
      var init, last := times[..|times| - 1], times[|times| - 1];
      assert times == init + [last];
      var rest := Earliest(init);
      if rest.Some? && rest.value <= last then rest else Some(last)
  }

  function Total(scores: seq<real>): real {
    if scores == [] then 0.0 else Total(scores[..|scores| - 1]) + scores[|scores| - 1]
  }

  function Mean(scores: seq<real>): Option<real> {
    if scores == [] then None else Some(Total(scores) / |scores| as real)
  }

  /** Among the contributions with a file, the first with the most distinct stamps. All
      of a file's stamps count, not only the day's. */
  ghost predicate Leads(items: seq<Contribution>, i: nat) {
    && i < |items| && items[i].file.Some?
    && forall j :: 0 <= j < |items| && items[j].file.Some? ==>
         |Members(items[j].stamps)| <= |Members(items[i].stamps)|
         && (j < i ==> |Members(items[j].stamps)| < |Members(items[i].stamps)|)
  }

  ghost predicate IsPrimary(items: seq<Contribution>, file: Option<nat>) {
    match file
    case None => forall i :: 0 <= i < |items| ==> items[i].file.None?
    case Some(_) => exists i: nat :: Leads(items, i) && items[i].file == file
  }

  method PrimaryFile(items: seq<Contribution>) returns (file: Option<nat>)
    ensures IsPrimary(items, file)
  {
    var best: Option<nat> := None;
    for i := 0 to |items|
      invariant best.None? ==> forall j :: 0 <= j < i ==> items[j].file.None?
      invariant best.Some? ==> best.value < i && Leads(items[..i], best.value)
    {
      if items[i].file.Some? && (best.None? || |Members(items[i].stamps)| > |Members(items[best.value].stamps)|) {
        best := Some(i);
      }
    }
    assert items[..|items|] == items;
    file := if best.None? then None else items[best.value].file;
  }

  /** The median interval departs from the expected one by more than the tolerance. */
  predicate CadenceAbnormal(policy: Policy, stats: Option<IntervalStats>) {
    && stats.Some? && policy.expectedInterval > 0
    && var median := stats.value.median / MICROS as real;
       var expected := policy.expectedInterval as real;
       median < expected * (1.0 - policy.tolerance) || median > expected * (1.0 + policy.tolerance)
  }

  /** Assess one charger's delivery for one business date. */
  method EvaluateChargerDay(items: seq<Contribution>, policy: Policy, dayStart: int, dayEnd: int)
    returns (e: Evaluation)
    requires policy.daySeconds != 0
    ensures e.numbers == Numbers(policy, dayStart, dayEnd, Sorted(DayStamps(items, dayStart, dayEnd)))
    ensures VerdictReads(policy, |DayStamps(items, dayStart, dayEnd)|, e.numbers.expectedCount, e.numbers.completeness)
    ensures e.overlapping == |Overlapping(items, dayStart, dayEnd)|
    ensures e.connectors == ConnectorsOf(items) && e.smrs == SmrsOf(items)
    ensures var r := ReportedBy(items);
            && e.duplicateStamps == r.duplicateStamps && e.collisions == r.collisions
            && e.duplicateFiles == r.duplicateFiles
            && e.firstReceived == Earliest(r.received) && e.quality == Mean(r.scores)
    ensures IsPrimary(items, e.primary)
    ensures e.intervals == StatsOf(Sorted(DayStamps(items, dayStart, dayEnd)))
    ensures e.cadenceAbnormal <==> CadenceAbnormal(policy, e.intervals)
    ensures e.fileCount == |items|
  {
    hide ReportedBy, DayStamps, Suppliers, Numbers, Overlapping, Sorted, IsPrimary, StatsOf, CadenceAbnormal, Mean,
      VerdictReads;
    var connectors: set<string> := {};
    var smrs: set<string> := {};
    var duplicateStamps: nat := 0;
    var collisions: nat := 0;
    var duplicateFiles: nat := 0;
    var received: seq<int> := [];
    var scores: seq<real> := [];
    ReportedNothing();
    assert items[..0] == [];
    for i := 0 to |items|
      invariant connectors == ConnectorsOf(items[..i]) && smrs == SmrsOf(items[..i])
      invariant Reported(duplicateStamps, collisions, duplicateFiles, received, scores) == ReportedBy(items[..i])
    {
      ReportedAppend(items[..i], items[i]);
      assert items[..i + 1] == items[..i] + [items[i]];
      connectors := connectors + items[i].connectors;
      smrs := smrs + items[i].smrs;
      duplicateStamps := duplicateStamps + items[i].duplicateStamps;
      collisions := collisions + items[i].collisionGroups;
      if items[i].exactDuplicateRows > 0 {
        duplicateFiles := duplicateFiles + 1;
      }
      received := received + AsList(items[i].received);
      scores := scores + AsList(items[i].quality);
    }
    assert items[..|items|] == items;
    var seen := UnionStamps(items, dayStart, dayEnd);
    var overlapping := set t | t in seen && seen[t] > 1;
    OverlapCounted(items, dayStart, dayEnd, seen);
    var stamps := Sorted(seen.Keys);
    var numbers := AssembleNumbers(policy, dayStart, dayEnd, stamps);
    NumbersRead(policy, dayStart, dayEnd, stamps);
    var primary := PrimaryFile(items);
    var intervals := StatsOf(stamps);
    e := Evaluation(
      |items|, primary, Earliest(received), Mean(scores), numbers, intervals, CadenceAbnormal(policy, intervals),
      connectors, smrs, duplicateStamps, collisions, |overlapping|, duplicateFiles);
  }

  method AssembleNumbers(policy: Policy, dayStart: int, dayEnd: int, stamps: seq<int>) returns (numbers: DayNumbers)
    requires policy.daySeconds != 0
    ensures numbers == Numbers(policy, dayStart, dayEnd, stamps)
  {
    hide IsGap, MakeGap, Gaps, TotalGap, LargestGap, ExpectedCount,
      SampleCoverage, SpanCoverage, GapAdjusted, ClassifyCompleteness;
    var n := |stamps|;
    var gaps := DetectGaps(policy, stamps);
    var span := SpanSeconds(stamps);
    var total := TotalGap(gaps);
    var leading, trailing := 0, 0;
    var first, last := None, None;
    if n > 0 {
      first, last := Some(stamps[0]), Some(stamps[n - 1]);
      leading := AtLeastZero((stamps[0] - dayStart) / MICROS);
      trailing := AtLeastZero((dayEnd - stamps[n - 1]) / MICROS);
    }
    var sample := SampleCoverage(policy, n);
    numbers := DayNumbers(
      first, last, n, ExpectedCount(policy), span,
      SpanCoverage(policy, span), sample, GapAdjusted(policy, span - total),
      gaps, LargestGap(gaps), total, leading, trailing, ClassifyCompleteness(policy, sample, n > 0));
  }
}
