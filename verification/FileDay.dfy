/** Splitting a file's timestamps into local business dates, stored as second offsets,
    and rebuilding them. The zone is a fixed offset from UTC. */
module FileDay {
  import opened Sorting
  import opened Coverage
  import opened Instants
  import opened Rounding

  const DAY_SECONDS := 86_400
  const DAY_MICROS := 86_400_000_000

  /** What profiling found in one file. */
  datatype Profile = Profile(
    stamps: seq<int>,
    rowCount: nat,
    connectors: set<string>,
    smrs: set<string>,
    duplicateStamps: nat,
    collisions: nat,
    exactRows: nat)

  datatype FileDay = FileDay(
    date: int,
    first: int,
    last: int,
    uniqueCount: nat,
    rowCount: nat,
    offsets: seq<int>,
    connectors: set<string>,
    smrs: set<string>,
    duplicateStamps: nat,
    collisions: nat,
    exactRows: nat)

  /** The local date of an instant, as a day number. */
  function DateOf(t: int, zone: int): int {
    (t + zone) / DAY_MICROS
  }

  /** Local midnight of a date, in UTC. */
  function Midnight(date: int, zone: int): int {
    date * DAY_MICROS - zone
  }

  function OffsetOf(t: int, date: int, zone: int): int {
    (t - Midnight(date, zone)) / MICROS
  }

  function Offsets(stamps: seq<int>, date: int, zone: int): (r: seq<int>)
    ensures |r| == |stamps|
    ensures forall i :: 0 <= i < |stamps| ==> r[i] == OffsetOf(stamps[i], date, zone)
  {
    if stamps == [] then []
    else Offsets(stamps[..|stamps| - 1], date, zone) + [OffsetOf(stamps[|stamps| - 1], date, zone)]
  }

  function OnDate(stamps: set<int>, date: int, zone: int): set<int> {
    set t | t in stamps && DateOf(t, zone) == date
  }

  function DatesOf(stamps: set<int>, zone: int): set<int> {
    set t | t in stamps :: DateOf(t, zone)
  }

  lemma ProductOfNats(a: nat, b: nat)
    ensures a * b >= 0
  {
  }

  function Share(rows: nat, part: nat, whole: nat): nat
    requires whole > 0
  {
    ProductOfNats(rows, part);
    HalfEven(rows * part, whole)
  }

  /** Rows are apportioned by a date's share of the stamps; what profiling counted goes to
      the date only when there is no other. */
  function MakeDay(date: int, ordered: seq<int>, zone: int, profile: Profile, multiDay: bool): FileDay
    requires ordered != [] && profile.stamps != []
  {
    FileDay(
      date, ordered[0], ordered[|ordered| - 1], |ordered|, Share(profile.rowCount, |ordered|, |profile.stamps|),
      Offsets(ordered, date, zone), profile.connectors, profile.smrs,
      if multiDay then 0 else profile.duplicateStamps,
      if multiDay then 0 else profile.collisions,
      if multiDay then 0 else profile.exactRows)
  }

  /** The days are one per date present, in date order. */
  ghost predicate AreDaysOf(days: seq<FileDay>, profile: Profile, dates: seq<int>, zone: int)
    requires profile.stamps != []
  {
    && |days| == |dates|
    && forall i :: 0 <= i < |dates| ==>
         && OnDate(Members(profile.stamps), dates[i], zone) != {}
         && days[i]
            == MakeDay(dates[i], Sorted(OnDate(Members(profile.stamps), dates[i], zone)), zone, profile, |dates| > 1)
  }

  ghost function Filed(m: map<int, seq<int>>, date: int): seq<int> {
    if date in m then m[date] else []
  }

  ghost predicate FiledByDate(stamps: seq<int>, zone: int, m: map<int, seq<int>>) {
    && (forall d :: d in m ==> m[d] != [])
    && (forall d, t :: t in Filed(m, d) <==> t in stamps && DateOf(t, zone) == d)
  }

  lemma FileStamp(stamps: seq<int>, zone: int, m: map<int, seq<int>>, t: int)
    requires FiledByDate(stamps, zone, m)
    ensures var d := DateOf(t, zone);
            FiledByDate(stamps + [t], zone, m[d := (if d in m then m[d] else []) + [t]])
  {
    hide DateOf;
    var d := DateOf(t, zone);
    var m' := m[d := (if d in m then m[d] else []) + [t]];
    forall e, u
      ensures u in Filed(m', e) <==> u in stamps + [t] && DateOf(u, zone) == e
    {
      assert u in Filed(m, e) <==> u in stamps && DateOf(u, zone) == e;
      assert Filed(m', e) == if e == d then Filed(m, e) + [t] else Filed(m, e);
    }
  }

  lemma StampFiled(stamps: seq<int>, zone: int, m: map<int, seq<int>>, d: int, t: int)
    requires FiledByDate(stamps, zone, m)
    ensures (d in m && t in m[d]) <==> t in stamps && DateOf(t, zone) == d
  {
    hide DateOf;
    assert t in Filed(m, d) <==> t in stamps && DateOf(t, zone) == d;
  }

  lemma DateFiled(stamps: seq<int>, zone: int, m: map<int, seq<int>>, d: int)
    requires FiledByDate(stamps, zone, m)
    ensures d in m <==> d in DatesOf(Members(stamps), zone)
    ensures d in m ==> |m[d]| > 0
  {
    if d in m {
      StampFiled(stamps, zone, m, d, m[d][0]);
      assert m[d][0] in Members(stamps);
    }
    if d in DatesOf(Members(stamps), zone) {
      var t :| t in Members(stamps) && DateOf(t, zone) == d;
      StampFiled(stamps, zone, m, d, t);
    }
  }

  lemma FiledDates(stamps: seq<int>, zone: int, m: map<int, seq<int>>)
    requires FiledByDate(stamps, zone, m)
    ensures m.Keys == DatesOf(Members(stamps), zone)
  {
    hide DatesOf, FiledByDate;
    if m.Keys != DatesOf(Members(stamps), zone) {
      var d := PickDifference(m.Keys, DatesOf(Members(stamps), zone));
      DateFiled(stamps, zone, m, d);
    }
  }

  lemma FiledStamps(stamps: seq<int>, zone: int, m: map<int, seq<int>>, d: int)
    requires FiledByDate(stamps, zone, m)
    requires d in m
    ensures (set t | t in m[d]) == OnDate(Members(stamps), d, zone)
    ensures OnDate(Members(stamps), d, zone) != {}
  {
    hide FiledByDate, DateOf;
    var filed, wanted := (set t | t in m[d]), OnDate(Members(stamps), d, zone);
    if filed != wanted {
      var t := PickDifference(filed, wanted);
      StampFiled(stamps, zone, m, d, t);
    }
    DateFiled(stamps, zone, m, d);
    assert m[d][0] in filed;
  }

  /** File each stamp under its local date. */
  method FileByDate(stamps: seq<int>, zone: int) returns (byDate: map<int, seq<int>>)
    ensures FiledByDate(stamps, zone, byDate)
  {
    hide DateOf, FiledByDate;
    byDate := map[];
    FiledNothing(zone);
    for i := 0 to |stamps|
      invariant FiledByDate(stamps[..i], zone, byDate)
    {
      var local := DateOf(stamps[i], zone);
      FileStamp(stamps[..i], zone, byDate, stamps[i]);
      assert stamps[..i + 1] == stamps[..i] + [stamps[i]];
      byDate := byDate[local := (if local in byDate then byDate[local] else []) + [stamps[i]]];
    }
    assert stamps[..|stamps|] == stamps;
  }

  /** One contribution per date present, in date order. */
  method BuildFileDays(profile: Profile, zone: int) returns (days: seq<FileDay>)
    ensures profile.stamps == [] ==> days == []
    ensures profile.stamps != [] ==> AreDaysOf(days, profile, Sorted(DatesOf(Members(profile.stamps), zone)), zone)
  {
    hide FiledByDate, MakeDay, OnDate, DatesOf;
    var stamps := profile.stamps;
    if stamps == [] {
      return [];
    }
    var byDate := FileByDate(stamps, zone);
    FiledDates(stamps, zone, byDate);
    var dates := Sorted(byDate.Keys);
    days := [];
    for i := 0 to |dates|
      invariant |days| == i
      invariant forall j :: 0 <= j < i ==>
                  && OnDate(Members(stamps), dates[j], zone) != {}
                  && days[j]
                     == MakeDay(dates[j], Sorted(OnDate(Members(stamps), dates[j], zone)), zone, profile, |dates| > 1)
    {
      assert dates[i] in dates;
      FiledStamps(stamps, zone, byDate, dates[i]);
      var ordered := Sorted(set t | t in byDate[dates[i]]);
      days := days + [MakeDay(dates[i], ordered, zone, profile, |dates| > 1)];
    }
  }

  lemma FiledNothing(zone: int)
    ensures FiledByDate([], zone, map[])
  {
  }

  /** Rebuild one date's instants from its stored offsets. */
  function TimestampsUtc(date: int, offsets: seq<int>, zone: int): (r: seq<int>)
    ensures |r| == |offsets|
    ensures forall i :: 0 <= i < |offsets| ==> r[i] == Midnight(date, zone) + offsets[i] * MICROS
  {
    if offsets == [] then []
    else TimestampsUtc(date, offsets[..|offsets| - 1], zone) + [Midnight(date, zone) + offsets[|offsets| - 1] * MICROS]
  }

  // ----- split and rebuild are inverse

  /** The start of the second an instant falls in, on the local clock. */
  function SecondOf(t: int, zone: int): int {
    t - (t + zone) % MICROS
  }

  lemma DayHolds(t: int, zone: int)
    ensures var d := DateOf(t, zone);
            Midnight(d, zone) <= t < Midnight(d + 1, zone) && Midnight(d + 1, zone) == Midnight(d, zone) + DAY_MICROS
  {
  }

  /** Offsets lie within the day and name the second the stamp fell in. */
  lemma OffsetRestores(t: int, zone: int)
    ensures var d := DateOf(t, zone);
            && 0 <= OffsetOf(t, d, zone) < DAY_SECONDS
            && Midnight(d, zone) + OffsetOf(t, d, zone) * MICROS == SecondOf(t, zone)
  {
    var d := DateOf(t, zone);
    DayHolds(t, zone);
    SecondWithin(t - Midnight(d, zone));
    WholeDaysDropOut(t - Midnight(d, zone), d);
  }

  lemma SecondWithin(local: int)
    requires 0 <= local < DAY_MICROS
    ensures 0 <= local / MICROS < DAY_SECONDS
    ensures (local / MICROS) * MICROS == local - local % MICROS
  {
  }

  lemma WholeDaysDropOut(local: int, d: int)
    ensures (local + d * DAY_MICROS) % MICROS == local % MICROS
  {
    assert local + d * DAY_MICROS == local + (d * DAY_SECONDS) * MICROS;
  }

  lemma DatesInOrder(a: int, b: int, zone: int)
    requires DateOf(a, zone) < DateOf(b, zone)
    ensures a < b
  {
  }

  /** One date after another. */
  function DayByDay(stamps: set<int>, dates: seq<int>, zone: int): seq<int> {
    if dates == [] then []
    else DayByDay(stamps, dates[..|dates| - 1], zone) + Sorted(OnDate(stamps, dates[|dates| - 1], zone))
  }

  lemma {:induction false} DayByDayIncreases(stamps: set<int>, dates: seq<int>, zone: int)
    requires Increasing(dates)
    ensures Increasing(DayByDay(stamps, dates, zone))
    ensures forall t :: t in DayByDay(stamps, dates, zone) <==> t in stamps && DateOf(t, zone) in dates
  {
    hide DateOf;
    if dates != [] {
      var init, last := dates[..|dates| - 1], dates[|dates| - 1];
      assert dates == init + [last];
      DayByDayIncreases(stamps, init, zone);
      var a, b := DayByDay(stamps, init, zone), Sorted(OnDate(stamps, last, zone));
      SortedIncreases(OnDate(stamps, last, zone));
      forall i, j | 0 <= i < |a| && 0 <= j < |b|
        ensures a[i] < b[j]
      {
        assert a[i] in a && b[j] in b;
        assert DateOf(a[i], zone) in init && DateOf(b[j], zone) == last;
        DatesInOrder(a[i], b[j], zone);
      }
    }
  }

  lemma IncreasingIsSorted(r: seq<int>, s: set<int>)
    requires Increasing(r)
    requires forall t :: t in r <==> t in s
    ensures r == Sorted(s)
  {
    AscendingUnique(r, Sorted(s), Earlier);
  }

  /** The dates' stamps, one after another, are the file's stamps in order. */
  lemma DaysPartitionFile(stamps: set<int>, zone: int)
    ensures DayByDay(stamps, Sorted(DatesOf(stamps, zone)), zone) == Sorted(stamps)
  {
    hide DateOf, Sorted;
    var dates := Sorted(DatesOf(stamps, zone));
    SortedIncreases(DatesOf(stamps, zone));
    DayByDayIncreases(stamps, dates, zone);
    forall t | t in stamps
      ensures DateOf(t, zone) in dates
    {
      assert DateOf(t, zone) in DatesOf(stamps, zone);
    }
    IncreasingIsSorted(DayByDay(stamps, dates, zone), stamps);
  }

  function Rebuilt(stamps: set<int>, dates: seq<int>, zone: int): seq<int> {
    if dates == [] then []
    else
      var last := dates[|dates| - 1];
      Rebuilt(stamps, dates[..|dates| - 1], zone)
      + TimestampsUtc(last, Offsets(Sorted(OnDate(stamps, last, zone)), last, zone), zone)
  }

  /** The same stamps, each moved back to the start of its second. */
  ghost predicate SecondsOf(r: seq<int>, s: seq<int>, zone: int) {
    |r| == |s| && forall i :: 0 <= i < |s| ==> r[i] == SecondOf(s[i], zone)
  }

  lemma DateRebuilt(stamps: set<int>, date: int, zone: int)
    ensures var b := Sorted(OnDate(stamps, date, zone));
            SecondsOf(TimestampsUtc(date, Offsets(b, date, zone), zone), b, zone)
  {
    hide DateOf, SecondOf, Midnight, OffsetOf, TimestampsUtc;
    var b := Sorted(OnDate(stamps, date, zone));
    forall i | 0 <= i < |b|
      ensures Midnight(date, zone) + OffsetOf(b[i], date, zone) * MICROS == SecondOf(b[i], zone)
    {
      assert b[i] in b;
      OffsetRestores(b[i], zone);
    }
  }

  lemma SecondsConcat(r: seq<int>, s: seq<int>, q: seq<int>, t: seq<int>, zone: int)
    requires SecondsOf(r, s, zone) && SecondsOf(q, t, zone)
    ensures SecondsOf(r + q, s + t, zone)
  {
    hide SecondOf;
  }

  lemma {:induction false} RebuiltSeconds(stamps: set<int>, dates: seq<int>, zone: int)
    ensures SecondsOf(Rebuilt(stamps, dates, zone), DayByDay(stamps, dates, zone), zone)
  {
    hide SecondsOf, Sorted, OnDate, TimestampsUtc, Offsets;
    if dates == [] {
      NoSeconds(zone);
    } else {
      var init, last := dates[..|dates| - 1], dates[|dates| - 1];
      RebuiltSeconds(stamps, init, zone);
      DateRebuilt(stamps, last, zone);
      var b := Sorted(OnDate(stamps, last, zone));
      SecondsConcat(Rebuilt(stamps, init, zone), DayByDay(stamps, init, zone),
                    TimestampsUtc(last, Offsets(b, last, zone), zone), b, zone);
    }
  }

  lemma NoSeconds(zone: int)
    ensures SecondsOf([], [], zone)
  {
  }

  /** Rebuilding every date gives back the file's stamps, exactly when they all fall
      on whole seconds of the local clock. */
  lemma RebuildRoundTrip(stamps: set<int>, zone: int)
    ensures Rebuilt(stamps, Sorted(DatesOf(stamps, zone)), zone) == Sorted(stamps)
            <==> forall t :: t in stamps ==> (t + zone) % MICROS == 0
  {
    hide DateOf, Sorted, DatesOf, DayByDay, Rebuilt;
    var dates := Sorted(DatesOf(stamps, zone));
    RebuiltSeconds(stamps, dates, zone);
    DaysPartitionFile(stamps, zone);
    var r, s := Rebuilt(stamps, dates, zone), Sorted(stamps);
    if forall t :: t in stamps ==> (t + zone) % MICROS == 0 {
      forall i | 0 <= i < |s|
        ensures r[i] == s[i]
      {
        assert s[i] in s;
      }
    }
    if r == s {
      forall t | t in stamps
        ensures (t + zone) % MICROS == 0
      {
        assert t in s;
        var i :| 0 <= i < |s| && s[i] == t;
        assert r[i] == SecondOf(s[i], zone);
      }
    }
  }

  /** A date's offsets never decrease, and they are all different exactly when no two
      of its stamps share a second. */
  lemma OffsetsSorted(stamps: set<int>, date: int, zone: int, i: nat, j: nat)
    requires i < j < |Sorted(OnDate(stamps, date, zone))|
    ensures var ordered := Sorted(OnDate(stamps, date, zone));
            var offsets := Offsets(ordered, date, zone);
            && 0 <= offsets[i] <= offsets[j] < DAY_SECONDS
            && (offsets[i] == offsets[j] <==> SecondOf(ordered[i], zone) == SecondOf(ordered[j], zone))
  {
    hide DateOf, Midnight, SecondOf;
    var ordered := Sorted(OnDate(stamps, date, zone));
    SortedIncreases(OnDate(stamps, date, zone));
    assert ordered[i] in ordered && ordered[j] in ordered;
    OffsetRestores(ordered[i], zone);
    OffsetRestores(ordered[j], zone);
  }

  /** Coverage's day window for a date keeps exactly that date's stamps. */
  lemma DayWindowKeepsDate(stamps: seq<int>, date: int, zone: int)
    ensures Within(stamps, Midnight(date, zone), Midnight(date + 1, zone)) == OnDate(Members(stamps), date, zone)
  {
    forall t | t in stamps
      ensures Midnight(date, zone) <= t < Midnight(date + 1, zone) <==> DateOf(t, zone) == date
    {
      WindowIsDate(t, date, zone);
    }
  }

  lemma WindowIsDate(t: int, date: int, zone: int)
    ensures Midnight(date, zone) <= t < Midnight(date + 1, zone) <==> DateOf(t, zone) == date
  {
  }

  // ----- what the days add up to

  function TotalStamps(days: seq<FileDay>): nat {
    if days == [] then 0 else TotalStamps(days[..|days| - 1]) + days[|days| - 1].uniqueCount
  }

  function TotalRows(days: seq<FileDay>): nat {
    if days == [] then 0 else TotalRows(days[..|days| - 1]) + days[|days| - 1].rowCount
  }

  ghost predicate Apportioned(days: seq<FileDay>, rows: nat, stamps: nat)
    requires stamps > 0
  {
    forall i :: 0 <= i < |days| ==> days[i].rowCount == Share(rows, days[i].uniqueCount, stamps)
  }

  lemma {:induction false} SharesNear(days: seq<FileDay>, rows: nat, stamps: nat)
    requires stamps > 0 && Apportioned(days, rows, stamps)
    ensures 2 * (rows * TotalStamps(days)) - |days| * stamps <= 2 * (TotalRows(days) * stamps)
            <= 2 * (rows * TotalStamps(days)) + |days| * stamps
  {
    hide HalfEven;
    if days != [] {
      var init, last := days[..|days| - 1], days[|days| - 1];
      SharesNear(init, rows, stamps);
      ProductOfNats(rows, last.uniqueCount);
      HalfEvenNear(rows * last.uniqueCount, stamps);
      Spread(TotalStamps(init), last.uniqueCount, rows);
      Spread(TotalRows(init), last.rowCount, stamps);
      Spread(|init|, 1, stamps);
    }
  }

  lemma Spread(a: int, b: int, unit: int)
    ensures (a + b) * unit == a * unit + b * unit && unit * (a + b) == unit * a + unit * b
  {
  }

  lemma {:induction false} StampsOfDays(days: seq<FileDay>, stamps: set<int>, dates: seq<int>, zone: int)
    requires |days| == |dates|
    requires forall i :: 0 <= i < |dates| ==> days[i].uniqueCount == |OnDate(stamps, dates[i], zone)|
    ensures TotalStamps(days) == |DayByDay(stamps, dates, zone)|
  {
    hide OnDate;
    if days != [] {
      var n := |dates| - 1;
      StampsOfDays(days[..n], stamps, dates[..n], zone);
    }
  }

  lemma ProductGrows(a: int, b: int, unit: nat)
    requires unit > 0
    ensures a < b ==> a * unit < b * unit
  {
    Spread(a, b - a, unit);
  }

  /** Every distinct stamp is counted on one date; and where the profile lists each stamp
      once, the apportioned rows miss the file's by half a row per date at most. A file of
      one date keeps its row count and what profiling counted. */
  lemma DaysAddUp(days: seq<FileDay>, profile: Profile, zone: int)
    requires profile.stamps != [] && AreDaysOf(days, profile, Sorted(DatesOf(Members(profile.stamps), zone)), zone)
    ensures TotalStamps(days) == |Members(profile.stamps)|
    ensures Distinct(profile.stamps) ==>
              2 * profile.rowCount - |days| <= 2 * TotalRows(days) <= 2 * profile.rowCount + |days|
    ensures Distinct(profile.stamps) && |days| == 1 ==>
              && days[0].rowCount == profile.rowCount && days[0].duplicateStamps == profile.duplicateStamps
              && days[0].collisions == profile.collisions && days[0].exactRows == profile.exactRows
  {
    hide DateOf, DatesOf, OnDate, Offsets, Share, Sorted, TotalStamps, TotalRows;
    var stamps := Members(profile.stamps);
    var dates := Sorted(DatesOf(stamps, zone));
    StampsOfDays(days, stamps, dates, zone);
    DaysPartitionFile(stamps, zone);
    if Distinct(profile.stamps) {
      DistinctLength(profile.stamps);
      var n := |profile.stamps|;
      SharesNear(days, profile.rowCount, n);
      RowsNear(TotalRows(days), profile.rowCount, |days|, n);
      if |days| == 1 {
        OneDay(days);
        WholeShare(profile.rowCount, n);
      }
    }
  }

  lemma RowsNear(rows: nat, whole: nat, days: nat, n: nat)
    requires n > 0
    requires 2 * (whole * n) - days * n <= 2 * (rows * n) <= 2 * (whole * n) + days * n
    ensures 2 * whole - days <= 2 * rows <= 2 * whole + days
  {
    Spread(whole, whole, n);
    Spread(rows, rows, n);
    Spread(2 * whole, days, n);
    Spread(2 * whole - days, days, n);
    ProductGrows(2 * rows, 2 * whole - days, n);
    ProductGrows(2 * whole + days, 2 * rows, n);
  }

  lemma OneDay(days: seq<FileDay>)
    requires |days| == 1
    ensures TotalStamps(days) == days[0].uniqueCount
  {
    assert days[..0] == [];
  }

  lemma WholeShare(rows: nat, n: nat)
    requires n > 0
    ensures Share(rows, n, n) == rows
  {
    WholeQuotient(rows, n);
  }

  lemma WholeQuotient(rows: nat, n: nat)
    requires n > 0
    ensures (rows * n) / n == rows && (rows * n) % n == 0
  {
    var q, r := (rows * n) / n, (rows * n) % n;
    assert rows * n == q * n + r;
    Spread(q, 1, n);
    ProductGrows(rows, q, n);
    ProductGrows(q + 1, rows, n);
  }

  // ----- one day

  /** The stamps of one local date: those between its midnight and the next. */
  ghost predicate FallsOn(t: int, date: int, zone: int) {
    date * 86_400_000_000 <= t + zone < (date + 1) * 86_400_000_000
  }

  /** The day of one date: its first and last stamp, how many there are, the nearest whole
      number to its share of the rows, and what only a file of one date keeps. */
  ghost predicate DayRead(day: FileDay, stamps: set<int>, profile: Profile, zone: int, single: bool)
    requires profile.stamps != []
  {
    var share := 2 * (profile.rowCount * |stamps|) - 2 * (day.rowCount * |profile.stamps|);
    && (forall t :: t in stamps <==> t in profile.stamps && FallsOn(t, day.date, zone))
    && day.first in stamps && day.last in stamps && (forall t :: t in stamps ==> day.first <= t <= day.last)
    && day.uniqueCount == |stamps| == |day.offsets|
    && -|profile.stamps| <= share <= |profile.stamps|
    && (share == |profile.stamps| || share == -|profile.stamps| ==> day.rowCount % 2 == 0)
    && day.connectors == profile.connectors && day.smrs == profile.smrs
    && day.duplicateStamps == (if single then profile.duplicateStamps else 0)
    && day.collisions == (if single then profile.collisions else 0)
    && day.exactRows == (if single then profile.exactRows else 0)
  }

  lemma DateRead(t: int, date: int, zone: int)
    ensures DateOf(t, zone) == date <==> FallsOn(t, date, zone)
  {
  }

  /** Every day of a file: one per date, in order. */
  lemma DaysRead(days: seq<FileDay>, profile: Profile, zone: int, i: nat)
    requires profile.stamps != [] && i < |days|
    requires AreDaysOf(days, profile, Sorted(DatesOf(Members(profile.stamps), zone)), zone)
    ensures DayRead(days[i], OnDate(Members(profile.stamps), days[i].date, zone), profile, zone, |days| == 1)
    ensures forall j :: 0 <= j < i ==> days[j].date < days[i].date
  {
    hide Sorted, DateOf, FallsOn, HalfEven;
    var dates := Sorted(DatesOf(Members(profile.stamps), zone));
    SortedIncreases(DatesOf(Members(profile.stamps), zone));
    var stamps := OnDate(Members(profile.stamps), dates[i], zone);
    var ordered := Sorted(stamps);
    forall t
      ensures DateOf(t, zone) == dates[i] <==> FallsOn(t, dates[i], zone)
    {
      DateRead(t, dates[i], zone);
    }
    SortedEnds(stamps);
    ShareRead(profile.rowCount, |ordered|, |profile.stamps|);
  }

  lemma ShareRead(rows: nat, part: nat, whole: nat)
    requires whole > 0
    ensures var share := 2 * (rows * part) - 2 * (Share(rows, part, whole) * whole);
            && -(whole as int) <= share <= whole
            && (share == whole || share == -(whole as int) ==> Share(rows, part, whole) % 2 == 0)
  {
    hide HalfEven;
    ProductOfNats(rows, part);
    HalfEvenNear(rows * part, whole);
    HalfEvenTies(rows * part, whole);
  }
}
