/** When the primary file of a day is one that contributes most to that day. */
module PrimaryFiles {
  import opened Sorting
  import opened FrameModels
  import opened Coverage
  import FileDay

  /** No identified file has more distinct stamps in the day. */
  ghost predicate TopsDay(items: seq<Contribution>, i: nat, dayStart: int, dayEnd: int)
    requires i < |items|
  {
    forall j :: 0 <= j < |items| && items[j].file.Some? ==>
      |Within(items[j].stamps, dayStart, dayEnd)| <= |Within(items[i].stamps, dayStart, dayEnd)|
  }

  ghost predicate InDay(t: int, dayStart: int, dayEnd: int) {
    dayStart <= t < dayEnd
  }

  ghost predicate StampedFrom(items: seq<Contribution>, pool: set<int>) {
    forall j, t :: 0 <= j < |items| && t in items[j].stamps ==> t in pool
  }

  /** Whoever leads overall tops the day, for all contributions stamped from the pool. */
  ghost predicate LeadersTopDay(pool: set<int>, dayStart: int, dayEnd: int) {
    forall items: seq<Contribution>, i: nat ::
      StampedFrom(items, pool) && Leads(items, i) ==> TopsDay(items, i, dayStart, dayEnd)
  }

  lemma AllWithin(stamps: seq<int>, dayStart: int, dayEnd: int)
    requires forall t :: t in stamps ==> InDay(t, dayStart, dayEnd)
    ensures Within(stamps, dayStart, dayEnd) == Members(stamps)
  {
  }

  lemma NoneWithin(stamps: seq<int>, dayStart: int, dayEnd: int)
    requires forall t :: t in stamps ==> !InDay(t, dayStart, dayEnd)
    ensures Within(stamps, dayStart, dayEnd) == {}
  {
  }

  lemma LeaderTops(items: seq<Contribution>, i: nat, dayStart: int, dayEnd: int)
    requires Leads(items, i)
    requires || (forall j, t :: 0 <= j < |items| && t in items[j].stamps ==> InDay(t, dayStart, dayEnd))
             || (forall j, t :: 0 <= j < |items| && t in items[j].stamps ==> !InDay(t, dayStart, dayEnd))
    ensures TopsDay(items, i, dayStart, dayEnd)
  {
    hide Within;
    forall j | 0 <= j < |items| && items[j].file.Some?
      ensures |Within(items[j].stamps, dayStart, dayEnd)| <= |Within(items[i].stamps, dayStart, dayEnd)|
    {
      if forall k, t :: 0 <= k < |items| && t in items[k].stamps ==> InDay(t, dayStart, dayEnd) {
        AllWithin(items[i].stamps, dayStart, dayEnd);
        AllWithin(items[j].stamps, dayStart, dayEnd);
      } else {
        NoneWithin(items[j].stamps, dayStart, dayEnd);
      }
    }
  }

  /** A file with one stamp, and nothing else to report. */
  function LoneStamp(file: nat, t: int): Contribution {
    Contribution(Some(file), [t], None, None, {}, {}, 0, 0, 0)
  }

  lemma OutsideLeads(outside: int, inside: int, dayStart: int, dayEnd: int)
    requires !InDay(outside, dayStart, dayEnd) && InDay(inside, dayStart, dayEnd)
    ensures var items := [LoneStamp(0, outside), LoneStamp(1, inside)];
            Leads(items, 0) && !TopsDay(items, 0, dayStart, dayEnd)
  {
    var items := [LoneStamp(0, outside), LoneStamp(1, inside)];
    assert Members([outside]) == {outside} && Members([inside]) == {inside};
    assert Within([outside], dayStart, dayEnd) == {} && Within([inside], dayStart, dayEnd) == {inside};
    assert items[1].file.Some?;
  }

  /** The primary file is picked by all of a file's stamps. It has most stamps of the day,
      whatever the contributions, exactly when their stamps lie all in the day or all
      outside it. */
  lemma LeadersTopDayIff(pool: set<int>, dayStart: int, dayEnd: int)
    ensures LeadersTopDay(pool, dayStart, dayEnd) <==>
            || (forall t :: t in pool ==> InDay(t, dayStart, dayEnd))
            || (forall t :: t in pool ==> !InDay(t, dayStart, dayEnd))
  {
    hide TopsDay, InDay;
    if || (forall t :: t in pool ==> InDay(t, dayStart, dayEnd))
       || (forall t :: t in pool ==> !InDay(t, dayStart, dayEnd)) {
      forall items: seq<Contribution>, i: nat | i < |items| && StampedFrom(items, pool) && Leads(items, i)
        ensures TopsDay(items, i, dayStart, dayEnd)
      {
        LeaderTops(items, i, dayStart, dayEnd);
      }
    } else {
      var outside :| outside in pool && !InDay(outside, dayStart, dayEnd);
      var inside :| inside in pool && InDay(inside, dayStart, dayEnd);
      OutsideLeads(outside, inside, dayStart, dayEnd);
      var items := [LoneStamp(0, outside), LoneStamp(1, inside)];
      assert StampedFrom(items, pool);
    }
  }

  /** One file with three stamps before the day's second, against one with two in it. */
  lemma PrimaryMayTrail()
    ensures var a := LoneStamp(0, 0).(stamps := [-2, -1, 0]);
            var b := LoneStamp(1, 0).(stamps := [0, 1]);
            Leads([a, b], 0) && |Within(a.stamps, 0, 10)| == 1 && |Within(b.stamps, 0, 10)| == 2
  {
    assert Members([-2, -1, 0]) == {-2, -1, 0} && Members([0, 1]) == {0, 1};
    assert Within([-2, -1, 0], 0, 10) == {0} && Within([0, 1], 0, 10) == {0, 1};
  }

  // ----- contributions rebuilt from stored file days

  /** The item's stamps are rebuilt from what a file's stamps on the date were stored as. */
  ghost predicate RebuiltFrom(item: Contribution, stamps: set<int>, date: int, zone: int) {
    var ordered := Sorted(FileDay.OnDate(stamps, date, zone));
    item.stamps == FileDay.TimestampsUtc(date, FileDay.Offsets(ordered, date, zone), zone)
  }

  lemma RebuiltInDay(item: Contribution, stamps: set<int>, date: int, zone: int, t: int)
    requires RebuiltFrom(item, stamps, date, zone) && t in item.stamps
    ensures InDay(t, FileDay.Midnight(date, zone), FileDay.Midnight(date + 1, zone))
  {
    hide Sorted, FileDay.DateOf, FileDay.OffsetOf;
    var ordered := Sorted(FileDay.OnDate(stamps, date, zone));
    var k :| 0 <= k < |item.stamps| && item.stamps[k] == t;
    assert ordered[k] in ordered;
    FileDay.OffsetRestores(ordered[k], zone);
  }

  /** Coverage rebuilds its contributions from the days stored for the date, so the
      primary file it names has at least as many of the day's stamps as any other. */
  lemma PrimaryTopsStoredDay(items: seq<Contribution>, stamps: seq<set<int>>, date: int, zone: int, i: nat)
    requires |stamps| == |items| && forall j :: 0 <= j < |items| ==> RebuiltFrom(items[j], stamps[j], date, zone)
    requires Leads(items, i)
    ensures TopsDay(items, i, FileDay.Midnight(date, zone), FileDay.Midnight(date + 1, zone))
  {
    hide RebuiltFrom, InDay, Leads, TopsDay, FileDay.Midnight;
    forall j, t | 0 <= j < |items| && t in items[j].stamps
      ensures InDay(t, FileDay.Midnight(date, zone), FileDay.Midnight(date + 1, zone))
    {
      RebuiltInDay(items[j], stamps[j], date, zone, t);
    }
    LeaderInRange(items, i);
    LeaderTops(items, i, FileDay.Midnight(date, zone), FileDay.Midnight(date + 1, zone));
  }

  lemma LeaderInRange(items: seq<Contribution>, i: nat)
    requires Leads(items, i)
    ensures i < |items|
  {
  }
}
