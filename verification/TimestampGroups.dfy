/** Grouping keyed rows by charger and event time. */
module TimestampGroups {
  import opened Sorting
  import opened Text
  import opened FrameModels
  import opened LogicalKeys

  /** Chronological, then by charger. */
  predicate KeyLe(a: GroupKey, b: GroupKey) {
    a.time < b.time || (a.time == b.time && TextLe(a.charger, b.charger))
  }

  lemma KeyLeIsTotalOrder()
    ensures TotalOrder(KeyLe)
  {
    hide TextLe;
    TextLeIsTotalOrder();
  }

  function SortedKeys(keys: set<GroupKey>): (r: seq<GroupKey>)
    ensures forall k :: k in r <==> k in keys
    ensures Distinct(r) && Ascending(r, KeyLe)
  {
    KeyLeIsTotalOrder();
    SortedSet(keys, KeyLe)
  }

  function Occurrences(rows: seq<RawRow>): map<Position, nat> {
    map p | p in PositionsOf(rows) :: CountAt(rows, p)
  }

  function GroupAt(key: GroupKey, rows: seq<RawRow>, unassigned: seq<RawRow>, expected: set<Position>): TimestampGroup {
    TimestampGroup(key, rows, expected, Occurrences(rows), unassigned)
  }

  method CountOccurrences(rows: seq<RawRow>) returns (occurrences: map<Position, nat>)
    ensures occurrences == Occurrences(rows)
  {
    hide Occurrences;
    occurrences := map[];
    OccurrencesOfNone();
    for i := 0 to |rows|
      invariant occurrences == Occurrences(rows[..i])
    {
      var p := rows[i].position;
      OccurrencesAppend(rows[..i], rows[i]);
      occurrences := occurrences[p := (if p in occurrences then occurrences[p] else 0) + 1];
      assert rows[..i + 1] == rows[..i] + [rows[i]];
    }
    assert rows[..|rows|] == rows;
  }

  lemma OccurrencesOfNone()
    ensures Occurrences([]) == map[]
  {
  }

  lemma OccurrencesAppend(rows: seq<RawRow>, r: RawRow)
    ensures var before, p := Occurrences(rows), r.position;
            Occurrences(rows + [r]) == before[p := (if p in before then before[p] else 0) + 1]
  {
    hide CountAt, PositionsOf;
    PositionsOfAppend(rows, r);
    forall q
      ensures CountAt(rows + [r], q) == CountAt(rows, q) + if q == r.position then 1 else 0
    {
      CountAppend(rows, r, q);
    }
    PositiveCount(rows, r.position);
  }

  /** A group for every timestamp that holds a row, assigned or not, in order. */
  method BuildTimestampGroups(
      byTimestamp: map<GroupKey, seq<RawRow>>, unassigned: map<GroupKey, seq<RawRow>>, expected: set<Position>)
    returns (groups: seq<TimestampGroup>)
    ensures var keys := SortedKeys(byTimestamp.Keys + unassigned.Keys);
            && |groups| == |keys|
            && forall i :: 0 <= i < |keys| ==>
                 groups[i]
                 == GroupAt(keys[i], RowsUnder(byTimestamp, keys[i]), RowsUnder(unassigned, keys[i]), expected)
  {
    hide Occurrences, SortedKeys, KeyLe, RowsUnder, CountAt;
    var keys := SortedKeys(byTimestamp.Keys + unassigned.Keys);
    groups := [];
    for i := 0 to |keys|
      invariant |groups| == i
      invariant forall j :: 0 <= j < i ==>
                  groups[j]
                  == GroupAt(keys[j], RowsUnder(byTimestamp, keys[j]), RowsUnder(unassigned, keys[j]), expected)
    {
      var rows := RowsUnder(byTimestamp, keys[i]);
      var occurrences := CountOccurrences(rows);
      groups := groups + [TimestampGroup(keys[i], rows, expected, occurrences, RowsUnder(unassigned, keys[i]))];
    }
  }

  lemma GroupWellFormed(src: Source, n: nat, key: GroupKey, unassigned: seq<RawRow>, expected: set<Position>)
    requires n <= |src.rows|
    ensures WellFormedGroup(GroupAt(key, AssignedRows(src, n, key), unassigned, expected))
  {
    hide SourceIndexed, AssignedRows, CountAt;
    AssignedRowsIndexed(src, n, key);
  }
}
